/**
 The controller of an entity: regions of time kept in order, each with its gates
 (cesium/internal/controller/controller.go:70-93, 116-151, 278-498).

 Releasing the last gate of a region and removing the region is one step.
 */
module Controller {
  import opened Telem
  import opened Common
  import opened ControlRegion

  // ----- Regions of time -----

  /** Time ranges in the order of their starts. */
  predicate InOrder(trs: seq<TimeRange>) {
    forall i, j | 0 <= i < j < |trs| :: trs[i].start <= trs[j].start
  }

  /** The comparison regions are placed by: a 64-bit difference of starts. */
  function Compare(a: TimeRange, b: TimeRange): Stamp {
    Wrap64(a.start - b.start)
  }

  /** Starts are far enough from overflowing a signed 64-bit difference. */
  predicate Comparable(a: TimeRange, b: TimeRange) {
    -TWO_63 <= a.start - b.start < TWO_63
  }

  /** The comparison orders two starts as they are exactly when their difference fits. */
  lemma CompareMeaning(a: TimeRange, b: TimeRange)
    ensures ((Compare(a, b) < 0) == (a.start < b.start)) <==> Comparable(a, b)
  {
  }

  /** Where the binary search over `trs[i..j]` puts `t`. */
  function Place(trs: seq<TimeRange>, t: TimeRange, i: nat, j: nat): (pos: nat)
    requires i <= j <= |trs|
    ensures i <= pos <= j
    decreases j - i
  {
    if i == j then
      i
    else
      var h := (i + j) / 2;
      if Compare(trs[h], t) < 0 then Place(trs, t, h + 1, j) else Place(trs, t, i, h)
  }

  method FindPlace(trs: seq<TimeRange>, t: TimeRange) returns (pos: nat)
    ensures pos == Place(trs, t, 0, |trs|)
  {
    var i, j := 0, |trs|;
    while i < j
      invariant 0 <= i <= j <= |trs|
      invariant Place(trs, t, i, j) == Place(trs, t, 0, |trs|)
    {
      var h := (i + j) / 2;
      if Compare(trs[h], t) < 0 {
        i := h + 1;
      } else {
        j := h;
      }
    }
    return i;
  }

  /** Every range that a search by true order looks at has a start comparable with that of `t`. */
  predicate ProbesFit(trs: seq<TimeRange>, t: TimeRange, i: nat, j: nat)
    requires i <= j <= |trs|
    decreases j - i
  {
    i < j ==>
      var h := (i + j) / 2;
      Comparable(trs[h], t) && if trs[h].start < t.start then ProbesFit(trs, t, h + 1, j) else ProbesFit(trs, t, i, h)
  }

  /** `t` may go at `pos` without breaking the order. */
  predicate FitsAt(trs: seq<TimeRange>, t: TimeRange, pos: nat) {
    && pos <= |trs|
    && (forall k | 0 <= k < pos :: trs[k].start <= t.start)
    && (forall k | pos <= k < |trs| :: t.start <= trs[k].start)
  }

  /** One probe of the search: it goes the right way exactly when the starts are comparable. */
  lemma PlaceStep(trs: seq<TimeRange>, t: TimeRange, i: nat, j: nat)
    requires i < j <= |trs|
    ensures var h := (i + j) / 2;
            var goesRight := if Comparable(trs[h], t) then trs[h].start < t.start else t.start <= trs[h].start;
            Place(trs, t, i, j) == if goesRight then Place(trs, t, h + 1, j) else Place(trs, t, i, h)
  {
    CompareMeaning(trs[(i + j) / 2], t);
  }

  /** `t` starts between the end of the first `i` ranges and the last ones from `j` on. */
  predicate Between(trs: seq<TimeRange>, t: TimeRange, i: nat, j: nat)
    requires i <= j <= |trs|
  {
    (i == 0 || trs[i - 1].start <= t.start) && (j == |trs| || t.start <= trs[j].start)
  }

  lemma {:induction false} PlaceFits(trs: seq<TimeRange>, t: TimeRange, i: nat, j: nat)
    requires i <= j <= |trs| && ProbesFit(trs, t, i, j) && Between(trs, t, i, j)
    ensures Between(trs, t, Place(trs, t, i, j), Place(trs, t, i, j))
    decreases j - i
  {
    if i < j {
      var h := (i + j) / 2;
      PlaceStep(trs, t, i, j);
      if trs[h].start < t.start {
        PlaceFits(trs, t, h + 1, j);
      } else {
        PlaceFits(trs, t, i, h);
      }
    }
  }

  /** A probe that goes the wrong way leaves the range it looked at on the wrong side. */
  lemma {:induction false} PlaceMisses(trs: seq<TimeRange>, t: TimeRange, i: nat, j: nat) returns (k: nat)
    requires i <= j <= |trs| && !ProbesFit(trs, t, i, j)
    ensures k < |trs| && if k < Place(trs, t, i, j) then t.start < trs[k].start else trs[k].start < t.start
    decreases j - i
  {
    var h := (i + j) / 2;
    PlaceStep(trs, t, i, j);
    if !Comparable(trs[h], t) {
      k := h;
    } else if trs[h].start < t.start {
      k := PlaceMisses(trs, t, h + 1, j);
    } else {
      k := PlaceMisses(trs, t, i, h);
    }
  }

  function InsertedRange(trs: seq<TimeRange>, t: TimeRange): seq<TimeRange> {
    var pos := Place(trs, t, 0, |trs|);
    trs[..pos] + [t] + trs[pos..]
  }

  lemma OrderAfterInsert(trs: seq<TimeRange>, t: TimeRange, pos: nat)
    requires InOrder(trs) && pos <= |trs|
    ensures InOrder(trs[..pos] + [t] + trs[pos..]) <==> FitsAt(trs, t, pos)
  {
    var r := trs[..pos] + [t] + trs[pos..];
    assert r[pos] == t && (forall k | 0 <= k < pos :: r[k] == trs[k]) && forall k | pos <= k < |trs| :: r[k + 1] == trs[k];
  }

  /** A new region goes in its place exactly when every region the search should look at has a comparable start. */
  lemma InsertInOrderIff(trs: seq<TimeRange>, t: TimeRange)
    requires InOrder(trs)
    ensures InOrder(InsertedRange(trs, t)) <==> ProbesFit(trs, t, 0, |trs|)
  {
    OrderAfterInsert(trs, t, Place(trs, t, 0, |trs|));
    if ProbesFit(trs, t, 0, |trs|) {
      PlaceFits(trs, t, 0, |trs|);
    } else {
      var k := PlaceMisses(trs, t, 0, |trs|);
    }
  }

  lemma {:induction false} ComparableProbesFit(trs: seq<TimeRange>, t: TimeRange, i: nat, j: nat)
    requires i <= j <= |trs| && forall k | 0 <= k < |trs| :: Comparable(trs[k], t)
    ensures ProbesFit(trs, t, i, j)
    decreases j - i
  {
    if i < j {
      var h := (i + j) / 2;
      ComparableProbesFit(trs, t, h + 1, j);
      ComparableProbesFit(trs, t, i, h);
    }
  }

  // ----- The controller as a machine -----

  datatype Held = Held(tr: TimeRange, region: Region)

  function Ranges(s: seq<Held>): seq<TimeRange> {
    seq(|s|, i requires 0 <= i < |s| => s[i].tr)
  }

  /** One of the two ranges was found not to overlap the other. */
  predicate Clear(a: TimeRange, b: TimeRange) {
    !a.OverlapsWith(b) || !b.OverlapsWith(a)
  }

  ghost predicate Inv(s: seq<Held>) {
    Pairwise(Ranges(s), Clear) && forall i | 0 <= i < |s| :: Valid(s[i].region)
  }

  function NewRegion(resource: nat): Region {
    Region(resource, map[], None, 0)
  }

  /** `s` with a new region for `tr` where the search puts it. */
  function Inserted(s: seq<Held>, tr: TimeRange, region: Region): seq<Held> {
    var pos := Place(Ranges(s), tr, 0, |s|);
    s[..pos] + [Held(tr, region)] + s[pos..]
  }

  lemma InsertedRanges(s: seq<Held>, tr: TimeRange, region: Region)
    ensures Ranges(Inserted(s, tr, region)) == InsertedRange(Ranges(s), tr)
  {
  }

  /** Replacing the region just inserted is inserting the other region. */
  lemma InsertedReplaced(s: seq<Held>, tr: TimeRange, region: Region, region': Region)
    ensures var pos := Place(Ranges(s), tr, 0, |s|);
            Inserted(s, tr, region)[pos := Held(tr, region')] == Inserted(s, tr, region')
  {
  }

  predicate Uncontested(s: seq<Held>, tr: TimeRange) {
    forall i | 0 <= i < |s| :: !s[i].tr.OverlapsWith(tr)
  }

  /** The first region that overlaps `tr`. */
  predicate FirstOverlap(s: seq<Held>, tr: TimeRange, i: nat) {
    i < |s| && s[i].tr.OverlapsWith(tr) && forall j | 0 <= j < i :: !s[j].tr.OverlapsWith(tr)
  }

  /** A region after the `i`-th overlaps `tr`. */
  predicate LaterOverlap(s: seq<Held>, tr: TimeRange, i: nat) {
    exists j | i < j < |s| :: s[j].tr.OverlapsWith(tr)
  }

  /** The highest authority. */
  const ABSOLUTE := 255

  datatype Action =
    | Open(tr: TimeRange, id: GateId, subject: Subject, authority: nat, resource: nat)
    | OpenAbsolute(tr: TimeRange, id: GateId, subject: Subject, resource: nat)
    | Register(tr: TimeRange, resource: nat)
    | Update(i: nat, id: GateId, authority: nat)
    | Release(i: nat, id: GateId)

  /** Opening on region `i`.  The gate stays open there even when a second overlapping region makes the call fail. */
  predicate OpenedAt(s: seq<Held>, i: nat, id: GateId, subject: Subject, authority: nat, s': seq<Held>)
    requires i < |s| && Valid(s[i].region)
  {
    if SubjectTaken(s[i].region, subject.key) then s' == s
    else id !in s[i].region.gates && s' == s[i := Held(s[i].tr, Opened(s[i].region, id, subject, authority))]
  }

  /** Opening an absolute gate on region `i`, which is refused when a gate controls it. */
  predicate OpenedAbsoluteAt(s: seq<Held>, i: nat, id: GateId, subject: Subject, s': seq<Held>)
    requires i < |s| && Valid(s[i].region)
  {
    if s[i].region.curr.Some? then s' == s else OpenedAt(s, i, id, subject, ABSOLUTE, s')
  }

  /** A release on region `i`, which removes a region left without gates. */
  ghost predicate ReleasedAt(s: seq<Held>, i: nat, id: GateId, r': Region, t: Transfer, s': seq<Held>)
    requires i < |s| && Valid(s[i].region) && id in s[i].region.gates
  {
    && Released(s[i].region, id, r', t)
    && s' == if t.IsRelease() then s[..i] + s[i + 1..] else s[i := Held(s[i].tr, r')]
  }

  ghost predicate Next(s: seq<Held>, a: Action, s': seq<Held>)
    requires Inv(s)
  {
    match a
    case Open(tr, id, subject, authority, resource) =>
      if Uncontested(s, tr) then s' == Inserted(s, tr, Opened(NewRegion(resource), id, subject, authority))
      else exists i: nat :: FirstOverlap(s, tr, i) && OpenedAt(s, i, id, subject, authority, s')
    case OpenAbsolute(tr, id, subject, resource) =>
      if Uncontested(s, tr) then s' == Inserted(s, tr, Opened(NewRegion(resource), id, subject, ABSOLUTE))
      else exists i: nat :: FirstOverlap(s, tr, i) && OpenedAbsoluteAt(s, i, id, subject, s')
    case Register(tr, resource) =>
      s' == if Uncontested(s, tr) then Inserted(s, tr, NewRegion(resource)) else s
    case Update(i, id, authority) =>
      && i < |s| && id in s[i].region.gates
      && exists r', t :: Updated(s[i].region, id, authority, r', t) && s' == s[i := Held(s[i].tr, r')]
    case Release(i, id) =>
      && i < |s| && id in s[i].region.gates
      && exists r', t :: ReleasedAt(s, i, id, r', t, s')
  }

  // ----- What every step keeps -----

  lemma ReplaceKeeps(s: seq<Held>, i: nat, r: Region)
    requires Inv(s) && i < |s| && Valid(r)
    ensures Inv(s[i := Held(s[i].tr, r)]) && Ranges(s[i := Held(s[i].tr, r)]) == Ranges(s)
  {
    assert Ranges(s[i := Held(s[i].tr, r)]) == Ranges(s);
  }

  lemma UncontestedClear(s: seq<Held>, tr: TimeRange)
    requires Uncontested(s, tr)
    ensures forall i | 0 <= i < |Ranges(s)| :: Clear(Ranges(s)[i], tr) && Clear(tr, Ranges(s)[i])
  {
  }

  lemma InsertedKeeps(s: seq<Held>, tr: TimeRange, region: Region)
    requires Inv(s) && Uncontested(s, tr) && Valid(region)
    ensures Inv(Inserted(s, tr, region)) && Ranges(Inserted(s, tr, region)) == InsertedRange(Ranges(s), tr)
  {
    UncontestedClear(s, tr);
    PairwiseInsert(Ranges(s), Place(Ranges(s), tr, 0, |s|), tr, Clear);
    InsertedRanges(s, tr, region);
  }

  lemma OpenedAtKeeps(s: seq<Held>, i: nat, id: GateId, subject: Subject, authority: nat, s': seq<Held>)
    requires Inv(s) && i < |s| && OpenedAt(s, i, id, subject, authority, s')
    ensures Inv(s') && Ranges(s') == Ranges(s)
  {
    if !SubjectTaken(s[i].region, subject.key) {
      OpenKeeps(s[i].region, id, subject, authority);
      ReplaceKeeps(s, i, Opened(s[i].region, id, subject, authority));
    }
  }

  lemma UpdatedAtKeeps(s: seq<Held>, i: nat, id: GateId, authority: nat, r': Region, t: Transfer)
    requires Inv(s) && i < |s| && id in s[i].region.gates && Updated(s[i].region, id, authority, r', t)
    ensures Inv(s[i := Held(s[i].tr, r')]) && Ranges(s[i := Held(s[i].tr, r')]) == Ranges(s)
  {
    UpdateKeepsValid(s[i].region, id, authority, r', t);
    ReplaceKeeps(s, i, r');
  }

  lemma RemovedKeeps(s: seq<Held>, i: nat)
    requires Inv(s) && i < |s|
    ensures Inv(s[..i] + s[i + 1..]) && Ranges(s[..i] + s[i + 1..]) == Ranges(s)[..i] + Ranges(s)[i + 1..]
  {
    PairwiseRemove(Ranges(s), i, Clear);
    assert Ranges(s[..i] + s[i + 1..]) == Ranges(s)[..i] + Ranges(s)[i + 1..];
  }

  lemma ReleasedAtKeeps(s: seq<Held>, i: nat, id: GateId, r': Region, t: Transfer, s': seq<Held>)
    requires Inv(s) && i < |s| && id in s[i].region.gates && ReleasedAt(s, i, id, r', t, s')
    ensures Inv(s') && (Ranges(s') == Ranges(s) || Ranges(s') == Ranges(s)[..i] + Ranges(s)[i + 1..])
  {
    ReleaseKeeps(s[i].region, id, r', t);
    if t.IsRelease() {
      RemovedKeeps(s, i);
    } else {
      ReplaceKeeps(s, i, r');
    }
  }

  /** A step leaves the ranges alone, removes one, or inserts one. */
  ghost predicate Changed(trs: seq<TimeRange>, trs': seq<TimeRange>) {
    || trs' == trs
    || (exists i | 0 <= i < |trs| :: trs' == trs[..i] + trs[i + 1..])
    || (exists tr :: trs' == InsertedRange(trs, tr))
  }

  /** Every step leaves regions valid and pairwise found not to overlap, wherever the search puts a new one. */
  lemma StepKeeps(s: seq<Held>, a: Action, s': seq<Held>)
    requires Inv(s) && Next(s, a, s')
    ensures Inv(s') && Changed(Ranges(s), Ranges(s'))
  {
    match a
    case Open(tr, id, subject, authority, resource) =>
      if Uncontested(s, tr) {
        OpenKeeps(NewRegion(resource), id, subject, authority);
        InsertedKeeps(s, tr, Opened(NewRegion(resource), id, subject, authority));
      } else {
        var i: nat :| FirstOverlap(s, tr, i) && OpenedAt(s, i, id, subject, authority, s');
        OpenedAtKeeps(s, i, id, subject, authority, s');
      }
    case OpenAbsolute(tr, id, subject, resource) =>
      if Uncontested(s, tr) {
        OpenKeeps(NewRegion(resource), id, subject, ABSOLUTE);
        InsertedKeeps(s, tr, Opened(NewRegion(resource), id, subject, ABSOLUTE));
      } else {
        var i: nat :| FirstOverlap(s, tr, i) && OpenedAbsoluteAt(s, i, id, subject, s');
        if s[i].region.curr.None? {
          OpenedAtKeeps(s, i, id, subject, ABSOLUTE, s');
        }
      }
    case Register(tr, resource) =>
      if Uncontested(s, tr) {
        InsertedKeeps(s, tr, NewRegion(resource));
      }
    case Update(i, id, authority) =>
      var r', t :| Updated(s[i].region, id, authority, r', t) && s' == s[i := Held(s[i].tr, r')];
      UpdatedAtKeeps(s, i, id, authority, r', t);
    case Release(i, id) =>
      var r', t :| ReleasedAt(s, i, id, r', t, s');
      ReleasedAtKeeps(s, i, id, r', t, s');
  }

  /** Starts of the regions held at the same time are comparable. */
  predicate StartsFit(trs: seq<TimeRange>) {
    forall i, j | 0 <= i < |trs| && 0 <= j < |trs| :: Comparable(trs[i], trs[j])
  }

  lemma InsertKeepsOrder(trs: seq<TimeRange>, tr: TimeRange)
    requires InOrder(trs) && StartsFit(InsertedRange(trs, tr))
    ensures InOrder(InsertedRange(trs, tr))
  {
    var r, pos := InsertedRange(trs, tr), Place(trs, tr, 0, |trs|);
    forall k | 0 <= k < |trs|
      ensures Comparable(trs[k], tr)
    {
      assert r[pos] == tr && r[if k < pos then k else k + 1] == trs[k];
    }
    ComparableProbesFit(trs, tr, 0, |trs|);
    InsertInOrderIff(trs, tr);
  }

  lemma ChangeKeepsOrder(trs: seq<TimeRange>, trs': seq<TimeRange>)
    requires Changed(trs, trs') && InOrder(trs) && StartsFit(trs')
    ensures InOrder(trs')
  {
    if tr :| trs' == InsertedRange(trs, tr) {
      InsertKeepsOrder(trs, tr);
    }
  }

  /** Regions in order that do not overlap, with bounds in order, follow one another. */
  lemma InOrderMeansFollowing(s: seq<Held>, i: nat, j: nat)
    requires Inv(s) && InOrder(Ranges(s)) && i < j < |s| && s[i].tr.Ordered() && s[j].tr.Ordered()
    ensures s[i].tr.start < s[j].tr.start && s[i].tr.end <= s[j].tr.start
  {
    assert Ranges(s)[i] == s[i].tr && Ranges(s)[j] == s[j].tr && Clear(Ranges(s)[i], Ranges(s)[j]);
    OverlapMeaning(s[i].tr, s[j].tr);
    OverlapMeaning(s[j].tr, s[i].tr);
  }

  // ----- Whole runs -----

  ghost predicate Steps(s: seq<Held>, a: Action, s': seq<Held>) {
    Inv(s) ==> Next(s, a, s')
  }

  ghost predicate IsRun(run: seq<seq<Held>>, actions: seq<Action>) {
    && |run| == |actions| + 1 && run[0] == []
    && forall i | 0 <= i < |actions| :: Steps(run[i], actions[i], run[i + 1])
  }

  lemma {:induction false} RunKeepsInvariant(run: seq<seq<Held>>, actions: seq<Action>, n: nat)
    requires IsRun(run, actions) && n < |run|
    ensures Inv(run[n])
  {
    if n > 0 {
      RunKeepsInvariant(run, actions, n - 1);
      StepKeeps(run[n - 1], actions[n - 1], run[n]);
    }
  }

  /** When the starts held at the same time are always comparable, regions are in order in every state of the run. */
  lemma {:induction false} RunKeepsOrder(run: seq<seq<Held>>, actions: seq<Action>, n: nat)
    requires IsRun(run, actions) && n < |run| && forall m | 0 <= m <= n :: StartsFit(Ranges(run[m]))
    ensures InOrder(Ranges(run[n]))
  {
    if n > 0 {
      RunKeepsOrder(run, actions, n - 1);
      RunKeepsInvariant(run, actions, n - 1);
      StepKeeps(run[n - 1], actions[n - 1], run[n]);
      ChangeKeepsOrder(Ranges(run[n - 1]), Ranges(run[n]));
    }
  }

  /** A region has control of the instant `t`. */
  predicate Covers(h: Held, t: Stamp) {
    h.tr.ContainsStamp(t)
  }

  /**
   In every state of every run no two regions cover the same instant, as long as the overlap test notices when their
   ranges share one: it does unless one of them is long.
   */
  lemma RunKeepsDisjoint(run: seq<seq<Held>>, actions: seq<Action>, n: nat, i: nat, j: nat, t: Stamp)
    requires IsRun(run, actions) && n < |run| && i < |run[n]| && j < |run[n]| && i != j
    requires Noticed(run[n][i].tr, run[n][j].tr) && Noticed(run[n][j].tr, run[n][i].tr)
    ensures !(Covers(run[n][i], t) && Covers(run[n][j], t))
  {
    RunKeepsInvariant(run, actions, n);
    var trs := Ranges(run[n]);
    assert trs[i] == run[n][i].tr && trs[j] == run[n][j].tr;
    if Covers(run[n][i], t) && Covers(run[n][j], t) {
      SharedInstantNoticed(trs[i], trs[j], t);
      SharedInstantNoticed(trs[j], trs[i], t);
    }
  }

  /** So, under exclusive concurrency, no instant has two open gates authorized for it. */
  lemma AtMostOneAuthorized(run: seq<seq<Held>>, actions: seq<Action>, n: nat, t: Stamp, i: nat, g: GateId, j: nat, h: GateId)
    requires IsRun(run, actions) && n < |run|
    requires i < |run[n]| && j < |run[n]| && Covers(run[n][i], t) && Covers(run[n][j], t)
    requires Noticed(run[n][i].tr, run[n][j].tr) && Noticed(run[n][j].tr, run[n][i].tr)
    requires g in run[n][i].region.gates && h in run[n][j].region.gates
    ensures Inv(run[n])
    ensures Authorized(run[n][i].region, g, true) && Authorized(run[n][j].region, h, true) ==> i == j && g == h
  {
    RunKeepsInvariant(run, actions, n);
    if i != j {
      RunKeepsDisjoint(run, actions, n, i, j, t);
    }
  }

  // ----- Shared concurrency -----

  ghost predicate AllBest(s: seq<Held>)
    requires Inv(s)
  {
    forall i | 0 <= i < |s| :: Best(s[i].region)
  }

  /** An update of the gate in control of a region that more than one gate outranks. */
  predicate ContestedUpdate(s: seq<Held>, a: Action) {
    a.Update? && a.i < |s| && Contested(s[a.i].region, SetAuthority(a.id, a.authority))
  }

  lemma OpenedAtBest(s: seq<Held>, i: nat, id: GateId, subject: Subject, authority: nat, s': seq<Held>)
    requires Inv(s) && Inv(s') && i < |s| && OpenedAt(s, i, id, subject, authority, s') && AllBest(s)
    ensures AllBest(s')
  {
    if !SubjectTaken(s[i].region, subject.key) {
      OpenKeeps(s[i].region, id, subject, authority);
    }
  }

  lemma InsertedBest(s: seq<Held>, tr: TimeRange, region: Region)
    requires Inv(s) && Inv(Inserted(s, tr, region)) && AllBest(s) && Valid(region) && Best(region)
    ensures AllBest(Inserted(s, tr, region))
  {
  }

  lemma UpdatedBest(s: seq<Held>, i: nat, id: GateId, authority: nat, r': Region, t: Transfer)
    requires Inv(s) && AllBest(s) && i < |s| && id in s[i].region.gates && Updated(s[i].region, id, authority, r', t)
    requires Inv(s[i := Held(s[i].tr, r')]) && !Contested(s[i].region, SetAuthority(id, authority))
    ensures AllBest(s[i := Held(s[i].tr, r')])
  {
    UpdateKeepsValid(s[i].region, id, authority, r', t);
    assert r'.gates.Keys == s[i].region.gates.Keys && id in r'.gates;
    StepKeepsBest(s[i].region, SetAuthority(id, authority), t, r');
  }

  lemma ReleasedBest(s: seq<Held>, i: nat, id: GateId, r': Region, t: Transfer, s': seq<Held>)
    requires Inv(s) && Inv(s') && AllBest(s) && i < |s| && id in s[i].region.gates && ReleasedAt(s, i, id, r', t, s')
    ensures AllBest(s')
  {
    ReleaseKeeps(s[i].region, id, r', t);
  }

  /** Unless it is a contested update, a step leaves the best gate of every region in control. */
  lemma StepKeepsAllBest(s: seq<Held>, a: Action, s': seq<Held>)
    requires Inv(s) && Inv(s') && AllBest(s) && Next(s, a, s') && !ContestedUpdate(s, a)
    ensures AllBest(s')
  {
    match a
    case Open(tr, id, subject, authority, resource) =>
      if Uncontested(s, tr) {
        OpenKeeps(NewRegion(resource), id, subject, authority);
        InsertedBest(s, tr, Opened(NewRegion(resource), id, subject, authority));
      } else {
        var i: nat :| FirstOverlap(s, tr, i) && OpenedAt(s, i, id, subject, authority, s');
        OpenedAtBest(s, i, id, subject, authority, s');
      }
    case OpenAbsolute(tr, id, subject, resource) =>
      if Uncontested(s, tr) {
        OpenKeeps(NewRegion(resource), id, subject, ABSOLUTE);
        InsertedBest(s, tr, Opened(NewRegion(resource), id, subject, ABSOLUTE));
      } else {
        var i: nat :| FirstOverlap(s, tr, i) && OpenedAbsoluteAt(s, i, id, subject, s');
        if s[i].region.curr.None? {
          OpenedAtBest(s, i, id, subject, ABSOLUTE, s');
        }
      }
    case Register(tr, resource) =>
      if Uncontested(s, tr) {
        InsertedBest(s, tr, NewRegion(resource));
      }
    case Update(i, id, authority) =>
      var r', t :| Updated(s[i].region, id, authority, r', t) && s' == s[i := Held(s[i].tr, r')];
      UpdatedBest(s, i, id, authority, r', t);
    case Release(i, id) =>
      var r', t :| ReleasedAt(s, i, id, r', t, s');
      ReleasedBest(s, i, id, r', t, s');
  }

  lemma {:induction false} RunKeepsBest(run: seq<seq<Held>>, actions: seq<Action>, n: nat)
    requires IsRun(run, actions) && n < |run| && forall m | 0 <= m < n :: !ContestedUpdate(run[m], actions[m])
    ensures Inv(run[n]) && AllBest(run[n])
  {
    RunKeepsInvariant(run, actions, n);
    if n > 0 {
      RunKeepsBest(run, actions, n - 1);
      StepKeepsAllBest(run[n - 1], actions[n - 1], run[n]);
    }
  }

  /**
   Under shared concurrency, in every state of every run before a contested update, a gate is authorized exactly when no
   gate of its region has a higher authority.
   */
  lemma SharedAuthorizedInRun(run: seq<seq<Held>>, actions: seq<Action>, n: nat, i: nat, g: GateId)
    requires IsRun(run, actions) && n < |run| && forall m | 0 <= m < n :: !ContestedUpdate(run[m], actions[m])
    requires i < |run[n]| && g in run[n][i].region.gates
    ensures Inv(run[n]) && (Authorized(run[n][i].region, g, false) <==> Highest(run[n][i].region, g))
  {
    RunKeepsBest(run, actions, n);
    SharedAuthorizedIff(run[n][i].region);
  }

  // ----- Where regions come from -----

  /** The action asks for a region over this time and for this resource. */
  predicate Names(a: Action, h: Held) {
    match a
    case Open(tr, _, _, _, resource) => h.tr == tr && h.region.resource == resource
    case OpenAbsolute(tr, _, _, resource) => h.tr == tr && h.region.resource == resource
    case Register(tr, resource) => h.tr == tr && h.region.resource == resource
    case _ => false
  }

  predicate SamePlace(a: Held, b: Held) {
    a.tr == b.tr && a.region.resource == b.region.resource
  }

  /** A region over the time and for the resource of `h` is there already. */
  predicate Present(s: seq<Held>, h: Held) {
    exists j | 0 <= j < |s| :: SamePlace(s[j], h)
  }

  lemma InsertedFrom(s: seq<Held>, tr: TimeRange, region: Region, i: nat)
    requires i <= |s|
    ensures Inserted(s, tr, region)[i] == Held(tr, region) || Present(s, Inserted(s, tr, region)[i])
  {
    var pos := Place(Ranges(s), tr, 0, |s|);
    if i < pos {
      assert SamePlace(s[i], Inserted(s, tr, region)[i]);
    } else if i > pos {
      assert SamePlace(s[i - 1], Inserted(s, tr, region)[i]);
    }
  }

  lemma ReplacedFrom(s: seq<Held>, k: nat, r: Region, i: nat)
    requires i < |s| && k < |s| && r.resource == s[k].region.resource
    ensures Present(s, s[k := Held(s[k].tr, r)][i])
  {
    assert SamePlace(s[i], s[k := Held(s[k].tr, r)][i]);
  }

  lemma OpenedFrom(s: seq<Held>, k: nat, id: GateId, subject: Subject, authority: nat, s': seq<Held>, i: nat)
    requires k < |s| && Valid(s[k].region) && OpenedAt(s, k, id, subject, authority, s') && i < |s'|
    ensures Present(s, s'[i])
  {
    if SubjectTaken(s[k].region, subject.key) {
      assert SamePlace(s[i], s'[i]);
    } else {
      ReplacedFrom(s, k, Opened(s[k].region, id, subject, authority), i);
    }
  }

  lemma ReleasedFrom(s: seq<Held>, k: nat, id: GateId, r': Region, t: Transfer, s': seq<Held>, i: nat)
    requires k < |s| && Valid(s[k].region) && id in s[k].region.gates && ReleasedAt(s, k, id, r', t, s') && i < |s'|
    ensures Present(s, s'[i])
  {
    if t.IsRelease() {
      assert SamePlace(s[if i >= k then i + 1 else i], s'[i]);
    } else {
      StepAbout(s[k].region, ReleaseGate(id), t, r');
      ReplacedFrom(s, k, r', i);
    }
  }

  /** A region after a step was there before it, over the same time and for the same resource, or the action names them. */
  lemma StepOrigin(s: seq<Held>, a: Action, s': seq<Held>, i: nat)
    requires Inv(s) && Next(s, a, s') && i < |s'|
    ensures Names(a, s'[i]) || Present(s, s'[i])
  {
    match a
    case Open(tr, id, subject, authority, resource) =>
      if Uncontested(s, tr) {
        InsertedFrom(s, tr, Opened(NewRegion(resource), id, subject, authority), i);
      } else {
        var k: nat :| FirstOverlap(s, tr, k) && OpenedAt(s, k, id, subject, authority, s');
        OpenedFrom(s, k, id, subject, authority, s', i);
      }
    case OpenAbsolute(tr, id, subject, resource) =>
      if Uncontested(s, tr) {
        InsertedFrom(s, tr, Opened(NewRegion(resource), id, subject, ABSOLUTE), i);
      } else {
        var k: nat :| FirstOverlap(s, tr, k) && OpenedAbsoluteAt(s, k, id, subject, s');
        if s[k].region.curr.None? {
          OpenedFrom(s, k, id, subject, ABSOLUTE, s', i);
        } else {
          assert SamePlace(s[i], s'[i]);
        }
      }
    case Register(tr, resource) =>
      if Uncontested(s, tr) {
        InsertedFrom(s, tr, NewRegion(resource), i);
      } else {
        assert SamePlace(s[i], s'[i]);
      }
    case Update(k, id, authority) =>
      var r', t :| Updated(s[k].region, id, authority, r', t) && s' == s[k := Held(s[k].tr, r')];
      StepAbout(s[k].region, SetAuthority(id, authority), t, r');
      ReplacedFrom(s, k, r', i);
    case Release(k, id) =>
      var r', t :| ReleasedAt(s, k, id, r', t, s');
      ReleasedFrom(s, k, id, r', t, s', i);
  }

  lemma RunOrigin(run: seq<seq<Held>>, actions: seq<Action>, n: nat, i: nat)
    requires IsRun(run, actions) && n < |actions| && i < |run[n + 1]|
    ensures Names(actions[n], run[n + 1][i]) || Present(run[n], run[n + 1][i])
  {
    RunKeepsInvariant(run, actions, n);
    assert Steps(run[n], actions[n], run[n + 1]);
    StepOrigin(run[n], actions[n], run[n + 1], i);
  }

  /** Every region of a run was asked for, with its time and its resource. */
  lemma {:induction false} RegionNamed(run: seq<seq<Held>>, actions: seq<Action>, n: nat, i: nat) returns (m: nat)
    requires IsRun(run, actions) && n < |run| && i < |run[n]|
    ensures m < n && Names(actions[m], run[n][i])
  {
    RunOrigin(run, actions, n - 1, i);
    if Names(actions[n - 1], run[n][i]) {
      m := n - 1;
    } else {
      var j :| 0 <= j < |run[n - 1]| && SamePlace(run[n - 1][j], run[n][i]);
      m := RegionNamed(run, actions, n - 1, j);
    }
  }

  // ----- Where the promises stop -----

  /** The region of a first gate. */
  function OneGate(tr: TimeRange, id: GateId, subject: Subject): (h: Held)
    ensures Valid(h.region) && h.region.curr == Some(id) && h.region.gates.Keys == {id}
  {
    OpenKeeps(NewRegion(0), id, subject, 1);
    Held(tr, Opened(NewRegion(0), id, subject, 1))
  }

  /** Opening a gate on each of two ranges found not to overlap. */
  lemma TwoOpens(a: TimeRange, b: TimeRange, p: Subject, q: Subject)
    requires !a.OverlapsWith(b)
    ensures var first, second := OneGate(a, 0, p), OneGate(b, 1, q);
            var after := if Compare(a, b) < 0 then [first, second] else [second, first];
            IsRun([[], [first], after], [Open(a, 0, p, 1, 0), Open(b, 1, q, 1, 0)])
  {
    var first, second := OneGate(a, 0, p), OneGate(b, 1, q);
    assert Inserted([], a, first.region) == [first];
    assert Ranges([first]) == [a];
    assert Place([a], b, 0, 1) == if Compare(a, b) < 0 then 1 else 0;
    assert Inserted([first], b, second.region) == if Compare(a, b) < 0 then [first, second] else [second, first];
  }

  /** A run after which the later region comes first, the starts being too far apart to compare. */
  lemma RegionsOutOfOrder(p: Subject, q: Subject)
    ensures var a := TimeRange(-0x6000_0000_0000_0000, -0x5FFF_0000_0000_0000);
            var b := TimeRange(0x6000_0000_0000_0000, 0x6001_0000_0000_0000);
            && IsRun([[], [OneGate(a, 0, p)], [OneGate(b, 1, q), OneGate(a, 0, p)]], [Open(a, 0, p, 1, 0), Open(b, 1, q, 1, 0)])
            && !InOrder(Ranges([OneGate(b, 1, q), OneGate(a, 0, p)]))
  {
    FarApart(TimeRange(-0x6000_0000_0000_0000, -0x5FFF_0000_0000_0000), TimeRange(0x6000_0000_0000_0000, 0x6001_0000_0000_0000), p, q);
  }

  lemma FarApart(a: TimeRange, b: TimeRange, p: Subject, q: Subject)
    requires a.Ordered() && b.Ordered() && a.end < b.start && !Comparable(a, b)
    ensures IsRun([[], [OneGate(a, 0, p)], [OneGate(b, 1, q), OneGate(a, 0, p)]], [Open(a, 0, p, 1, 0), Open(b, 1, q, 1, 0)])
    ensures !InOrder(Ranges([OneGate(b, 1, q), OneGate(a, 0, p)]))
  {
    OverlapMeaning(a, b);
    CompareMeaning(a, b);
    TwoOpens(a, b, p, q);
    var trs := Ranges([OneGate(b, 1, q), OneGate(a, 0, p)]);
    assert trs[0] == b && trs[1] == a;
  }

  /** A run after which two gates are authorized for instant zero: the first range is long and ends where the second does. */
  lemma TwoAuthorized(p: Subject, q: Subject)
    ensures var a, b := TimeRange(-0x6000_0000_0000_0000, 0x6000_0000_0000_0000), TimeRange(-1, 0x6000_0000_0000_0000);
            var first, second := OneGate(a, 0, p), OneGate(b, 1, q);
            && IsRun([[], [first], [first, second]], [Open(a, 0, p, 1, 0), Open(b, 1, q, 1, 0)])
            && Covers(first, 0) && Authorized(first.region, 0, true) && Covers(second, 0) && Authorized(second.region, 1, true)
  {
    TwoOpens(TimeRange(-0x6000_0000_0000_0000, 0x6000_0000_0000_0000), TimeRange(-1, 0x6000_0000_0000_0000), p, q);
  }

  /** So do all two ranges that share an instant the overlap test does not notice. */
  lemma UnnoticedAuthorized(a: TimeRange, b: TimeRange, p: Subject, q: Subject, t: Stamp)
    requires a.ContainsStamp(t) && b.ContainsStamp(t) && !Noticed(a, b)
    ensures var first, second := OneGate(a, 0, p), OneGate(b, 1, q);
            var after := if Compare(a, b) < 0 then [first, second] else [second, first];
            && IsRun([[], [first], after], [Open(a, 0, p, 1, 0), Open(b, 1, q, 1, 0)])
            && Covers(first, t) && Authorized(first.region, 0, true) && Covers(second, t) && Authorized(second.region, 1, true)
  {
    SharedInstantNoticed(a, b, t);
    TwoOpens(a, b, p, q);
  }

  // ----- Opening over two regions -----

  lemma RunExtends(run: seq<seq<Held>>, actions: seq<Action>, a: Action, s': seq<Held>)
    requires IsRun(run, actions) && Steps(run[|actions|], a, s')
    ensures IsRun(run + [s'], actions + [a])
  {
    var run', actions' := run + [s'], actions + [a];
    forall i | 0 <= i < |actions'|
      ensures Steps(run'[i], actions'[i], run'[i + 1])
    {
      if i < |actions| {
        assert run'[i] == run[i] && run'[i + 1] == run[i + 1] && actions'[i] == actions[i];
      }
    }
  }

  /** The first of two regions with a gate opened on it over both. */
  function Spanned(first: Held, second: Held, subject: Subject): seq<Held>
    requires Valid(first.region)
  {
    [Held(first.tr, Opened(first.region, 2, subject, 1)), second]
  }

  /** After gates on two ranges found not to overlap, one over both stays open on the first region although its call fails. */
  lemma OpenOverTwo(a: TimeRange, b: TimeRange, c: TimeRange, p: Subject, q: Subject, r: Subject)
    requires !a.OverlapsWith(b) && a.OverlapsWith(c) && b.OverlapsWith(c) && r.key != p.key && r.key != q.key
    ensures var x, y := OneGate(a, 0, p), OneGate(b, 1, q);
            var first, second := if Compare(a, b) < 0 then x else y, if Compare(a, b) < 0 then y else x;
            && IsRun([[], [x], [first, second], Spanned(first, second, r)], [Open(a, 0, p, 1, 0), Open(b, 1, q, 1, 0), Open(c, 2, r, 1, 0)])
            && FirstOverlap([first, second], c, 0) && !SubjectTaken(first.region, r.key) && LaterOverlap([first, second], c, 0)
            && 2 in Spanned(first, second, r)[0].region.gates
  {
    var x, y := OneGate(a, 0, p), OneGate(b, 1, q);
    var first, second := if Compare(a, b) < 0 then x else y, if Compare(a, b) < 0 then y else x;
    TwoOpens(a, b, p, q);
    var run, actions := [[], [x], [first, second]], [Open(a, 0, p, 1, 0), Open(b, 1, q, 1, 0)];
    RunKeepsInvariant(run, actions, 2);
    assert [first, second][1].tr.OverlapsWith(c);
    assert OpenedAt([first, second], 0, 2, r, 1, Spanned(first, second, r));
    RunExtends(run, actions, Open(c, 2, r, 1, 0), Spanned(first, second, r));
    assert run + [Spanned(first, second, r)] == [[], [x], [first, second], Spanned(first, second, r)];
    assert actions + [Open(c, 2, r, 1, 0)] == [Open(a, 0, p, 1, 0), Open(b, 1, q, 1, 0), Open(c, 2, r, 1, 0)];
  }
}
