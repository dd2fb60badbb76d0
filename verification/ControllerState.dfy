/**
 Regions and controllers as mutable objects (cesium/internal/controller/controller.go:106-248,
 349-498), each method against the machines of the control modules.
 */
module ControllerState {
  import opened Telem
  import opened Common
  import opened ControlRegion
  import opened Controller

  /** The gate that takes over from a released holder, walking the remaining gates in any order. */
  method BestOf(gates: map<GateId, Gate>) returns (best: GateId)
    requires gates != map[]
    ensures best in gates && Top(gates, best)
  {
    var left := gates.Keys;
    best :| best in left;
    left := left - {best};
    while left != {}
      invariant left <= gates.Keys && best in gates
      invariant forall h | h in gates && h !in left :: !Outranks(gates[h], gates[best])
      decreases |left|
    {
      var og :| og in left;
      if gates[og].authority > gates[best].authority
         || (gates[og].authority == gates[best].authority && gates[og].position < gates[best].position) {
        best := og;
      }
      left := left - {og};
    }
  }

  class LiveRegion {
    const timeRange: TimeRange
    const resource: nat
    var gates: map<GateId, Gate>
    var curr: Option<GateId>
    var counter: int

    ghost function View(): Region
      reads this
    {
      Region(resource, gates, curr, counter)
    }

    constructor (timeRange: TimeRange, resource: nat)
      ensures this.timeRange == timeRange && View() == NewRegion(resource)
    {
      this.timeRange := timeRange;
      this.resource := resource;
      gates, curr, counter := map[], None, 0;
    }

    /** Opens a gate, unless its subject already has one here. */
    method Open(id: GateId, subject: Subject, authority: nat) returns (ok: bool, t: Transfer)
      requires Valid(View()) && id !in gates
      modifies this
      ensures ok <==> !SubjectTaken(old(View()), subject.key)
      ensures View() == if ok then Opened(old(View()), id, subject, authority) else old(View())
      ensures t == if ok then OpenTransfer(old(View()), subject, authority) else NO_TRANSFER
    {
      t := NO_TRANSFER;
      var left := gates.Keys;
      while left != {}
        invariant left <= gates.Keys
        invariant forall g | g in gates && g !in left :: gates[g].subject.key != subject.key
        decreases |left|
      {
        var og :| og in left;
        if gates[og].subject.key == subject.key {
          return false, t;
        }
        left := left - {og};
      }
      var g := Gate(subject, authority, counter);
      if curr.None? || authority > gates[curr.value].authority {
        if curr.Some? {
          t := t.(from := Some(State(gates[curr.value].subject, resource, gates[curr.value].authority)));
        }
        curr := Some(id);
        t := t.(to := Some(State(subject, resource, authority)));
      }
      gates := gates[id := g];
      counter := counter + 1;
      return true, t;
    }

    /** Changes a gate's authority, moving control if it must. */
    method Update(id: GateId, auth: nat) returns (t: Transfer)
      requires Valid(View()) && id in gates
      modifies this
      ensures Updated(old(View()), id, auth, View(), t)
      ensures gates.Keys == old(gates.Keys)
    {
      var prev := gates[id].authority;
      gates := gates[id := gates[id].(authority := auth)];
      ghost var w := View();
      assert w == WithAuthority(old(View()), id, auth);
      var g := gates[id];
      if curr == Some(id) {
        t := Transfer(Some(State(g.subject, resource, prev)), None);
        var left := gates.Keys;
        while left != {}
          invariant left <= gates.Keys && View() == w
          invariant forall h | h in gates && h !in left :: h == id || !Outranks(gates[h], g)
          decreases |left|
        {
          var og :| og in left;
          if og != id && (gates[og].authority > g.authority || (gates[og].authority == g.authority && gates[og].position < g.position)) {
            curr := Some(og);
            t := Transfer(Some(State(g.subject, resource, auth)), Some(State(gates[og].subject, resource, gates[og].authority)));
            assert Outranks(w.gates[og], g) && HandsOver(w, id, og, View(), t);
            return;
          }
          left := left - {og};
        }
        t := t.(to := Some(State(g.subject, resource, auth)));
        return;
      }
      var c := gates[curr.value];
      t := NO_TRANSFER;
      if g.authority > c.authority || (g.authority == c.authority && g.position < c.position) {
        t := Transfer(Some(State(c.subject, resource, c.authority)), Some(State(g.subject, resource, auth)));
        curr := Some(id);
      }
    }

    /** Closes a gate, passing control on if it held it. */
    method Release(id: GateId) returns (t: Transfer)
      requires Valid(View()) && id in gates
      modifies this
      ensures Released(old(View()), id, View(), t)
      ensures gates == old(gates) - {id}
    {
      var g := gates[id];
      var c := gates[curr.value];
      gates := gates - {id};
      ghost var w := Without(old(View()), id);
      t := NO_TRANSFER;
      if |gates| == 0 {
        return Transfer(Some(State(g.subject, resource, g.authority)), None);
      }
      if |gates| == 1 {
        var k :| k in gates;
        curr := Some(k);
        return Transfer(Some(State(c.subject, resource, c.authority)), Some(State(gates[k].subject, resource, gates[k].authority)));
      }
      if curr == Some(id) {
        var h := BestOf(gates);
        curr := Some(h);
        t := Transfer(Some(State(g.subject, resource, g.authority)), Some(State(gates[h].subject, resource, gates[h].authority)));
        assert HandsOver(old(View()), id, h, old(View()).(curr := Some(h)), t);
      }
    }
  }

  datatype OpenResult =
    | InvalidConfig | EntityFailed | SubjectExists | MultipleRegions | Controlled | GateOpened(id: GateId)

  /** The regions hold what the view says. */
  ghost predicate Shows(rs: seq<LiveRegion>, view: seq<Held>)
    reads rs
  {
    |view| == |rs| && forall i | 0 <= i < |rs| :: view[i] == Held(rs[i].timeRange, rs[i].View())
  }

  function RangesOf(rs: seq<LiveRegion>): seq<TimeRange> {
    seq(|rs|, i requires 0 <= i < |rs| => rs[i].timeRange)
  }

  lemma ShownRanges(rs: seq<LiveRegion>, view: seq<Held>)
    requires Shows(rs, view)
    ensures RangesOf(rs) == Ranges(view)
  {
  }

  predicate Distinct(rs: seq<LiveRegion>) {
    forall i, j | 0 <= i < j < |rs| :: rs[i] != rs[j]
  }

  /** Inserting a region object is inserting what it holds. */
  lemma InsertShows(rs: seq<LiveRegion>, view: seq<Held>, r: LiveRegion, pos: nat)
    requires Shows(rs, view) && Distinct(rs) && r !in rs && pos <= |rs|
    ensures Distinct(rs[..pos] + [r] + rs[pos..])
    ensures Shows(rs[..pos] + [r] + rs[pos..], view[..pos] + [Held(r.timeRange, r.View())] + view[pos..])
  {
  }

  lemma RemoveShows(rs: seq<LiveRegion>, view: seq<Held>, i: nat)
    requires Shows(rs, view) && Distinct(rs) && i < |rs|
    ensures Distinct(rs[..i] + rs[i + 1..]) && Shows(rs[..i] + rs[i + 1..], view[..i] + view[i + 1..])
  {
  }

  /** Gate identifiers from `n` on are free. */
  predicate IdsBelow(view: seq<Held>, n: GateId) {
    forall i, g | 0 <= i < |view| && g in view[i].region.gates :: g < n
  }

  /** Identifiers stay below when a region is replaced by one with only older gates. */
  lemma ReplaceIds(view: seq<Held>, i: nat, r: Region, n: GateId)
    requires i < |view| && IdsBelow(view, n) && forall g | g in r.gates :: g < n
    ensures IdsBelow(view[i := Held(view[i].tr, r)], n)
  {
  }

  lemma InsertIds(view: seq<Held>, tr: TimeRange, r: Region, n: GateId)
    requires IdsBelow(view, n) && r.gates == map[]
    ensures IdsBelow(Inserted(view, tr, r), n)
  {
  }

  lemma RemoveIds(view: seq<Held>, i: nat, n: GateId)
    requires i < |view| && IdsBelow(view, n)
    ensures IdsBelow(view[..i] + view[i + 1..], n)
  {
  }

  /** The transfer of a gate opened on the region overlapping `tr`, or on a new one. */
  ghost predicate OpenedWith(s: seq<Held>, tr: TimeRange, entity: Option<nat>, subject: Subject, authority: nat, t: Transfer)
    requires Inv(s)
  {
    if Uncontested(s, tr) then
      entity.Some? && t == OpenTransfer(NewRegion(entity.value), subject, authority)
    else
      exists i: nat | i < |s| :: FirstOverlap(s, tr, i) && t == OpenTransfer(s[i].region, subject, authority)
  }

  /** What came of looking for a region to open a gate on. */
  datatype Scan = NoOverlap | Refused(i: nat) | OpenedOn(i: nat, second: bool)

  /** A region without gates has none of the subject and is controlled by none. */
  predicate Refuses(r: Region, key: string, absolute: bool) {
    (absolute && r.curr.Some?) || SubjectTaken(r, key)
  }

  /** What the scan has come to after the first `n` regions, or at its end. */
  ghost predicate Scanned(s: seq<Held>, tr: TimeRange, subject: Subject, authority: nat, absolute: bool, id: GateId, n: nat,
                          r: Scan, t: Transfer, s': seq<Held>)
    requires Inv(s) && n <= |s|
  {
    match r
    case NoOverlap =>
      s' == s && forall j | 0 <= j < n :: !s[j].tr.OverlapsWith(tr)
    case Refused(i) =>
      s' == s && FirstOverlap(s, tr, i) && Refuses(s[i].region, subject.key, absolute)
    case OpenedOn(i, second) =>
      && FirstOverlap(s, tr, i) && !Refuses(s[i].region, subject.key, absolute)
      && (if second then LaterOverlap(s, tr, i) else i < n && forall j | i < j < n :: !s[j].tr.OverlapsWith(tr))
      && OpenedAt(s, i, id, subject, authority, s') && t == OpenTransfer(s[i].region, subject, authority)
  }

  /** One region of the scan: it does not overlap, or it is a second one. */
  lemma ScanPasses(s: seq<Held>, tr: TimeRange, subject: Subject, authority: nat, absolute: bool, id: GateId, n: nat,
                   r: Scan, t: Transfer, s': seq<Held>)
    requires Inv(s) && n < |s| && Scanned(s, tr, subject, authority, absolute, id, n, r, t, s') && !r.Refused?
    requires r.OpenedOn? ==> !r.second
    ensures |s'| == |s| && s'[n].tr == s[n].tr && (r.NoOverlap? ==> s' == s)
    ensures !s[n].tr.OverlapsWith(tr) ==> Scanned(s, tr, subject, authority, absolute, id, n + 1, r, t, s')
    ensures s[n].tr.OverlapsWith(tr) && r.OpenedOn? ==> Scanned(s, tr, subject, authority, absolute, id, |s|, OpenedOn(r.i, true), t, s')
    ensures s[n].tr.OverlapsWith(tr) && r.NoOverlap? ==> FirstOverlap(s, tr, n)
  {
  }

  /** What an open with a valid configuration returns. */
  ghost predicate OpenReturns(s: seq<Held>, tr: TimeRange, key: string, entity: Option<nat>, res: OpenResult) {
    if Uncontested(s, tr) then
      if entity.Some? then res.GateOpened? else res.EntityFailed?
    else
      exists i: nat :: FirstOverlap(s, tr, i) &&
        if SubjectTaken(s[i].region, key) then res.SubjectExists?
        else if LaterOverlap(s, tr, i) then res.MultipleRegions?
        else res.GateOpened?
  }

  /** What an open of the highest authority returns. */
  ghost predicate OpenAbsoluteReturns(s: seq<Held>, tr: TimeRange, entity: Option<nat>, res: OpenResult) {
    if Uncontested(s, tr) then
      if entity.Some? then res.GateOpened? else res.EntityFailed?
    else
      exists i: nat :: FirstOverlap(s, tr, i) &&
        if s[i].region.curr.Some? then res.Controlled?
        else if LaterOverlap(s, tr, i) then res.MultipleRegions?
        else res.GateOpened?
  }

  /** A second overlap is reported exactly when the subject is new to the first region overlapped and another follows it. */
  lemma SecondOverlapReportedIff(s: seq<Held>, tr: TimeRange, key: string, entity: Option<nat>, res: OpenResult)
    requires OpenReturns(s, tr, key, entity, res)
    ensures res.MultipleRegions? <==>
            exists i: nat :: FirstOverlap(s, tr, i) && !SubjectTaken(s[i].region, key) && LaterOverlap(s, tr, i)
  {
    if i: nat :| FirstOverlap(s, tr, i) && !SubjectTaken(s[i].region, key) && LaterOverlap(s, tr, i) {
      assert forall j: nat | FirstOverlap(s, tr, j) :: j == i;
    }
  }

  /** Gate `id` is open on some region. */
  predicate IsOpen(s: seq<Held>, id: GateId) {
    exists i | 0 <= i < |s| :: id in s[i].region.gates
  }

  lemma NotYetOpen(s: seq<Held>, id: GateId)
    requires IdsBelow(s, id)
    ensures !IsOpen(s, id)
  {
  }

  lemma OpenAfterInsert(s: seq<Held>, tr: TimeRange, region: Region, id: GateId)
    requires id in region.gates
    ensures IsOpen(Inserted(s, tr, region), id)
  {
    assert Inserted(s, tr, region)[Place(Ranges(s), tr, 0, |s|)] == Held(tr, region);
  }

  lemma OpenAfterReplace(s: seq<Held>, i: nat, h: Held, id: GateId)
    requires i < |s| && id in h.region.gates
    ensures IsOpen(s[i := h], id)
  {
    assert s[i := h][i] == h;
  }

  /** A caller is told of a gate, or of a second overlap, exactly when its gate is left open. */
  lemma OpenTold(s: seq<Held>, tr: TimeRange, id: GateId, subject: Subject, authority: nat, entity: Option<nat>, res: OpenResult, s': seq<Held>)
    requires Inv(s) && IdsBelow(s, id) && entity.Some? && Controller.Next(s, Controller.Open(tr, id, subject, authority, entity.value), s')
    requires OpenReturns(s, tr, subject.key, entity, res)
    ensures IsOpen(s', id) <==> res.GateOpened? || res.MultipleRegions?
  {
    NotYetOpen(s, id);
    if Uncontested(s, tr) {
      OpenAfterInsert(s, tr, Opened(NewRegion(entity.value), id, subject, authority), id);
    } else {
      var i: nat :| FirstOverlap(s, tr, i) && OpenedAt(s, i, id, subject, authority, s');
      assert forall j: nat | FirstOverlap(s, tr, j) :: j == i;
      if !SubjectTaken(s[i].region, subject.key) {
        OpenAfterReplace(s, i, Held(s[i].tr, Opened(s[i].region, id, subject, authority)), id);
      }
    }
  }

  /** The transfer reported with a new gate occurs exactly when the gate takes control, and is then to the state it has. */
  lemma OpenTransferTold(s: seq<Held>, tr: TimeRange, id: GateId, subject: Subject, authority: nat, entity: Option<nat>, t: Transfer,
                         s': seq<Held>)
    requires Inv(s) && IdsBelow(s, id) && entity.Some? && Controller.Next(s, Controller.Open(tr, id, subject, authority, entity.value), s')
    requires OpenedWith(s, tr, entity, subject, authority, t) && IsOpen(s', id)
    ensures forall i | 0 <= i < |s'| && id in s'[i].region.gates ::
              && (t.Occurred() <==> s'[i].region.curr == Some(id))
              && (t.Occurred() ==> t.to == Holder(s'[i].region))
  {
    NotYetOpen(s, id);
    forall i | 0 <= i < |s'| && id in s'[i].region.gates
      ensures (t.Occurred() <==> s'[i].region.curr == Some(id)) && (t.Occurred() ==> t.to == Holder(s'[i].region))
    {
      if Uncontested(s, tr) {
        InsertedAt(s, tr, Opened(NewRegion(entity.value), id, subject, authority), i);
      } else {
        OverlapTold(s, tr, id, subject, authority, entity, t, s', i);
      }
    }
  }

  lemma InsertedAt(s: seq<Held>, tr: TimeRange, region: Region, i: nat)
    requires i <= |s|
    ensures Inserted(s, tr, region)[i] == Held(tr, region) || Inserted(s, tr, region)[i] in s
  {
    var pos := Place(Ranges(s), tr, 0, |s|);
    assert i < pos ==> Inserted(s, tr, region)[i] == s[i];
    assert i > pos ==> Inserted(s, tr, region)[i] == s[i - 1];
  }

  lemma OverlapTold(s: seq<Held>, tr: TimeRange, id: GateId, subject: Subject, authority: nat, entity: Option<nat>, t: Transfer,
                    s': seq<Held>, k: nat)
    requires Inv(s) && !Uncontested(s, tr) && Controller.Next(s, Controller.Open(tr, id, subject, authority, entity.GetOr(0)), s')
    requires OpenedWith(s, tr, entity, subject, authority, t) && !IsOpen(s, id) && k < |s'| && id in s'[k].region.gates
    ensures (t.Occurred() <==> s'[k].region.curr == Some(id)) && (t.Occurred() ==> t.to == Holder(s'[k].region))
  {
    var i: nat :| FirstOverlap(s, tr, i) && OpenedAt(s, i, id, subject, authority, s');
    assert forall j: nat | FirstOverlap(s, tr, j) :: j == i;
    assert !SubjectTaken(s[i].region, subject.key);
    assert forall j | 0 <= j < |s| && j != i :: s'[j] == s[j];
    OpenAccounts(s[i].region, id, subject, authority);
  }

  /** So is a caller that asks for the highest authority; otherwise a gate controls the time it asked for. */
  lemma OpenAbsoluteTold(s: seq<Held>, tr: TimeRange, id: GateId, subject: Subject, entity: Option<nat>, res: OpenResult, s': seq<Held>)
    requires Inv(s) && IdsBelow(s, id) && entity.Some? && Controller.Next(s, Controller.OpenAbsolute(tr, id, subject, entity.value), s')
    requires OpenAbsoluteReturns(s, tr, entity, res)
    ensures IsOpen(s', id) <==> res.GateOpened? || res.MultipleRegions?
    ensures !IsOpen(s', id) <==> res.Controlled?
    ensures res.MultipleRegions? ==> exists i: nat :: FirstOverlap(s, tr, i) && LaterOverlap(s, tr, i)
    ensures res.Controlled? ==> exists i: nat :: FirstOverlap(s, tr, i) && s[i].region.curr.Some?
  {
    NotYetOpen(s, id);
    if Uncontested(s, tr) {
      OpenAfterInsert(s, tr, Opened(NewRegion(entity.value), id, subject, ABSOLUTE), id);
    } else {
      var i: nat :| FirstOverlap(s, tr, i) && OpenedAbsoluteAt(s, i, id, subject, s');
      assert forall j: nat | FirstOverlap(s, tr, j) :: j == i;
      if s[i].region.curr.None? {
        OpenAfterReplace(s, i, Held(s[i].tr, Opened(s[i].region, id, subject, ABSOLUTE)), id);
      }
    }
  }

  class LiveController {
    var regions: seq<LiveRegion>
    var nextGate: GateId
    /** What the regions hold. */
    ghost var view: seq<Held>

    /** Regions are separate objects, as the view says, and gate identifiers are not reused. */
    ghost predicate Valid()
      reads this, regions
    {
      Distinct(regions) && Shows(regions, view) && Inv(view) && IdsBelow(view, nextGate)
    }

    constructor ()
      ensures Valid() && view == []
    {
      regions, nextGate, view := [], 0, [];
    }

    /** Puts a new region where the search says. */
    method InsertNewRegion(tr: TimeRange, resource: nat) returns (r: LiveRegion, pos: nat)
      requires Valid() && Uncontested(view, tr)
      modifies this`regions, this`view
      ensures Valid() && fresh(r) && r.timeRange == tr && r.View() == NewRegion(resource)
      ensures pos == Place(Ranges(old(view)), tr, 0, |old(view)|)
      ensures regions == old(regions)[..pos] + [r] + old(regions)[pos..] && view == Inserted(old(view), tr, NewRegion(resource))
    {
      r := new LiveRegion(tr, resource);
      pos := FindPlace(RangesOf(regions), tr);
      ShownRanges(regions, view);
      InsertShows(regions, view, r, pos);
      InsertIds(view, tr, NewRegion(resource), nextGate);
      InsertedKeeps(view, tr, NewRegion(resource));
      regions := regions[..pos] + [r] + regions[pos..];
      view := Inserted(view, tr, NewRegion(resource));
    }

    /** Opens a gate on region `i`. */
    method OpenOn(i: nat, subject: Subject, authority: nat) returns (ok: bool, t: Transfer)
      requires Valid() && i < |regions|
      modifies this`nextGate, this`view, regions[i]
      ensures Valid()
      ensures ok <==> !SubjectTaken(old(view)[i].region, subject.key)
      ensures OpenedAt(old(view), i, old(nextGate), subject, authority, view)
      ensures ok ==> t == OpenTransfer(old(view)[i].region, subject, authority)
    {
      var region := regions[i];
      ghost var id := nextGate;
      ok, t := region.Open(nextGate, subject, authority);
      nextGate := nextGate + 1;
      view := view[i := Held(region.timeRange, region.View())];
      OpenedAtKeeps(old(view), i, id, subject, authority, view);
      ReplaceIds(old(view), i, region.View(), nextGate);
    }

    /** Opens a gate on a new region. */
    method OpenOnNew(tr: TimeRange, subject: Subject, authority: nat, resource: nat) returns (t: Transfer)
      requires Valid() && Uncontested(view, tr)
      modifies this, regions
      ensures Valid()
      ensures view == Inserted(old(view), tr, Opened(NewRegion(resource), old(nextGate), subject, authority))
      ensures t == OpenTransfer(NewRegion(resource), subject, authority)
    {
      var r, pos := InsertNewRegion(tr, resource);
      assert regions[pos] == r && view[pos] == Held(tr, NewRegion(resource));
      var ok;
      ok, t := OpenOn(pos, subject, authority);
      InsertedReplaced(old(view), tr, NewRegion(resource), Opened(NewRegion(resource), old(nextGate), subject, authority));
    }

    /** Opens a gate on region `i` unless it is refused. */
    method TryOpen(i: nat, subject: Subject, authority: nat, absolute: bool) returns (ok: bool, t: Transfer)
      requires Valid() && i < |regions|
      modifies this`nextGate, this`view, regions[i]
      ensures Valid() && (ok <==> !Refuses(old(view)[i].region, subject.key, absolute))
      ensures if ok then OpenedAt(old(view), i, old(nextGate), subject, authority, view) else view == old(view)
      ensures ok ==> t == OpenTransfer(old(view)[i].region, subject, authority)
    {
      assert view[i].region == regions[i].View();
      if absolute && regions[i].curr.Some? {
        return false, NO_TRANSFER;
      }
      ok, t := OpenOn(i, subject, authority);
    }

    /**
     Looks for regions overlapping `tr` and opens a gate on the first, unless its subject has one there or, for an
     absolute gate, somebody controls it.
     */
    method OpenOnOverlap(tr: TimeRange, subject: Subject, authority: nat, absolute: bool) returns (r: Scan, t: Transfer)
      requires Valid()
      modifies this, regions
      ensures Valid() && regions == old(regions)
      ensures Scanned(old(view), tr, subject, authority, absolute, old(nextGate), |old(view)|, r, t, view)
      ensures r.NoOverlap? ==> nextGate == old(nextGate)
    {
      t := NO_TRANSFER;
      r := NoOverlap;
      ghost var before := view;
      for i := 0 to |regions|
        invariant regions == old(regions) && Valid()
        invariant !r.Refused? && (r.OpenedOn? ==> !r.second) && (r.NoOverlap? ==> nextGate == old(nextGate))
        invariant Scanned(before, tr, subject, authority, absolute, old(nextGate), i, r, t, view)
      {
        ScanPasses(before, tr, subject, authority, absolute, old(nextGate), i, r, t, view);
        assert regions[i].timeRange == view[i].tr;
        if regions[i].timeRange.OverlapsWith(tr) {
          if r.OpenedOn? {
            r := OpenedOn(r.i, true);
            return;
          }
          var ok;
          ok, t := TryOpen(i, subject, authority, absolute);
          if !ok {
            r := Refused(i);
            return;
          }
          r := OpenedOn(i, false);
        }
      }
    }

    /** Opens a gate on the region overlapping `tr`, or on a new one made for it. */
    method OpenGateAndMaybeRegister(tr: TimeRange, subject: Subject, authority: nat, entity: Option<nat>)
      returns (res: OpenResult, t: Transfer)
      requires Valid()
      modifies this, regions
      ensures Valid() && (res.InvalidConfig? <==> subject.key == "" || tr.Span() == 0)
      ensures !res.InvalidConfig? ==> OpenReturns(old(view), tr, subject.key, entity, res)
      ensures res.GateOpened? || res.MultipleRegions? ==>
                Controller.Next(old(view), Controller.Open(tr, old(nextGate), subject, authority, entity.GetOr(0)), view)
      ensures res.InvalidConfig? || res.EntityFailed? || res.SubjectExists? ==> view == old(view)
      ensures res.GateOpened? ==> res.id == old(nextGate) && OpenedWith(old(view), tr, entity, subject, authority, t)
    {
      t := NO_TRANSFER;
      if subject.key == "" || tr.Span() == 0 {
        return InvalidConfig, t;
      }
      var id := nextGate;
      var r;
      r, t := OpenOnOverlap(tr, subject, authority, false);
      match r
      case Refused(_) => return SubjectExists, t;
      case OpenedOn(_, second) => return if second then MultipleRegions else GateOpened(id), t;
      case NoOverlap =>
        if entity.None? {
          return EntityFailed, t;
        }
        t := OpenOnNew(tr, subject, authority, entity.value);
        return GateOpened(id), t;
    }

    /** Opens a gate of the highest authority, unless a gate controls a region overlapping `tr`. */
    method OpenAbsoluteGateIfUncontrolled(tr: TimeRange, subject: Subject, entity: Option<nat>)
      returns (res: OpenResult, t: Transfer)
      requires Valid()
      modifies this, regions
      ensures Valid() && OpenAbsoluteReturns(old(view), tr, entity, res)
      ensures !res.EntityFailed? ==>
                Controller.Next(old(view), Controller.OpenAbsolute(tr, old(nextGate), subject, entity.GetOr(0)), view)
      ensures res.Controlled? || res.EntityFailed? ==> view == old(view)
      ensures res.GateOpened? ==> res.id == old(nextGate) && OpenedWith(old(view), tr, entity, subject, ABSOLUTE, t)
    {
      var id := nextGate;
      var r;
      r, t := OpenOnOverlap(tr, subject, ABSOLUTE, true);
      match r
      case Refused(i) =>
        assert OpenedAbsoluteAt(old(view), i, id, subject, view);
        return Controlled, t;
      case OpenedOn(i, second) =>
        assert OpenedAbsoluteAt(old(view), i, id, subject, view);
        return if second then MultipleRegions else GateOpened(id), t;
      case NoOverlap =>
        if entity.None? {
          return EntityFailed, t;
        }
        t := OpenOnNew(tr, subject, ABSOLUTE, entity.value);
        return GateOpened(id), t;
    }

    /** Brings the view up to date with region `i`, the only one that has changed, in which no gate is new. */
    ghost method Refresh(i: nat)
      requires Distinct(regions) && i < |regions| == |view| && IdsBelow(view, nextGate)
      requires forall j | 0 <= j < |regions| && j != i :: view[j] == Held(regions[j].timeRange, regions[j].View())
      requires view[i].tr == regions[i].timeRange && regions[i].gates.Keys <= view[i].region.gates.Keys
      modifies this`view
      ensures Shows(regions, view) && IdsBelow(view, nextGate)
      ensures view == old(view)[i := Held(old(view)[i].tr, regions[i].View())]
    {
      ReplaceIds(view, i, regions[i].View(), nextGate);
      view := view[i := Held(view[i].tr, regions[i].View())];
    }

    /** Makes a region, unless one overlaps it. */
    method Register(tr: TimeRange, resource: nat) returns (ok: bool)
      requires Valid()
      modifies this`regions, this`view
      ensures Valid() && (ok <==> Uncontested(old(view), tr))
      ensures Controller.Next(old(view), Controller.Register(tr, resource), view)
    {
      for i := 0 to |regions|
        invariant forall j | 0 <= j < i :: !view[j].tr.OverlapsWith(tr)
      {
        assert view[i].tr == regions[i].timeRange;
        if regions[i].timeRange.OverlapsWith(tr) {
          return false;
        }
      }
      var r, pos := InsertNewRegion(tr, resource);
      return true;
    }

    /** Changes the authority of a gate of region `i`. */
    method SetAuthority(i: nat, id: GateId, auth: nat) returns (t: Transfer)
      requires Valid() && i < |regions| && id in regions[i].gates
      modifies this`view, regions[i]
      ensures Valid() && Controller.Next(old(view), Controller.Update(i, id, auth), view)
      ensures Updated(old(view)[i].region, id, auth, view[i].region, t)
    {
      var region := regions[i];
      t := region.Update(id, auth);
      UpdatedAtKeeps(view, i, id, auth, region.View(), t);
      Refresh(i);
    }

    /** Closes a gate of region `i`, which may be left spent. */
    method ReleaseOn(i: nat, id: GateId) returns (t: Transfer)
      requires Valid() && i < |regions| && id in regions[i].gates
      modifies this`view, regions[i]
      ensures Distinct(regions) && Shows(regions, view) && IdsBelow(view, nextGate)
      ensures Released(old(view)[i].region, id, regions[i].View(), t)
      ensures view == old(view)[i := Held(old(view)[i].tr, regions[i].View())]
    {
      var region := regions[i];
      t := region.Release(id);
      Refresh(i);
    }

    /** Closes a gate and removes its region when it was the last. */
    method ReleaseGate(i: nat, id: GateId) returns (t: Transfer)
      requires Valid() && i < |regions| && id in regions[i].gates
      modifies this`regions, this`view, regions[i]
      ensures Valid() && Controller.Next(old(view), Controller.Release(i, id), view)
      ensures exists r' :: ReleasedAt(old(view), i, id, r', t, view)
    {
      t := ReleaseOn(i, id);
      ghost var r' := regions[i].View();
      if t.IsRelease() {
        RemoveShows(regions, view, i);
        RemoveIds(view, i, nextGate);
        regions := regions[..i] + regions[i + 1..];
        view := view[..i] + view[i + 1..];
      }
      assert ReleasedAt(old(view), i, id, r', t, view);
      ReleasedAtKeeps(old(view), i, id, r', t, view);
    }
  }
}
