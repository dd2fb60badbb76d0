/**
 A store whose deletions must first open an absolute gate (cesium/internal/unary/delete.go:39-68), so that they keep
 away from the regions in which writers are open (cesium/internal/unary/writer.go:104-108, 149-196).

 A deletion with its gate is one step.  Collections, which change no time range, are not part of this machine.
 */
module GatedStore {
  import opened Telem
  import opened Common
  import opened ControlRegion
  import opened Controller
  import DomainIndex
  import opened DomainDelete
  import opened RateIndex

  type Pointer = DomainIndex.Pointer

  // ----- What a request outside a region leaves alone -----

  /** The request ends before the region starts, or starts after it has ended. */
  predicate Away(region: TimeRange, tr: TimeRange) {
    (tr.start < region.start && tr.end <= region.start) || region.end <= tr.start
  }

  /** The gate lets a request through that is not away from a region exactly when the region is long and they share a bound. */
  lemma GateMissesIff(region: TimeRange, tr: TimeRange)
    requires region.start < region.end && tr.Ordered() && !Away(region, tr)
    ensures !region.OverlapsWith(tr) <==> region.Long() && (tr.start == region.start || tr.end == region.end)
  {
  }

  /** A request that ends where a region starts is let through. */
  lemma TouchingLetThrough(region: TimeRange, tr: TimeRange)
    requires region.Ordered() && tr.Ordered() && tr.start < tr.end == region.start
    ensures !region.OverlapsWith(tr)
  {
    OverlapMeaning(region, tr);
  }

  /** The end calculator counts nothing up to the start of the domain. */
  predicate CountsFromStart(endOffsetOf: Calculator, p: Pointer, density: nat) {
    var r := endOffsetOf(p.tr.start, p.tr.start);
    r.CalcOk? && r.offset * density <= 0 && r.at == p.tr.start
  }

  /** Calculators sound for every domain a bound of the request falls in, that count from the start of a domain. */
  predicate CalculatorsSound(ps: seq<Pointer>, startOffsetOf: Calculator, endOffsetOf: Calculator, tr: TimeRange, density: nat) {
    && (forall k | 0 <= k < |ps| && ps[k].tr.ContainsStamp(tr.start) :: StartCalculatorSound(startOffsetOf, ps[k], tr.start, density))
    && (forall k | 0 <= k < |ps| && ps[k].tr.ContainsStamp(tr.end) :: EndCalculatorSound(endOffsetOf, ps[k], tr.end, density))
    && (forall k | 0 <= k < |ps| && ps[k].tr.start == tr.end :: CountsFromStart(endOffsetOf, ps[k], density))
  }

  /** The start boundary of such a request comes after its end boundary, since no domain reaches from one bound to the other. */
  lemma ReversedBoundaries(ps: seq<Pointer>, startOffsetOf: Calculator, endOffsetOf: Calculator, tr: TimeRange, density: nat)
    requires DomainIndex.Sorted(ps) && Reversed(tr)
    ensures var s, e := LookupStart(ps, startOffsetOf, tr.start, density), LookupEnd(ps, endOffsetOf, tr.end, density);
            s.Boundary? && e.Boundary? ==> s.pos > e.pos
  {
    DomainIndex.LastAtOrBeforeBounds(ps, tr.start);
    DomainIndex.LastAtOrBeforeBounds(ps, tr.end);
  }

  /** A request with its bounds the wrong way round, which the gate's validity test lets pass, removes nothing. */
  lemma ReversedDeletesNothing(ps: seq<Pointer>, startOffsetOf: Calculator, endOffsetOf: Calculator, tr: TimeRange, density: nat,
                               r: DeleteResult, after: seq<Pointer>)
    requires DomainIndex.Sorted(ps) && Reversed(tr)
    requires DeleteOutcome(ps, startOffsetOf, endOffsetOf, tr, density, r, after)
    ensures after == ps
  {
    ReversedBoundaries(ps, startOffsetOf, endOffsetOf, tr, density);
    var s, e := LookupStart(ps, startOffsetOf, tr.start, density), LookupEnd(ps, endOffsetOf, tr.end, density);
    if s.Boundary? && e.Boundary? && r == Deleted {
      NothingSpliced(ps, e.pos, Plan(s.ptr, e.ptr, s.offset, e.offset, s.stamp, e.stamp));
    }
  }

  lemma NothingSpliced(ps: seq<Pointer>, endPos: nat, plan: Plan)
    requires endPos < |ps|
    ensures Splice(ps, endPos + 1, endPos, plan, 0, 0) == ps
  {
  }

  /** A domain that ends before the request starts, or starts after it has ended, stays. */
  lemma FarDomainStays(ps: seq<Pointer>, startOffsetOf: Calculator, endOffsetOf: Calculator, tr: TimeRange, density: nat,
                       after: seq<Pointer>, k: nat)
    requires DomainIndex.Sorted(ps) && tr.Ordered() && k < |ps| && (ps[k].tr.end <= tr.start || tr.end < ps[k].tr.start)
    requires DeleteOutcome(ps, startOffsetOf, endOffsetOf, tr, density, Deleted, after)
    ensures ps[k] in after
  {
    var s, e := LookupStart(ps, startOffsetOf, tr.start, density), LookupEnd(ps, endOffsetOf, tr.end, density);
    var plan := Plan(s.ptr, e.ptr, s.offset, e.offset, s.stamp, e.stamp);
    var v := ValidateDelete(ps, s.pos, e.pos, s.offset, e.offset);
    FarOutside(ps, startOffsetOf, endOffsetOf, tr, density, k);
    OutsideStays(ps, s.pos, e.pos, plan, v.startOffset, v.endOffset, k);
  }

  /** Such a domain lies outside the boundaries of the request. */
  lemma FarOutside(ps: seq<Pointer>, startOffsetOf: Calculator, endOffsetOf: Calculator, tr: TimeRange, density: nat, k: nat)
    requires DomainIndex.Sorted(ps) && tr.Ordered() && k < |ps| && (ps[k].tr.end <= tr.start || tr.end < ps[k].tr.start)
    ensures var s, e := LookupStart(ps, startOffsetOf, tr.start, density), LookupEnd(ps, endOffsetOf, tr.end, density);
            s.Boundary? && e.Boundary? ==> k < s.pos || e.pos < k
  {
    DomainIndex.LastAtOrBeforeBounds(ps, tr.start);
    DomainIndex.LastAtOrBeforeBounds(ps, tr.end);
  }

  lemma OutsideStays(ps: seq<Pointer>, startPos: nat, endPos: nat, plan: Plan, so: nat, eo: nat, k: nat)
    requires startPos <= |ps| && endPos < |ps| && so < DomainIndex.TWO_32 && eo < DomainIndex.TWO_32
    requires k < startPos || endPos < k < |ps|
    ensures ps[k] in Splice(ps, startPos, endPos, plan, so, eo)
  {
    var a, b := ps[..startPos], ps[endPos + 1..];
    if k < startPos {
      assert a[k] == ps[k];
    } else {
      assert b[k - endPos - 1] == ps[k];
    }
  }

  /** A domain that starts where the request ends stays exactly when the end calculator counts from its start. */
  lemma NextDomainStaysIff(ps: seq<Pointer>, startOffsetOf: Calculator, endOffsetOf: Calculator, tr: TimeRange, density: nat,
                           after: seq<Pointer>, k: nat)
    requires DomainIndex.Sorted(ps) && tr.Ordered() && k < |ps| && ps[k].length > 0
    requires tr.start < tr.end == ps[k].tr.start
    requires DeleteOutcome(ps, startOffsetOf, endOffsetOf, tr, density, Deleted, after)
    ensures ps[k] in after <==> CountsFromStart(endOffsetOf, ps[k], density)
  {
    DomainIndex.LastAtOrBeforeBounds(ps, tr.start);
    DomainIndex.LastAtOrBeforeBounds(ps, tr.end);
    var s, e := LookupStart(ps, startOffsetOf, tr.start, density), LookupEnd(ps, endOffsetOf, tr.end, density);
    var plan := Plan(s.ptr, e.ptr, s.offset, e.offset, s.stamp, e.stamp);
    var v := ValidateDelete(ps, s.pos, e.pos, s.offset, e.offset);
    EndStaysIff(ps, s.pos, k, plan, v.startOffset, v.endOffset);
  }

  /** The end domain of a splice stays exactly when all its bytes and all its time are kept. */
  lemma EndStaysIff(ps: seq<Pointer>, startPos: nat, k: nat, plan: Plan, so: nat, eo: nat)
    requires DomainIndex.Sorted(ps) && startPos <= k < |ps| && so < DomainIndex.TWO_32 && eo <= ps[k].length && ps[k].length > 0
    requires ps[startPos] == plan.start && ps[k] == plan.end && (startPos == k ==> so == 0)
    ensures ps[k] in Splice(ps, startPos, k, plan, so, eo) <==> eo == ps[k].length && plan.to == ps[k].tr.start
  {
    var r := Splice(ps, startPos, k, plan, so, eo);
    SplicePieces(ps, startPos, k, plan, so, eo);
    if eo == ps[k].length && plan.to == ps[k].tr.start {
      assert r[startPos + |Head(plan, so)|] == ps[k];
    }
  }

  /** A deletion leaves a domain inside a region it is away from exactly as it was, if its calculators count from the start. */
  lemma DeletionSparesIff(ps: seq<Pointer>, startOffsetOf: Calculator, endOffsetOf: Calculator, tr: TimeRange, density: nat,
                          after: seq<Pointer>, region: TimeRange, k: nat)
    requires DomainIndex.Sorted(ps) && tr.Ordered() && k < |ps| && ps[k].length > 0
    requires region.ContainsRange(ps[k].tr) && Away(region, tr)
    requires DeleteOutcome(ps, startOffsetOf, endOffsetOf, tr, density, Deleted, after)
    ensures ps[k] in after <==> (tr.end == ps[k].tr.start ==> CountsFromStart(endOffsetOf, ps[k], density))
  {
    if tr.end == ps[k].tr.start {
      NextDomainStaysIff(ps, startOffsetOf, endOffsetOf, tr, density, after, k);
    } else {
      FarDomainStays(ps, startOffsetOf, endOffsetOf, tr, density, after, k);
    }
  }

  // ----- When calculators count from the start -----

  /** The end calculator of a rate channel counts from the start of a domain exactly when that is a multiple of the period. */
  lemma RateCountsFromStartIff(p: Pointer, period: int, density: nat)
    requires period > 0 && density > 0
    ensures CountsFromStart(RateEnd(period), p, density) <==> Rem(p.tr.start, period) == 0
  {
    var s := p.tr.start;
    if Rem(s, period) != 0 {
      assert ClosestGE(s, period) - ClosestLE(s, period) == period;
      assert period / period == 1 && (-period) / period == -1;
    }
  }

  const BEFORE := DomainIndex.Pointer(TimeRange(0, 1), 1, 0, 1)
  const UNALIGNED := DomainIndex.Pointer(TimeRange(1, 5), 1, 1, 2)

  lemma RateCounts()
    ensures RateStartAt(2, 0, 0) == CalcOk(0, 0) && RateEndAt(2, 1, 1) == CalcOk(1, 2)
  {
    assert ClosestLE(0, 2) == 0 && ClosestGE(0, 2) == 0 && ClosestLE(1, 2) == 0 && ClosestGE(1, 2) == 2;
  }

  lemma RateBoundaries()
    ensures LookupStart([BEFORE, UNALIGNED], RateStart(2), 0, 1) == Boundary(0, BEFORE, 0, 0)
    ensures LookupEnd([BEFORE, UNALIGNED], RateEnd(2), 1, 1) == Boundary(1, UNALIGNED, 1, 2)
  {
    var ps := [BEFORE, UNALIGNED];
    assert ps[..1] == [BEFORE];
    assert DomainIndex.LastAtOrBefore(ps, 0) == 0 && DomainIndex.LastAtOrBefore(ps, 1) == 1;
    RateCounts();
  }

  /**
   With a period of two, deleting the time from 0 to 1 takes the first sample of a domain that starts at 1, from which its
   writer may hold a region on, as the gate lets a request that ends there through.
   */
  lemma RateCutsWriter()
    ensures DomainIndex.Sorted([BEFORE, UNALIGNED])
    ensures DeleteOutcome([BEFORE, UNALIGNED], RateStart(2), RateEnd(2), TimeRange(0, 1), 1, Deleted,
                          [DomainIndex.Pointer(TimeRange(2, 5), 1, 2, 1)])
  {
    RateBoundaries();
    RateSpliced();
  }

  lemma RateSpliced()
    ensures PlanOutcome([BEFORE, UNALIGNED], 0, 1, Plan(BEFORE, UNALIGNED, 0, 1, 0, 2), Deleted,
                        [DomainIndex.Pointer(TimeRange(2, 5), 1, 2, 1)])
  {
    var ps, plan := [BEFORE, UNALIGNED], Plan(BEFORE, UNALIGNED, 0, 1, 0, 2);
    assert ValidateDelete(ps, 0, 1, 0, 1) == Proceed(0, 1);
    assert Tail(plan, 1) == [DomainIndex.Pointer(TimeRange(2, 5), 1, 2, 1)];
    assert Splice(ps, 0, 1, plan, 0, 1) == [] + ([] + Tail(plan, 1)) + [];
  }

  // ----- The machine -----

  /** The regions held, the index, and for each region with a writer what its writer has committed last. */
  datatype Gated = Gated(regions: seq<Held>, ptrs: seq<Pointer>, writing: map<TimeRange, Pointer>)

  const EMPTY := Gated([], [], map[])

  datatype Step =
    | Control(a: Action)
    | Commit(i: nat, p: Pointer, at: nat)
    | Extend(i: nat, p: Pointer, at: nat)
    | Delete(tr: TimeRange, startOffsetOf: Calculator, endOffsetOf: Calculator, density: nat, r: DeleteResult)

  /** A gate controls a region with this range. */
  predicate Controlled(regions: seq<Held>, tr: TimeRange) {
    exists i | 0 <= i < |regions| :: regions[i].tr == tr && regions[i].region.curr.Some?
  }

  /** Writers go with the last gate of their region. */
  function StillWriting(writing: map<TimeRange, Pointer>, regions: seq<Held>): map<TimeRange, Pointer> {
    map tr | tr in writing && Controlled(regions, tr) :: writing[tr]
  }

  /** The regions once the gate of a deletion has been granted, opened and released again. */
  ghost predicate Granted(regions: seq<Held>, tr: TimeRange, regions': seq<Held>) {
    if Uncontested(regions, tr) then
      regions' == regions
    else
      exists i: nat :: FirstOverlap(regions, tr, i) && regions[i].region.curr.None? && !LaterOverlap(regions, tr, i)
                       && regions' == regions[..i] + regions[i + 1..]
  }

  /** The gate is opened and released as the controller's own actions do it. */
  lemma GrantIsOpenAndRelease(regions: seq<Held>, tr: TimeRange, regions': seq<Held>, id: GateId, subject: Subject)
    returns (mid: seq<Held>, i: nat)
    requires Inv(regions) && Granted(regions, tr, regions')
    ensures Controller.Next(regions, OpenAbsolute(tr, id, subject, 0), mid) && Inv(mid)
    ensures Controller.Next(mid, Release(i, id), regions')
  {
    mid, i := GrantOpens(regions, tr, regions', id, subject);
    Controller.StepKeeps(regions, OpenAbsolute(tr, id, subject, 0), mid);
    OnlyGateReleased(mid, i, id, regions');
  }

  lemma GrantOpens(regions: seq<Held>, tr: TimeRange, regions': seq<Held>, id: GateId, subject: Subject)
    returns (mid: seq<Held>, i: nat)
    requires Inv(regions) && Granted(regions, tr, regions')
    ensures Controller.Next(regions, OpenAbsolute(tr, id, subject, 0), mid)
    ensures i < |mid| && mid[i].region.gates.Keys == {id} && regions' == mid[..i] + mid[i + 1..]
  {
    if Uncontested(regions, tr) {
      var r := Opened(NewRegion(0), id, subject, ABSOLUTE);
      assert r.gates.Keys == {id};
      mid := Inserted(regions, tr, r);
      i := InsertedThenRemoved(regions, tr, r);
    } else {
      i :| FirstOverlap(regions, tr, i) && regions[i].region.curr.None? && regions' == regions[..i] + regions[i + 1..];
      mid := OpensEmpty(regions, i, id, subject);
      OpensOnOverlap(regions, tr, i, id, subject, mid);
    }
  }

  lemma OpensOnOverlap(regions: seq<Held>, tr: TimeRange, i: nat, id: GateId, subject: Subject, mid: seq<Held>)
    requires Inv(regions) && FirstOverlap(regions, tr, i) && OpenedAbsoluteAt(regions, i, id, subject, mid)
    ensures Controller.Next(regions, OpenAbsolute(tr, id, subject, 0), mid)
  {
  }

  lemma InsertedThenRemoved(regions: seq<Held>, tr: TimeRange, r: Region) returns (i: nat)
    ensures var mid := Inserted(regions, tr, r);
            i < |mid| && mid[i].region == r && mid[..i] + mid[i + 1..] == regions
  {
    i := Place(Ranges(regions), tr, 0, |regions|);
    var mid := Inserted(regions, tr, r);
    assert mid[..i] == regions[..i] && mid[i + 1..] == regions[i..];
  }

  /** A region nobody controls has no gates, and gets one. */
  lemma OpensEmpty(regions: seq<Held>, i: nat, id: GateId, subject: Subject) returns (mid: seq<Held>)
    requires Inv(regions) && i < |regions| && regions[i].region.curr.None?
    ensures OpenedAbsoluteAt(regions, i, id, subject, mid)
    ensures i < |mid| && mid[i].region.gates.Keys == {id} && mid[..i] + mid[i + 1..] == regions[..i] + regions[i + 1..]
  {
    var r := regions[i].region;
    assert Valid(r) && r.gates == map[];
    mid := regions[i := Held(regions[i].tr, Opened(r, id, subject, ABSOLUTE))];
  }

  lemma OnlyGateReleased(s: seq<Held>, i: nat, id: GateId, s': seq<Held>)
    requires Inv(s) && i < |s| && s[i].region.gates.Keys == {id} && s' == s[..i] + s[i + 1..]
    ensures Controller.Next(s, Release(i, id), s')
  {
    var r := s[i].region;
    var r', t := Without(r, id), Transfer(Some(StateOf(r, r.gates[id])), None);
    assert r'.gates == map[];
    assert ReleasedAt(s, i, id, r', t, s');
  }

  ghost predicate Next(s: Gated, step: Step, s': Gated)
    requires Inv(s.regions)
  {
    match step
    case Control(a) =>
      && Controller.Next(s.regions, a, s'.regions)
      && s' == Gated(s'.regions, s.ptrs, StillWriting(s.writing, s'.regions))
    // The first commit of a domain by the writer of region `i`, which may have OPEN a new file.
    case Commit(i, p, at) =>
      && i < |s.regions| && s.regions[i].region.curr.Some? && s.regions[i].tr.ContainsRange(p.tr)
      && p.tr.Proper() && p.length > 0 && DomainIndex.FitsAt(s.ptrs, at, p)
      && s' == s.(ptrs := DomainIndex.InsertAt(s.ptrs, at, p), writing := s.writing[s.regions[i].tr := p])
    // A later one.
    case Extend(i, p, at) =>
      && i < |s.regions| && s.regions[i].tr in s.writing && s.regions[i].tr.ContainsRange(p.tr)
      && p.tr.Proper() && DomainIndex.Became(s.writing[s.regions[i].tr], p) && DomainIndex.ReplacesAt(s.ptrs, at, p)
      && s' == s.(ptrs := s.ptrs[at := p], writing := s.writing[s.regions[i].tr := p])
    case Delete(tr, startOffsetOf, endOffsetOf, density, r) =>
      && tr.Valid() && Granted(s.regions, tr, s'.regions)
      && CalculatorsSound(s.ptrs, startOffsetOf, endOffsetOf, tr, density)
      && DeleteOutcome(s.ptrs, startOffsetOf, endOffsetOf, tr, density, r, s'.ptrs)
      && s' == Gated(s'.regions, s'.ptrs, StillWriting(s.writing, s'.regions))
  }

  /** No region held is long or has its bounds the wrong way round. */
  predicate AllOrdered(regions: seq<Held>) {
    forall i | 0 <= i < |regions| :: regions[i].tr.Ordered()
  }

  /** What a writer has committed last is in the index, inside the region its gate holds. */
  predicate Kept(s: Gated, tr: TimeRange)
    requires tr in s.writing
  {
    && Controlled(s.regions, tr) && tr.ContainsRange(s.writing[tr].tr)
    && s.writing[tr] in s.ptrs && s.writing[tr].length > 0
  }

  ghost predicate GatedInv(s: Gated) {
    Inv(s.regions) && DomainIndex.Sorted(s.ptrs) && forall tr | tr in s.writing :: Kept(s, tr)
  }

  lemma ControlKeeps(s: Gated, a: Action, s': Gated)
    requires GatedInv(s) && Next(s, Control(a), s')
    ensures GatedInv(s')
  {
    Controller.StepKeeps(s.regions, a, s'.regions);
    forall tr | tr in s'.writing
      ensures Kept(s', tr)
    {
      assert Kept(s, tr);
    }
  }

  lemma CommitKeeps(s: Gated, i: nat, p: Pointer, at: nat, s': Gated)
    requires GatedInv(s) && Next(s, Commit(i, p, at), s')
    ensures GatedInv(s')
  {
    DomainIndex.InsertSorted(s.ptrs, at, p);
    InsertMembers(s.ptrs, at, p);
    forall tr | tr in s'.writing
      ensures Kept(s', tr)
    {
      if tr != s.regions[i].tr {
        assert Kept(s, tr);
      }
    }
  }

  lemma InsertMembers(ps: seq<Pointer>, at: nat, p: Pointer)
    requires at <= |ps|
    ensures forall q :: q in DomainIndex.InsertAt(ps, at, p) <==> q in ps || q == p
  {
    assert ps == ps[..at] + ps[at..];
  }

  /** The ranges of two regions, neither long, do not meet. */
  lemma RegionsDisjoint(regions: seq<Held>, i: nat, j: nat)
    requires Inv(regions) && AllOrdered(regions) && i < |regions| && j < |regions| && i != j
    ensures regions[i].tr.end <= regions[j].tr.start || regions[j].tr.end <= regions[i].tr.start
  {
    var trs := Ranges(regions);
    assert trs[i] == regions[i].tr && trs[j] == regions[j].tr;
    assert if i < j then Clear(trs[i], trs[j]) else Clear(trs[j], trs[i]);
    OverlapMeaning(trs[i], trs[j]);
    OverlapMeaning(trs[j], trs[i]);
  }

  /** Writers of different regions have committed different domains. */
  lemma WritersApart(s: Gated, a: TimeRange, b: TimeRange)
    requires GatedInv(s) && AllOrdered(s.regions) && a in s.writing && b in s.writing && a != b
    ensures s.writing[a] != s.writing[b]
  {
    assert Kept(s, a) && Kept(s, b);
    var i :| 0 <= i < |s.regions| && s.regions[i].tr == a;
    var j :| 0 <= j < |s.regions| && s.regions[j].tr == b;
    RegionsDisjoint(s.regions, i, j);
  }

  lemma ExtendKeeps(s: Gated, i: nat, p: Pointer, at: nat, s': Gated)
    requires GatedInv(s) && AllOrdered(s.regions) && Next(s, Extend(i, p, at), s')
    ensures GatedInv(s')
  {
    var own := s.regions[i].tr;
    assert Kept(s, own);
    OnlyOneStart(s.ptrs, s.writing[own], at);
    DomainIndex.ReplaceSorted(s.ptrs, at, p);
    assert s'.ptrs[at] == p;
    forall tr | tr in s'.writing
      ensures Kept(s', tr)
    {
      if tr != own {
        assert Kept(s, tr);
        WritersApart(s, tr, own);
        var k :| 0 <= k < |s.ptrs| && s.ptrs[k] == s.writing[tr];
        assert s'.ptrs[k] == s.ptrs[k];
      }
    }
  }

  /** A granted deletion is away from every region that a gate controls. */
  lemma GrantedAway(regions: seq<Held>, tr: TimeRange, regions': seq<Held>, j: nat)
    requires AllOrdered(regions) && tr.Ordered() && Granted(regions, tr, regions')
    requires j < |regions| && regions[j].region.curr.Some?
    ensures Away(regions[j].tr, tr)
  {
    if !Uncontested(regions, tr) {
      var i: nat :| FirstOverlap(regions, tr, i) && regions[i].region.curr.None? && !LaterOverlap(regions, tr, i);
      assert j != i;
    }
    assert !regions[j].tr.OverlapsWith(tr);
    OverlapMeaning(regions[j].tr, tr);
  }

  lemma DeleteSorted(ps: seq<Pointer>, startOffsetOf: Calculator, endOffsetOf: Calculator, tr: TimeRange, density: nat,
                     r: DeleteResult, after: seq<Pointer>)
    requires DomainIndex.Sorted(ps) && tr.Ordered() && CalculatorsSound(ps, startOffsetOf, endOffsetOf, tr, density)
    requires DeleteOutcome(ps, startOffsetOf, endOffsetOf, tr, density, r, after)
    ensures DomainIndex.Sorted(after)
  {
    if r == Deleted {
      var s, e := LookupStart(ps, startOffsetOf, tr.start, density), LookupEnd(ps, endOffsetOf, tr.end, density);
      var plan := Plan(s.ptr, e.ptr, s.offset, e.offset, s.stamp, e.stamp);
      var v := ValidateDelete(ps, s.pos, e.pos, s.offset, e.offset);
      LookupsSound(ps, startOffsetOf, endOffsetOf, tr, density);
      ProceedIsApplicable(ps, s.pos, e.pos, plan);
      SpliceSorted(ps, s.pos, e.pos, plan, v.startOffset, v.endOffset);
    }
  }

  lemma GrantedKeeps(regions: seq<Held>, tr: TimeRange, regions': seq<Held>)
    requires Inv(regions) && Granted(regions, tr, regions')
    ensures Inv(regions')
  {
    if !Uncontested(regions, tr) {
      var i: nat :| FirstOverlap(regions, tr, i) && regions' == regions[..i] + regions[i + 1..];
      RemovedKeeps(regions, i);
    }
  }

  lemma OutcomeSorted(ps: seq<Pointer>, startOffsetOf: Calculator, endOffsetOf: Calculator, tr: TimeRange, density: nat,
                      r: DeleteResult, after: seq<Pointer>)
    requires DomainIndex.Sorted(ps) && tr.Valid() && CalculatorsSound(ps, startOffsetOf, endOffsetOf, tr, density)
    requires DeleteOutcome(ps, startOffsetOf, endOffsetOf, tr, density, r, after)
    ensures DomainIndex.Sorted(after)
  {
    ValidMeaning(tr);
    if Reversed(tr) {
      ReversedDeletesNothing(ps, startOffsetOf, endOffsetOf, tr, density, r, after);
    } else {
      DeleteSorted(ps, startOffsetOf, endOffsetOf, tr, density, r, after);
    }
  }

  /** A deletion leaves a domain as it was when it is inside a region the request, unless reversed, is away from. */
  lemma OutcomeSpares(ps: seq<Pointer>, startOffsetOf: Calculator, endOffsetOf: Calculator, tr: TimeRange, density: nat,
                      r: DeleteResult, after: seq<Pointer>, region: TimeRange, p: Pointer)
    requires DomainIndex.Sorted(ps) && CalculatorsSound(ps, startOffsetOf, endOffsetOf, tr, density)
    requires DeleteOutcome(ps, startOffsetOf, endOffsetOf, tr, density, r, after)
    requires Reversed(tr) || (tr.Ordered() && Away(region, tr))
    requires p in ps && p.length > 0 && region.ContainsRange(p.tr)
    ensures p in after
  {
    if Reversed(tr) {
      ReversedDeletesNothing(ps, startOffsetOf, endOffsetOf, tr, density, r, after);
    } else if r == Deleted {
      var k :| 0 <= k < |ps| && ps[k] == p;
      DeletionSparesIff(ps, startOffsetOf, endOffsetOf, tr, density, after, region, k);
    }
  }

  lemma DeleteKeeps(s: Gated, tr: TimeRange, startOffsetOf: Calculator, endOffsetOf: Calculator, density: nat, r: DeleteResult, s': Gated)
    requires GatedInv(s) && AllOrdered(s.regions) && Next(s, Delete(tr, startOffsetOf, endOffsetOf, density, r), s')
    ensures GatedInv(s')
  {
    OutcomeSorted(s.ptrs, startOffsetOf, endOffsetOf, tr, density, r, s'.ptrs);
    GrantedKeeps(s.regions, tr, s'.regions);
    ValidMeaning(tr);
    forall w | w in s'.writing
      ensures Kept(s', w)
    {
      assert Kept(s, w);
      var j :| 0 <= j < |s.regions| && s.regions[j].tr == w && s.regions[j].region.curr.Some?;
      if tr.Ordered() {
        GrantedAway(s.regions, tr, s'.regions, j);
      }
      OutcomeSpares(s.ptrs, startOffsetOf, endOffsetOf, tr, density, r, s'.ptrs, w, s.writing[w]);
    }
  }

  lemma GatedStepKeeps(s: Gated, step: Step, s': Gated)
    requires GatedInv(s) && AllOrdered(s.regions) && Next(s, step, s')
    ensures GatedInv(s')
  {
    match step
    case Control(a) => ControlKeeps(s, a, s');
    case Commit(i, p, at) => CommitKeeps(s, i, p, at, s');
    case Extend(i, p, at) => ExtendKeeps(s, i, p, at, s');
    case Delete(tr, startOffsetOf, endOffsetOf, density, r) => DeleteKeeps(s, tr, startOffsetOf, endOffsetOf, density, r, s');
  }

  // ----- Whole runs -----

  ghost predicate GatedStep(s: Gated, step: Step, s': Gated) {
    Inv(s.regions) && Next(s, step, s')
  }

  ghost predicate StepAt(run: seq<Gated>, steps: seq<Step>, i: nat)
    requires i < |steps| && |run| == |steps| + 1
  {
    GatedStep(run[i], steps[i], run[i + 1])
  }

  ghost predicate IsGatedRun(run: seq<Gated>, steps: seq<Step>) {
    && |run| == |steps| + 1 && run[0] == EMPTY
    && forall i | 0 <= i < |steps| :: StepAt(run, steps, i)
  }

  /** Before state `n`, no region was long. */
  predicate OrderedUntil(run: seq<Gated>, n: nat)
    requires n <= |run|
  {
    forall m | 0 <= m < n :: AllOrdered(run[m].regions)
  }

  lemma EmptyInv()
    ensures GatedInv(EMPTY)
  {
  }

  lemma RunStepKeeps(run: seq<Gated>, steps: seq<Step>, i: nat)
    requires IsGatedRun(run, steps) && i < |steps| && GatedInv(run[i]) && AllOrdered(run[i].regions)
    ensures GatedInv(run[i + 1])
  {
    assert StepAt(run, steps, i);
    GatedStepKeeps(run[i], steps[i], run[i + 1]);
  }

  /**
   In every state of every run whose regions are not long, what each open writer has committed last is in the index, as
   it was, however many deletions the gate has let through.
   */
  lemma {:induction false} WritersKeepTheirDomains(run: seq<Gated>, steps: seq<Step>, n: nat)
    requires IsGatedRun(run, steps) && n < |run| && OrderedUntil(run, n)
    ensures GatedInv(run[n])
  {
    if n == 0 {
      EmptyInv();
    } else {
      WritersKeepTheirDomains(run, steps, n - 1);
      RunStepKeeps(run, steps, n - 1);
    }
  }

  /**
   So a later commit finds the domain it extends: the one domain starting with it is what its writer has committed
   last, and the index does not start after it.
   */
  lemma LaterCommitFindsDomain(run: seq<Gated>, steps: seq<Step>, n: nat, w: TimeRange, p: Pointer)
    requires IsGatedRun(run, steps) && n < |run| && OrderedUntil(run, n)
    requires w in run[n].writing && DomainIndex.Became(run[n].writing[w], p)
    ensures var ptrs := run[n].ptrs;
            && ptrs != [] && ptrs[0].tr.start <= p.tr.start
            && (exists k | 0 <= k < |ptrs| :: ptrs[k] == run[n].writing[w])
            && (forall k | 0 <= k < |ptrs| && ptrs[k].tr.start == p.tr.start :: ptrs[k] == run[n].writing[w])
  {
    WritersKeepTheirDomains(run, steps, n);
    var s := run[n];
    assert Kept(s, w);
    forall k | 0 <= k < |s.ptrs| && s.ptrs[k].tr.start == p.tr.start
      ensures s.ptrs[k] == s.writing[w]
    {
      OnlyOneStart(s.ptrs, s.writing[w], k);
    }
  }

  // ----- A writer whose region is long -----

  const WRITER := Subject("writer", "")
  /** A writer that starts before the epoch and has no end holds a region longer than a 64-bit span can say. */
  const LONG := TimeRange(-1, 0x7FFF_FFFF_FFFF_FFFF)
  const WRITTEN := DomainIndex.Pointer(TimeRange(-1, 1), 1, 0, 2)

  const OPEN := Gated([OneGate(LONG, 0, WRITER)], [], map[])

  lemma LongOpens()
    ensures GatedStep(EMPTY, Control(Open(LONG, 0, WRITER, 1, 0)), OPEN)
  {
    var held := OneGate(LONG, 0, WRITER);
    assert Inserted([], LONG, held.region) == [held];
  }

  lemma LongWrites()
    ensures GatedStep(OPEN, Commit(0, WRITTEN, 0), Gated(OPEN.regions, [WRITTEN], map[LONG := WRITTEN]))
  {
    LongOpens();
    Controller.StepKeeps([], Open(LONG, 0, WRITER, 1, 0), OPEN.regions);
    assert DomainIndex.InsertAt([], 0, WRITTEN) == [WRITTEN];
  }

  /** The gate of a deletion that starts with the writer does not notice it. */
  lemma LongUnnoticed()
    ensures Uncontested([OneGate(LONG, 0, WRITER)], TimeRange(-1, 1))
  {
    GateMissesIff(LONG, TimeRange(-1, 1));
  }

  lemma WrittenDeleted()
    ensures CalculatorsSound([WRITTEN], SAMPLES, SAMPLES, TimeRange(-1, 1), 1)
    ensures DeleteOutcome([WRITTEN], SAMPLES, SAMPLES, TimeRange(-1, 1), 1, Deleted, [])
  {
    assert DomainIndex.LastAtOrBefore([WRITTEN], -1) == 0 && DomainIndex.LastAtOrBefore([WRITTEN], 1) == 0;
    assert Splice([WRITTEN], 0, 0, Plan(WRITTEN, WRITTEN, 0, 0, -1, 1), 0, 0) == [];
  }

  lemma LongStillWrites()
    ensures StillWriting(map[LONG := WRITTEN], OPEN.regions) == map[LONG := WRITTEN]
  {
    assert OPEN.regions[0].tr == LONG && OPEN.regions[0].region.curr.Some?;
  }

  /** The writer's domain is deleted. */
  lemma LongMissed()
    ensures GatedStep(Gated(OPEN.regions, [WRITTEN], map[LONG := WRITTEN]), Delete(TimeRange(-1, 1), SAMPLES, SAMPLES, 1, Deleted),
                      Gated(OPEN.regions, [], map[LONG := WRITTEN]))
  {
    LongWrites();
    LongUnnoticed();
    WrittenDeleted();
    ValidMeaning(TimeRange(-1, 1));
    LongStillWrites();
  }

  lemma GatedRunExtends(run: seq<Gated>, steps: seq<Step>, step: Step, s': Gated)
    requires IsGatedRun(run, steps) && GatedStep(run[|steps|], step, s')
    ensures IsGatedRun(run + [s'], steps + [step])
  {
    var run', steps' := run + [s'], steps + [step];
    forall i | 0 <= i < |steps'|
      ensures StepAt(run', steps', i)
    {
      if i < |steps| {
        assert StepAt(run, steps, i);
        assert run'[i] == run[i] && run'[i + 1] == run[i + 1] && steps'[i] == steps[i];
      }
    }
  }

  /** A run after which an open writer's domain is gone. */
  lemma WriterLosesDomain() returns (run: seq<Gated>, steps: seq<Step>)
    ensures IsGatedRun(run, steps)
    ensures run[|steps|].writing == map[LONG := WRITTEN] && run[|steps|].ptrs == []
  {
    LongOpens();
    LongWrites();
    LongMissed();
    var written, gone := Gated(OPEN.regions, [WRITTEN], map[LONG := WRITTEN]), Gated(OPEN.regions, [], map[LONG := WRITTEN]);
    run, steps := [EMPTY], [];
    GatedRunExtends(run, steps, Control(Open(LONG, 0, WRITER, 1, 0)), OPEN);
    run, steps := run + [OPEN], steps + [Control(Open(LONG, 0, WRITER, 1, 0))];
    GatedRunExtends(run, steps, Commit(0, WRITTEN, 0), written);
    run, steps := run + [written], steps + [Commit(0, WRITTEN, 0)];
    GatedRunExtends(run, steps, Delete(TimeRange(-1, 1), SAMPLES, SAMPLES, 1, Deleted), gone);
    run, steps := run + [gone], steps + [Delete(TimeRange(-1, 1), SAMPLES, SAMPLES, 1, Deleted)];
  }
}
