/**
 Deleting a time range from a domain store (cesium/internal/domain/delete.go:19-174, 381-425).

 A deletion is planned without holding the index lock: the two boundary domains are looked
 up and the caller's calculators turn stamps into byte offsets.  The plan is then carried
 out under the lock, after looking the two domains up again.
 */
module DomainDelete {
  import opened Telem
  import opened DomainIndex

  // ----- Planning -----

  /** Outcome of an offset calculator: a sample offset and the stamp snapped to a sample. */
  datatype Calc = CalcError | CalcOk(offset: int, at: Stamp)

  /** Takes the start of a domain and a stamp inside it. */
  type Calculator = (Stamp, Stamp) -> Calc

  /** Calculators for one sample of one byte per nanosecond. */
  const SAMPLES: Calculator := (start: Stamp, t: Stamp) => CalcOk(t - start, t)

  /** A planned deletion: from `startOffset` bytes into `start` to `endOffset` bytes before the end of `end`. */
  datatype Plan = Plan(start: Pointer, end: Pointer, startOffset: int, endOffset: int, from: Stamp, to: Stamp)

  datatype Lookup = Nothing | Failed | Boundary(pos: nat, ptr: Pointer, offset: int, stamp: Stamp)

  /** The first domain greater than or containing `t`, and where in it deletion starts. */
  function LookupStart(ps: seq<Pointer>, offsetOf: Calculator, t: Stamp, density: nat): Lookup {
    var i := LastAtOrBefore(ps, t);
    if i >= 0 && t < ps[i].tr.end then
      match offsetOf(ps[i].tr.start, t)
      case CalcError => Failed
      case CalcOk(offset, at) => Boundary(i, ps[i], offset * density, at)
    else if i + 1 == |ps| then
      Nothing
    else
      Boundary(i + 1, ps[i + 1], 0, ps[i + 1].tr.start)
  }

  /** The last domain less than or containing `t`, and how much of it survives. */
  function LookupEnd(ps: seq<Pointer>, offsetOf: Calculator, t: Stamp, density: nat): Lookup {
    var i := LastAtOrBefore(ps, t);
    if i >= 0 && t < ps[i].tr.end then
      match offsetOf(ps[i].tr.start, t)
      case CalcError => Failed
      case CalcOk(offset, at) => Boundary(i, ps[i], ps[i].length - offset * density, at)
    else if i == -1 then
      Nothing
    else
      Boundary(i, ps[i], 0, ps[i].tr.end)
  }

  /**
   What the store relies on from its start calculator: the snapped stamp is inside the domain, never later
   than asked, and past the start of the domain when samples are kept before it.
   */
  predicate StartCalculatorSound(offsetOf: Calculator, p: Pointer, t: Stamp, density: nat) {
    offsetOf(p.tr.start, t).CalcOk? ==>
      var r := offsetOf(p.tr.start, t);
      p.tr.start <= r.at <= t && (r.offset * density > 0 ==> p.tr.start < r.at)
  }

  /** Likewise for the end calculator: never earlier than asked, and before the end of the domain when samples are kept. */
  predicate EndCalculatorSound(offsetOf: Calculator, p: Pointer, t: Stamp, density: nat) {
    offsetOf(p.tr.start, t).CalcOk? ==>
      var r := offsetOf(p.tr.start, t);
      t <= r.at <= p.tr.end && (r.offset * density < p.length ==> r.at < p.tr.end)
  }

  /** Boundary stamps lie in the boundary domains, and kept bytes come with a non-empty time range. */
  predicate PlanSound(plan: Plan) {
    && plan.start.tr.start <= plan.from <= plan.start.tr.end
    && plan.end.tr.start <= plan.to <= plan.end.tr.end
    && (plan.startOffset > 0 ==> plan.start.tr.start < plan.from)
    && (plan.endOffset > 0 ==> plan.to < plan.end.tr.end)
    && (plan.start.tr == plan.end.tr ==> plan.from <= plan.to)
  }

  /** Sound calculators give sound plans, for every requested range whose bounds are in order. */
  lemma LookupsSound(ps: seq<Pointer>, startCalc: Calculator, endCalc: Calculator, tr: TimeRange, density: nat)
    requires Sorted(ps) && tr.start <= tr.end
    requires forall k | 0 <= k < |ps| && ps[k].tr.ContainsStamp(tr.start) :: StartCalculatorSound(startCalc, ps[k], tr.start, density)
    requires forall k | 0 <= k < |ps| && ps[k].tr.ContainsStamp(tr.end) :: EndCalculatorSound(endCalc, ps[k], tr.end, density)
    ensures var s, e := LookupStart(ps, startCalc, tr.start, density), LookupEnd(ps, endCalc, tr.end, density);
            s.Boundary? && e.Boundary? ==> PlanSound(Plan(s.ptr, e.ptr, s.offset, e.offset, s.stamp, e.stamp))
  {
    LastAtOrBeforeBounds(ps, tr.start);
    LastAtOrBeforeBounds(ps, tr.end);
  }

  // ----- Looking the boundary domains up again -----

  /** The position used for the saved start pointer when the lock is taken: after a miss, the next domain. */
  ghost predicate StartRelooksTo(ps: seq<Pointer>, saved: Pointer, oldPos: nat, pos: int)
    requires oldPos < |ps|
  {
    if ps[oldPos] == saved then
      pos == oldPos
    else
      exists i, exact :: Found(ps, saved.tr, i, exact) && pos == if exact then i else i + 1
  }

  /** Likewise for the saved end pointer: after a miss, the previous domain. */
  ghost predicate EndRelooksTo(ps: seq<Pointer>, saved: Pointer, oldPos: nat, pos: int)
    requires oldPos < |ps|
  {
    if ps[oldPos] == saved then pos == oldPos else exists exact :: Found(ps, saved.tr, pos, exact)
  }

  /** The domain that the saved start pointer has become is found wherever it is, and nothing else is. */
  lemma StartRelookupFinds(ps: seq<Pointer>, saved: Pointer, oldPos: nat, pos: int, k: nat)
    requires Sorted(ps) && k < |ps| && saved.tr.Proper() && ps[k].tr.ContainsRange(saved.tr)
    requires oldPos < |ps| && StartRelooksTo(ps, saved, oldPos, pos)
    ensures pos == k
  {
    if ps[oldPos] != saved {
      var i, exact :| Found(ps, saved.tr, i, exact) && pos == if exact then i else i + 1;
      SearchFindsOwner(ps, saved.tr, k, i, exact);
    }
  }

  /** So is that of the saved end pointer. */
  lemma EndRelookupFinds(ps: seq<Pointer>, saved: Pointer, oldPos: nat, pos: int, k: nat)
    requires Sorted(ps) && k < |ps| && saved.tr.Proper() && ps[k].tr.ContainsRange(saved.tr)
    requires oldPos < |ps| && EndRelooksTo(ps, saved, oldPos, pos)
    ensures pos == k
  {
    if ps[oldPos] != saved {
      var exact :| Found(ps, saved.tr, pos, exact);
      SearchFindsOwner(ps, saved.tr, k, pos, exact);
    }
  }

  /** `now` is `before` with pointers inserted and pointers extended in place. */
  predicate GrownFrom(before: seq<Pointer>, now: seq<Pointer>) {
    |before| <= |now| && forall i | 0 <= i < |before| :: exists k | 0 <= k < |now| :: Became(before[i], now[k])
  }

  /**
   Re-lookup is sound against concurrent commits: when pointers were only added or extended since the lookups, the
   positions used under the lock hold what the saved pointers have become, and the pointers themselves if they are
   still there.
   */
  lemma RelookupSound(before: seq<Pointer>, now: seq<Pointer>, s: nat, e: nat, startPos: int, endPos: int)
    requires Sorted(before) && Sorted(now) && GrownFrom(before, now)
    requires s < |before| && e < |before|
    requires StartRelooksTo(now, before[s], s, startPos) && EndRelooksTo(now, before[e], e, endPos)
    ensures 0 <= startPos < |now| && Became(before[s], now[startPos]) && (before[s] in now ==> now[startPos] == before[s])
    ensures 0 <= endPos < |now| && Became(before[e], now[endPos]) && (before[e] in now ==> now[endPos] == before[e])
  {
    var k :| 0 <= k < |now| && Became(before[s], now[k]);
    var l :| 0 <= l < |now| && Became(before[e], now[l]);
    StartRelookupFinds(now, before[s], s, startPos, k);
    EndRelookupFinds(now, before[e], e, endPos, l);
    if before[s] in now {
      OnlyOneStart(now, before[s], k);
    }
    if before[e] in now {
      OnlyOneStart(now, before[e], l);
    }
  }

  lemma OnlyOneStart(ps: seq<Pointer>, p: Pointer, k: nat)
    requires Sorted(ps) && k < |ps| && ps[k].tr.start == p.tr.start && p in ps
    ensures ps[k] == p
  {
  }

  // ----- Validation -----

  datatype Verdict = Skip | Reject | Proceed(startOffset: nat, endOffset: nat)

  function Distance(x: int, y: int): nat {
    if x < y then y - x else x - y
  }

  /** `r` is the number from zero to `hi` that is nearest to `x`. */
  ghost predicate Nearest(x: int, hi: nat, r: nat) {
    r <= hi && forall y: nat | y <= hi :: Distance(x, r) <= Distance(x, y)
  }

  function Clamp(x: int, hi: nat): (r: nat)
    ensures Nearest(x, hi, r)
  {
    if x < 0 then 0 else if x > hi then hi else x
  }

  /** `validateDelete`: clamps the offsets and decides whether there is anything to delete. */
  function ValidateDelete(ps: seq<Pointer>, startPos: nat, endPos: int, startOffset: int, endOffset: int): (v: Verdict)
    requires startPos <= |ps| && -1 <= endPos < |ps|
    ensures v.Proceed? ==>
              && startPos < |ps| && 0 <= endPos
              && Nearest(startOffset, ps[startPos].length, v.startOffset) && Nearest(endOffset, ps[endPos].length, v.endOffset)
              && (startPos <= endPos || (startPos == endPos + 1 && v.startOffset == 0 && v.endOffset == 0))
              && (startPos == endPos ==> v.startOffset + v.endOffset < ps[startPos].length)
  {
    if startPos == |ps| || endPos == -1 then
      Skip
    else
      var so := Clamp(startOffset, ps[startPos].length);
      var eo := Clamp(endOffset, ps[endPos].length);
      if startPos > endPos && !(startPos == endPos + 1 && so == 0 && eo == 0) then
        Reject
      else if startPos == endPos && so + eo > ps[startPos].length then
        Reject
      else if startPos == endPos - 1 && so == ps[endPos].length && eo == ps[endPos].length then
        Skip
      else if startPos == endPos && so + eo == ps[startPos].length then
        Skip
      else
        Proceed(so, eo)
  }

  /** Bytes the clamped request asks to remove. */
  function RequestedBytes(ps: seq<Pointer>, startPos: nat, endPos: int, so: nat, eo: nat): int
    requires startPos < |ps| && 0 <= endPos < |ps| && startPos <= endPos + 1
  {
    LiveBytes(ps[startPos..endPos + 1]) - so - eo
  }

  /** A request is refused exactly when its end lies before its start: it would keep more bytes than its span has. */
  lemma RejectMeansNegative(ps: seq<Pointer>, startPos: nat, endPos: int, startOffset: int, endOffset: int)
    requires startPos < |ps| && 0 <= endPos < |ps|
    ensures ValidateDelete(ps, startPos, endPos, startOffset, endOffset).Reject? <==>
            startPos > endPos + 1
            || RequestedBytes(ps, startPos, endPos, Clamp(startOffset, ps[startPos].length), Clamp(endOffset, ps[endPos].length)) < 0
  {
    if startPos <= endPos {
      var first, rest := ps[startPos..startPos + 1], ps[startPos + 1..endPos + 1];
      assert ps[startPos..endPos + 1] == first + rest;
      LiveBytesConcat(first, rest);
      if startPos < endPos {
        assert rest == ps[startPos + 1..endPos] + [ps[endPos]];
        LiveBytesConcat(ps[startPos + 1..endPos], [ps[endPos]]);
      }
    }
  }

  /**
   The no-op guards skip a request that removes nothing, except that the guard for adjacent domains compares the
   start offset with the length of the end domain: it drops a real deletion exactly when the two lengths differ.
   */
  lemma SkipLosesNothing(ps: seq<Pointer>, startPos: nat, endPos: int, startOffset: int, endOffset: int)
    requires startPos < |ps| && 0 <= endPos < |ps|
    requires ValidateDelete(ps, startPos, endPos, startOffset, endOffset).Skip?
    ensures startPos <= endPos
    ensures RequestedBytes(ps, startPos, endPos, Clamp(startOffset, ps[startPos].length), Clamp(endOffset, ps[endPos].length)) == 0
            <==> ps[startPos].length == ps[endPos].length
  {
    var span := ps[startPos..endPos + 1];
    if startPos == endPos {
      assert span == [ps[startPos]];
    } else {
      assert span == [ps[startPos]] + [ps[endPos]];
      LiveBytesConcat([ps[startPos]], [ps[endPos]]);
    }
  }

  // ----- The splice -----

  /** The surviving front of the start domain. */
  function Head(plan: Plan, so: nat): seq<Pointer>
    requires so < TWO_32
  {
    if so == 0 then [] else [Pointer(TimeRange(plan.start.tr.start, plan.from), plan.start.fileKey, plan.start.offset, so)]
  }

  /** The surviving back of the end domain. */
  function Tail(plan: Plan, eo: nat): seq<Pointer>
    requires eo < TWO_32
  {
    if eo == 0 then []
    else [Pointer(TimeRange(plan.to, plan.end.tr.end), plan.end.fileKey,
                  Wrap32(Wrap32(plan.end.offset + plan.end.length) - eo), eo)]
  }

  function Splice(ps: seq<Pointer>, startPos: nat, endPos: int, plan: Plan, so: nat, eo: nat): seq<Pointer>
    requires startPos <= |ps| && 0 <= endPos < |ps| && so < TWO_32 && eo < TWO_32
  {
    ps[..startPos] + (Head(plan, so) + Tail(plan, eo)) + ps[endPos + 1..]
  }

  /** The positions and offsets a splice is carried out with, once validated against the saved pointers. */
  predicate Applicable(ps: seq<Pointer>, startPos: nat, endPos: int, plan: Plan, so: nat, eo: nat) {
    && startPos < |ps| && 0 <= endPos < |ps|
    && ps[startPos] == plan.start && ps[endPos] == plan.end
    && so <= plan.start.length && eo <= plan.end.length
    && (startPos <= endPos || (startPos == endPos + 1 && so == 0 && eo == 0))
    && (startPos == endPos ==> so + eo <= plan.start.length)
    && PlanSound(plan.(startOffset := so, endOffset := eo))
  }

  lemma ProceedIsApplicable(ps: seq<Pointer>, startPos: nat, endPos: int, plan: Plan)
    requires Sorted(ps) && startPos < |ps| && 0 <= endPos < |ps|
    requires ps[startPos] == plan.start && ps[endPos] == plan.end && PlanSound(plan)
    ensures var v := ValidateDelete(ps, startPos, endPos, plan.startOffset, plan.endOffset);
            v.Proceed? ==> Applicable(ps, startPos, endPos, plan, v.startOffset, v.endOffset)
  {
  }

  /** The pieces left of the deleted span are proper, in order, and between their neighbours. */
  lemma PiecesSorted(ps: seq<Pointer>, startPos: nat, endPos: int, plan: Plan, so: nat, eo: nat)
    requires Sorted(ps) && Applicable(ps, startPos, endPos, plan, so, eo)
    ensures Sorted(Head(plan, so) + Tail(plan, eo))
    ensures Precedes(ps[..startPos], Head(plan, so) + Tail(plan, eo))
    ensures Precedes(Head(plan, so) + Tail(plan, eo), ps[endPos + 1..])
  {
  }

  lemma PrecedesConcat(a: seq<Pointer>, b: seq<Pointer>, c: seq<Pointer>)
    requires Precedes(a, c) && Precedes(b, c)
    ensures Precedes(a + b, c)
  {
  }

  /** A deletion keeps the index sorted, with proper and disjoint time ranges. */
  lemma SpliceSorted(ps: seq<Pointer>, startPos: nat, endPos: int, plan: Plan, so: nat, eo: nat)
    requires Sorted(ps) && Applicable(ps, startPos, endPos, plan, so, eo)
    ensures Sorted(Splice(ps, startPos, endPos, plan, so, eo))
  {
    var a, mid, b := ps[..startPos], Head(plan, so) + Tail(plan, eo), ps[endPos + 1..];
    PiecesSorted(ps, startPos, endPos, plan, so, eo);
    SlicesSorted(ps, startPos, endPos + 1);
    SortedConcat(a, mid);
    SortedConcat(mid, b);
    PrecedesConcat(a, mid, b);
    SortedConcat(a + mid, b);
  }

  /** Where the surviving back of a blob lies, although the source computes it in wrapping 32-bit arithmetic. */
  lemma TailOffset(plan: Plan, eo: nat)
    requires 0 < eo <= plan.end.length && plan.end.offset + plan.end.length <= TWO_32
    ensures Tail(plan, eo)[0].offset == plan.end.offset + plan.end.length - eo
  {
  }

  /** Every pointer after the deletion lies within one from before. */
  lemma SpliceWithin(ps: seq<Pointer>, files: Files, startPos: nat, endPos: int, plan: Plan, so: nat, eo: nat, i: nat)
    requires Stored(ps, files) && Applicable(ps, startPos, endPos, plan, so, eo)
    requires i < |Splice(ps, startPos, endPos, plan, so, eo)|
    ensures exists k | 0 <= k < |ps| :: Within(Splice(ps, startPos, endPos, plan, so, eo)[i], ps[k])
  {
  }

  /** A deletion keeps every blob in bounds and no two blobs sharing a byte. */
  lemma SpliceStored(ps: seq<Pointer>, files: Files, startPos: nat, endPos: int, plan: Plan, so: nat, eo: nat)
    requires Stored(ps, files) && Applicable(ps, startPos, endPos, plan, so, eo)
    ensures Stored(Splice(ps, startPos, endPos, plan, so, eo), files)
  {
    var r := Splice(ps, startPos, endPos, plan, so, eo);
    var a, mid, b := ps[..startPos], Head(plan, so) + Tail(plan, eo), ps[endPos + 1..];
    forall i | 0 <= i < |r|
      ensures InBounds(r[i], files)
    {
      SpliceWithin(ps, files, startPos, endPos, plan, so, eo, i);
    }
    if eo > 0 {
      TailOffset(plan, eo);
    }
    assert AllApart(mid);
    ApartConcat(a, mid);
    forall i, j | 0 <= i < |a + mid| && 0 <= j < |b|
      ensures Apart((a + mid)[i], b[j])
    {
      assert b[j] == ps[endPos + 1 + j];
      if i < |a| {
        assert (a + mid)[i] == ps[i];
      }
    }
    ApartConcat(a + mid, b);
  }

  // ----- Exactness -----

  /** The reader-level meaning of a deletion: outside domains stay, two boundary pieces survive, the rest goes. */
  function DeleteDomains(ds: seq<Domain>, startPos: nat, endPos: int, from: Stamp, to: Stamp, so: nat, eo: nat): seq<Domain>
    requires startPos < |ds| && 0 <= endPos < |ds| && so <= |ds[startPos].data| && eo <= |ds[endPos].data|
  {
    var s, e := ds[startPos], ds[endPos];
    ds[..startPos]
    + (if so == 0 then [] else [Domain(TimeRange(s.tr.start, from), s.data[..so])])
    + (if eo == 0 then [] else [Domain(TimeRange(to, e.tr.end), e.data[|e.data| - eo..])])
    + ds[endPos + 1..]
  }

  /** The surviving front reads the first bytes of the start blob. */
  lemma HeadReads(plan: Plan, files: Files, so: nat)
    requires InBounds(plan.start, files) && so <= plan.start.length
    ensures forall i | 0 <= i < |Head(plan, so)| :: InBounds(Head(plan, so)[i], files)
    ensures View(Head(plan, so), files)
            == if so == 0 then [] else [Domain(TimeRange(plan.start.tr.start, plan.from), Read(plan.start, files)[..so])]
  {
    if so > 0 {
      var file, o, n := files[plan.start.fileKey], plan.start.offset, plan.start.length;
      assert file[o..o + so] == file[o..o + n][..so];
      assert Read(Head(plan, so)[0], files) == Read(plan.start, files)[..so];
    }
  }

  /** The surviving back reads the last bytes of the end blob. */
  lemma TailReads(plan: Plan, files: Files, eo: nat)
    requires InBounds(plan.end, files) && |files[plan.end.fileKey]| <= TWO_32 && eo <= plan.end.length
    ensures forall i | 0 <= i < |Tail(plan, eo)| :: InBounds(Tail(plan, eo)[i], files)
    ensures View(Tail(plan, eo), files)
            == if eo == 0 then [] else [Domain(TimeRange(plan.to, plan.end.tr.end), Read(plan.end, files)[plan.end.length - eo..])]
  {
    if eo > 0 {
      TailOffset(plan, eo);
      var file, o, n := files[plan.end.fileKey], plan.end.offset, plan.end.length;
      assert file[o + n - eo..o + n] == file[o..o + n][n - eo..];
      assert Read(Tail(plan, eo)[0], files) == Read(plan.end, files)[plan.end.length - eo..];
    }
  }

  lemma DeleteDomainsByParts(ds: seq<Domain>, startPos: nat, endPos: int, plan: Plan, so: nat, eo: nat,
                             head: seq<Domain>, tail: seq<Domain>, first: seq<Byte>, last: seq<Byte>)
    requires startPos < |ds| && 0 <= endPos < |ds| && so <= |first| && eo <= |last|
    requires ds[startPos] == Domain(plan.start.tr, first) && ds[endPos] == Domain(plan.end.tr, last)
    requires head == if so == 0 then [] else [Domain(TimeRange(plan.start.tr.start, plan.from), first[..so])]
    requires tail == if eo == 0 then [] else [Domain(TimeRange(plan.to, plan.end.tr.end), last[|last| - eo..])]
    ensures DeleteDomains(ds, startPos, endPos, plan.from, plan.to, so, eo)
            == ds[..startPos] + head + tail + ds[endPos + 1..]
  {
  }

  /** What readers see after a splice, part by part. */
  lemma SpliceView(ps: seq<Pointer>, files: Files, startPos: nat, endPos: int, plan: Plan, so: nat, eo: nat)
    requires forall i | 0 <= i < |ps| :: InBounds(ps[i], files)
    requires startPos < |ps| && 0 <= endPos < |ps| && so < TWO_32 && eo < TWO_32
    requires forall i | 0 <= i < |Head(plan, so)| :: InBounds(Head(plan, so)[i], files)
    requires forall i | 0 <= i < |Tail(plan, eo)| :: InBounds(Tail(plan, eo)[i], files)
    ensures var r := Splice(ps, startPos, endPos, plan, so, eo);
            && (forall i | 0 <= i < |r| :: InBounds(r[i], files))
            && View(r, files) == View(ps, files)[..startPos] + View(Head(plan, so), files) + View(Tail(plan, eo), files)
                                 + View(ps, files)[endPos + 1..]
  {
  }

  /**
   A deletion is exact for readers: domains outside the span read as before, the start domain keeps its first `so`
   bytes, the end domain its last `eo` bytes, and nothing else of the span can be read.  No file is touched.
   */
  lemma SpliceExact(ps: seq<Pointer>, files: Files, startPos: nat, endPos: int, plan: Plan, so: nat, eo: nat)
    requires forall i | 0 <= i < |ps| :: InBounds(ps[i], files)
    requires forall k | k in files :: |files[k]| <= TWO_32
    requires startPos < |ps| && 0 <= endPos < |ps| && ps[startPos] == plan.start && ps[endPos] == plan.end
    requires so <= plan.start.length && eo <= plan.end.length
    ensures var r := Splice(ps, startPos, endPos, plan, so, eo);
            && (forall i | 0 <= i < |r| :: InBounds(r[i], files))
            && View(r, files) == DeleteDomains(View(ps, files), startPos, endPos, plan.from, plan.to, so, eo)
  {
    var head, tail := Head(plan, so), Tail(plan, eo);
    HeadReads(plan, files, so);
    TailReads(plan, files, eo);
    SpliceView(ps, files, startPos, endPos, plan, so, eo);
    DeleteDomainsByParts(View(ps, files), startPos, endPos, plan, so, eo, View(head, files), View(tail, files),
                         Read(plan.start, files), Read(plan.end, files));
  }

  /** The bytes of the index drop by the total of the span less what survives of its two ends. */
  lemma SpliceLiveBytes(ps: seq<Pointer>, startPos: nat, endPos: int, plan: Plan, so: nat, eo: nat)
    requires Applicable(ps, startPos, endPos, plan, so, eo)
    ensures LiveBytes(Splice(ps, startPos, endPos, plan, so, eo))
            == LiveBytes(ps) - RequestedBytes(ps, startPos, endPos, so, eo)
  {
    var a, span, b := ps[..startPos], ps[startPos..endPos + 1], ps[endPos + 1..];
    var head, tail := Head(plan, so), Tail(plan, eo);
    assert ps == a + span + b;
    LiveBytesConcat(a, span);
    LiveBytesConcat(a + span, b);
    LiveBytesConcat(head, tail);
    LiveBytesConcat(a, head + tail);
    LiveBytesConcat(a + (head + tail), b);
  }

  /** Some domain covers the instant `t`. */
  predicate Covered(ps: seq<Pointer>, t: Stamp) {
    exists i | 0 <= i < |ps| :: ps[i].tr.ContainsStamp(t)
  }

  /** The instants a deletion clears. */
  function ClearedRange(plan: Plan, so: nat, eo: nat): TimeRange {
    TimeRange(if so == 0 then plan.start.tr.start else plan.from, if eo == 0 then plan.end.tr.end else plan.to)
  }

  lemma CoveredConcat(a: seq<Pointer>, b: seq<Pointer>, t: Stamp)
    ensures Covered(a + b, t) <==> Covered(a, t) || Covered(b, t)
  {
    var c := a + b;
    assert forall i | 0 <= i < |a| :: c[i] == a[i];
    assert forall i | 0 <= i < |b| :: c[|a| + i] == b[i];
  }

  lemma CoveredByOne(ps: seq<Pointer>, t: Stamp)
    requires |ps| <= 1
    ensures Covered(ps, t) <==> |ps| == 1 && ps[0].tr.ContainsStamp(t)
  {
  }

  /** No domain outside the span covers a cleared instant. */
  lemma OutsideKept(ps: seq<Pointer>, startPos: nat, endPos: int, plan: Plan, so: nat, eo: nat, t: Stamp)
    requires Sorted(ps) && Applicable(ps, startPos, endPos, plan, so, eo)
    ensures Covered(ps[..startPos], t) || Covered(ps[endPos + 1..], t) ==> !ClearedRange(plan, so, eo).ContainsStamp(t)
  {
  }

  /** Within the span, the two surviving pieces cover what is not cleared. */
  lemma SpanCoverage(ps: seq<Pointer>, startPos: nat, endPos: int, plan: Plan, so: nat, eo: nat, t: Stamp)
    requires Sorted(ps) && Applicable(ps, startPos, endPos, plan, so, eo)
    ensures Covered(Head(plan, so), t) || Covered(Tail(plan, eo), t)
            <==> Covered(ps[startPos..endPos + 1], t) && !ClearedRange(plan, so, eo).ContainsStamp(t)
  {
    var span := ps[startPos..endPos + 1];
    if startPos <= endPos {
      assert span[0] == plan.start && span[endPos - startPos] == plan.end;
      CoveredByOne(Head(plan, so), t);
      CoveredByOne(Tail(plan, eo), t);
      if i :| 0 <= i < |span| && span[i].tr.ContainsStamp(t) {
        assert span[i] == ps[startPos + i];
        assert plan.start.tr.start <= t < plan.end.tr.end;
      }
    }
  }

  /** A deletion clears exactly the instants between its two surviving pieces. */
  lemma SpliceCoverage(ps: seq<Pointer>, startPos: nat, endPos: int, plan: Plan, so: nat, eo: nat, t: Stamp)
    requires Sorted(ps) && Applicable(ps, startPos, endPos, plan, so, eo)
    ensures Covered(Splice(ps, startPos, endPos, plan, so, eo), t)
            <==> Covered(ps, t) && !ClearedRange(plan, so, eo).ContainsStamp(t)
  {
    var a, span, b := ps[..startPos], ps[startPos..endPos + 1], ps[endPos + 1..];
    var head, tail := Head(plan, so), Tail(plan, eo);
    var cleared := ClearedRange(plan, so, eo);
    assert ps == a + span + b;
    CoveredConcat(a, span, t);
    CoveredConcat(a + span, b, t);
    CoveredConcat(head, tail, t);
    CoveredConcat(a, head + tail, t);
    CoveredConcat(a + (head + tail), b, t);
    OutsideKept(ps, startPos, endPos, plan, so, eo, t);
    SpanCoverage(ps, startPos, endPos, plan, so, eo, t);
  }

  // ----- End to end -----

  datatype DeleteResult = NoDelete | CalculationFailed | Rejected | Deleted

  /** What a deletion with nothing else changing the index may do. */
  predicate DeleteOutcome(ps: seq<Pointer>, startOffsetOf: Calculator, endOffsetOf: Calculator, tr: TimeRange, density: nat,
                          r: DeleteResult, after: seq<Pointer>)
  {
    var s, e := LookupStart(ps, startOffsetOf, tr.start, density), LookupEnd(ps, endOffsetOf, tr.end, density);
    if s.Failed? || (s.Boundary? && e.Failed?) then
      r == CalculationFailed && after == ps
    else if s.Nothing? || e.Nothing? then
      r == NoDelete && after == ps
    else
      PlanOutcome(ps, s.pos, e.pos, Plan(s.ptr, e.ptr, s.offset, e.offset, s.stamp, e.stamp), r, after)
  }

  /** What carrying out a plan whose boundary domains are at the given positions may do. */
  predicate PlanOutcome(ps: seq<Pointer>, startPos: nat, endPos: nat, plan: Plan, r: DeleteResult, after: seq<Pointer>)
    requires startPos < |ps| && endPos < |ps|
  {
    match ValidateDelete(ps, startPos, endPos, plan.startOffset, plan.endOffset)
    case Skip => r == NoDelete && after == ps
    case Reject => r == Rejected && after == ps
    case Proceed(so, eo) => r == Deleted && after == Splice(ps, startPos, endPos, plan, so, eo)
  }

  /** Nothing covered at or after the requested start lies before the start boundary. */
  lemma StartLookupCovers(ps: seq<Pointer>, offsetOf: Calculator, start: Stamp, density: nat, k: nat, t: Stamp)
    requires Sorted(ps) && k < |ps| && ps[k].tr.ContainsStamp(t) && start <= t
    requires forall k | 0 <= k < |ps| && ps[k].tr.ContainsStamp(start) :: StartCalculatorSound(offsetOf, ps[k], start, density)
    ensures var s := LookupStart(ps, offsetOf, start, density);
            s.Boundary? ==> s.ptr.tr.start <= t && s.stamp <= t
  {
    LastAtOrBeforeBounds(ps, start);
    var i := LastAtOrBefore(ps, start);
    if i + 1 < k {
      assert ps[i + 1].tr.end <= ps[k].tr.start;
    }
  }

  /** Nothing covered before the requested end lies after the end boundary. */
  lemma EndLookupCovers(ps: seq<Pointer>, offsetOf: Calculator, end: Stamp, density: nat, k: nat, t: Stamp)
    requires Sorted(ps) && k < |ps| && ps[k].tr.ContainsStamp(t) && t < end
    requires forall k | 0 <= k < |ps| && ps[k].tr.ContainsStamp(end) :: EndCalculatorSound(offsetOf, ps[k], end, density)
    ensures var e := LookupEnd(ps, offsetOf, end, density);
            e.Boundary? ==> t < e.ptr.tr.end && t < e.stamp
  {
    LastAtOrBeforeBounds(ps, end);
    var i := LastAtOrBefore(ps, end);
    if k < i {
      assert ps[k].tr.end <= ps[i].tr.start;
    }
  }

  /**
   A deletion that goes ahead leaves no instant of the requested range covered, and covers no instant
   that was not covered before.
   */
  lemma DeleteClearsRequest(ps: seq<Pointer>, startOffsetOf: Calculator, endOffsetOf: Calculator, tr: TimeRange, density: nat,
                            after: seq<Pointer>, t: Stamp)
    requires Sorted(ps) && tr.start <= tr.end
    requires forall k | 0 <= k < |ps| && ps[k].tr.ContainsStamp(tr.start) :: StartCalculatorSound(startOffsetOf, ps[k], tr.start, density)
    requires forall k | 0 <= k < |ps| && ps[k].tr.ContainsStamp(tr.end) :: EndCalculatorSound(endOffsetOf, ps[k], tr.end, density)
    requires DeleteOutcome(ps, startOffsetOf, endOffsetOf, tr, density, Deleted, after)
    ensures Covered(after, t) ==> Covered(ps, t) && !tr.ContainsStamp(t)
  {
    var s, e := LookupStart(ps, startOffsetOf, tr.start, density), LookupEnd(ps, endOffsetOf, tr.end, density);
    var plan := Plan(s.ptr, e.ptr, s.offset, e.offset, s.stamp, e.stamp);
    var v := ValidateDelete(ps, s.pos, e.pos, s.offset, e.offset);
    LookupsSound(ps, startOffsetOf, endOffsetOf, tr, density);
    ProceedIsApplicable(ps, s.pos, e.pos, plan);
    SpliceCoverage(ps, s.pos, e.pos, plan, v.startOffset, v.endOffset, t);
    if tr.ContainsStamp(t) && Covered(ps, t) {
      var k :| 0 <= k < |ps| && ps[k].tr.ContainsStamp(t);
      StartLookupCovers(ps, startOffsetOf, tr.start, density, k, t);
      EndLookupCovers(ps, endOffsetOf, tr.end, density, k, t);
    }
  }

  /** Before the requested start, only the domain containing it is cleared. */
  lemma StartLookupSpares(ps: seq<Pointer>, offsetOf: Calculator, start: Stamp, density: nat, k: nat, t: Stamp)
    requires Sorted(ps) && k < |ps| && ps[k].tr.ContainsStamp(t) && t < start
    ensures var s := LookupStart(ps, offsetOf, start, density);
            s.Boundary? && s.ptr.tr.start <= t ==> ps[k].tr.ContainsStamp(start)
  {
    LastAtOrBeforeBounds(ps, start);
    var i := LastAtOrBefore(ps, start);
    if 0 <= i && k < i {
      assert ps[k].tr.end <= ps[i].tr.start;
    }
  }

  /** From the requested end on, only the domain containing it is cleared. */
  lemma EndLookupSpares(ps: seq<Pointer>, offsetOf: Calculator, end: Stamp, density: nat, k: nat, t: Stamp)
    requires Sorted(ps) && k < |ps| && ps[k].tr.ContainsStamp(t) && end <= t
    ensures var e := LookupEnd(ps, offsetOf, end, density);
            e.Boundary? && t < e.ptr.tr.end ==> ps[k].tr.ContainsStamp(end)
  {
    LastAtOrBeforeBounds(ps, end);
    var i := LastAtOrBefore(ps, end);
    if i < k {
      assert 0 <= i ==> ps[i].tr.end <= ps[k].tr.start;
    }
  }

  /** A deletion that goes ahead clears nothing outside the requested range but in the domains its bounds fall in. */
  lemma DeleteSparesOthers(ps: seq<Pointer>, startOffsetOf: Calculator, endOffsetOf: Calculator, tr: TimeRange, density: nat,
                           after: seq<Pointer>, k: nat, t: Stamp)
    requires Sorted(ps) && tr.start <= tr.end && k < |ps| && ps[k].tr.ContainsStamp(t)
    requires forall k | 0 <= k < |ps| && ps[k].tr.ContainsStamp(tr.start) :: StartCalculatorSound(startOffsetOf, ps[k], tr.start, density)
    requires forall k | 0 <= k < |ps| && ps[k].tr.ContainsStamp(tr.end) :: EndCalculatorSound(endOffsetOf, ps[k], tr.end, density)
    requires DeleteOutcome(ps, startOffsetOf, endOffsetOf, tr, density, Deleted, after)
    ensures Covered(after, t) || tr.ContainsStamp(t) || ps[k].tr.ContainsStamp(tr.start) || ps[k].tr.ContainsStamp(tr.end)
  {
    var s, e := LookupStart(ps, startOffsetOf, tr.start, density), LookupEnd(ps, endOffsetOf, tr.end, density);
    var plan := Plan(s.ptr, e.ptr, s.offset, e.offset, s.stamp, e.stamp);
    var v := ValidateDelete(ps, s.pos, e.pos, s.offset, e.offset);
    LookupsSound(ps, startOffsetOf, endOffsetOf, tr, density);
    ProceedIsApplicable(ps, s.pos, e.pos, plan);
    SpliceCoverage(ps, s.pos, e.pos, plan, v.startOffset, v.endOffset, t);
    if t < tr.start {
      StartLookupSpares(ps, startOffsetOf, tr.start, density, k, t);
    } else if tr.end <= t {
      EndLookupSpares(ps, endOffsetOf, tr.end, density, k, t);
    }
  }

  /**
   A deletion the adjacent-domain guard wrongly drops: of two domains of 10 and 5 bytes that meet at 10, the time from
   5 to 10 should go.
   */
  lemma SkipDropsDeletion()
    ensures var ps := [Pointer(TimeRange(0, 10), 1, 0, 10), Pointer(TimeRange(10, 15), 1, 10, 5)];
            && Sorted(ps)
            && (forall k, t | 0 <= k < |ps| && ps[k].tr.ContainsStamp(t) ::
                  StartCalculatorSound(SAMPLES, ps[k], t, 1) && EndCalculatorSound(SAMPLES, ps[k], t, 1))
            && DeleteOutcome(ps, SAMPLES, SAMPLES, TimeRange(5, 10), 1, NoDelete, ps)
            && Covered(ps, 7)
  {
    var a, b := Pointer(TimeRange(0, 10), 1, 0, 10), Pointer(TimeRange(10, 15), 1, 10, 5);
    var ps := [a, b];
    assert ps[..1] == [a];
    assert LastAtOrBefore(ps, 5) == 0 && LastAtOrBefore(ps, 10) == 1;
    assert ps[0].tr.ContainsStamp(7);
  }

  // ----- A writer's next commit -----

  /** What a later commit of the writer of a domain names. */
  predicate CommitsMore(ps: seq<Pointer>, k: nat, p: Pointer) {
    k < |ps| && p.tr.Proper() && Became(ps[k], p) && ReplacesAt(ps, k, p)
  }

  /** The domain at `at` keeps its start: the first bytes of the start domain are kept, or all of the end domain's time. */
  predicate KeepsStart(startPos: nat, endPos: nat, plan: Plan, so: nat, eo: nat, at: nat) {
    if at == startPos && so > 0 then at < endPos || eo == 0
    else at == endPos && eo > 0 && plan.to == plan.end.tr.start
  }

  lemma CommitBetween(ps: seq<Pointer>, at: nat, p: Pointer)
    requires Sorted(ps) && CommitsMore(ps, at, p)
    ensures forall j | 0 <= j < at :: ps[j].tr.end <= p.tr.start
    ensures forall j | at < j < |ps| :: p.tr.end <= ps[j].tr.start
  {
    ReplaceSorted(ps, at, p);
    var r := ps[at := p];
    assert forall j | 0 <= j < |ps| && j != at :: r[j] == ps[j];
    assert r[at] == p;
  }

  /** The pieces of a splice, and the positions they have. */
  lemma SplicePieces(ps: seq<Pointer>, startPos: nat, endPos: nat, plan: Plan, so: nat, eo: nat)
    requires startPos <= endPos < |ps| && so < TWO_32 && eo < TWO_32
    ensures var r, head, tail := Splice(ps, startPos, endPos, plan, so, eo), Head(plan, so), Tail(plan, eo);
            var h, t := startPos, startPos + |head|;
            && |r| == t + |tail| + |ps| - endPos - 1
            && (forall i | 0 <= i < h :: r[i] == ps[i])
            && (so > 0 ==> r[h] == head[0]) && (eo > 0 ==> r[t] == tail[0])
            && (forall i | t + |tail| <= i < |r| :: r[i] == ps[i - t - |tail| + endPos + 1])
  {
  }

  /**
   A writer whose domain a deletion has touched finds, with its next commit, a domain to replace exactly when the
   deletion has left a piece starting with it and no other piece of it.
   */
  lemma NextCommitFindsIff(ps: seq<Pointer>, startPos: nat, endPos: nat, plan: Plan, so: nat, eo: nat, at: nat, p: Pointer)
    requires Sorted(ps) && Applicable(ps, startPos, endPos, plan, so, eo)
    requires startPos <= at <= endPos && CommitsMore(ps, at, p)
    ensures (exists k: nat :: ReplacesAt(Splice(ps, startPos, endPos, plan, so, eo), k, p))
            <==> KeepsStart(startPos, endPos, plan, so, eo, at)
  {
    CommitBetween(ps, at, p);
    SplicePieces(ps, startPos, endPos, plan, so, eo);
    if KeepsStart(startPos, endPos, plan, so, eo, at) {
      NextCommitFinds(ps, startPos, endPos, plan, so, eo, at, p);
    }
    if k: nat :| ReplacesAt(Splice(ps, startPos, endPos, plan, so, eo), k, p) {
      assert startPos <= k < startPos + |Head(plan, so)| + |Tail(plan, eo)|;
      if k == startPos && so > 0 && eo > 0 {
        OverlapMeaning(Tail(plan, eo)[0].tr, p.tr);
      }
    }
  }

  lemma NextCommitFinds(ps: seq<Pointer>, startPos: nat, endPos: nat, plan: Plan, so: nat, eo: nat, at: nat, p: Pointer)
    requires Sorted(ps) && Applicable(ps, startPos, endPos, plan, so, eo)
    requires startPos <= at <= endPos && CommitsMore(ps, at, p) && KeepsStart(startPos, endPos, plan, so, eo, at)
    ensures exists k: nat :: ReplacesAt(Splice(ps, startPos, endPos, plan, so, eo), k, p)
  {
    var r := Splice(ps, startPos, endPos, plan, so, eo);
    var k := if at == startPos && so > 0 then startPos else startPos + |Head(plan, so)|;
    CommitBetween(ps, at, p);
    SplicePieces(ps, startPos, endPos, plan, so, eo);
    SpliceSorted(ps, startPos, endPos, plan, so, eo);
    assert r[k].tr.start == p.tr.start;
    if k > 0 {
      OverlapMeaning(r[k - 1].tr, p.tr);
    }
    if k + 1 < |r| {
      OverlapMeaning(r[k + 1].tr, p.tr);
    }
    assert ReplacesAt(r, k, p);
  }

  // ----- An extension or a collection between planning and splicing -----

  /**
   The splice ends its last piece where the saved end domain ended.  When that domain was extended meanwhile, the
   deletion clears the whole extension, although it lies past everything the plan covers.
   */
  lemma ExtensionLost(ps: seq<Pointer>, startPos: nat, endPos: nat, plan: Plan, so: nat, eo: nat, t: Stamp)
    requires Sorted(ps) && startPos <= endPos < |ps| && so < TWO_32 && eo < TWO_32
    requires Became(plan.start, ps[startPos]) && Became(plan.end, ps[endPos])
    requires plan.from <= plan.end.tr.end && plan.end.tr.Proper() && plan.end.tr.end <= t < ps[endPos].tr.end
    ensures Covered(ps, t) && !Covered(Splice(ps, startPos, endPos, plan, so, eo), t)
  {
    var a, head, tail, b := ps[..startPos], Head(plan, so), Tail(plan, eo), ps[endPos + 1..];
    assert ps[endPos].tr.ContainsStamp(t) && (startPos < endPos ==> ps[startPos].tr.end <= ps[endPos].tr.start);
    CoveredConcat(head, tail, t);
    CoveredConcat(a, head + tail, t);
    CoveredConcat(a + (head + tail), b, t);
    assert forall i | 0 <= i < |b| :: b[i] == ps[endPos + 1 + i];
  }

  /** What is covered past the saved end of the end domain stays covered exactly when that domain was not extended. */
  lemma ExtensionKeptIff(ps: seq<Pointer>, startPos: nat, endPos: nat, plan: Plan, so: nat, eo: nat)
    requires Sorted(ps) && startPos <= endPos < |ps| && so < TWO_32 && eo < TWO_32
    requires Became(plan.start, ps[startPos]) && Became(plan.end, ps[endPos])
    requires plan.from <= plan.end.tr.end && plan.end.tr.Proper()
    ensures (forall t | plan.end.tr.end <= t && Covered(ps, t) :: Covered(Splice(ps, startPos, endPos, plan, so, eo), t))
            <==> ps[endPos].tr.end == plan.end.tr.end
  {
    var r, b := Splice(ps, startPos, endPos, plan, so, eo), ps[endPos + 1..];
    if ps[endPos].tr.end == plan.end.tr.end {
      forall t | plan.end.tr.end <= t && Covered(ps, t)
        ensures Covered(r, t)
      {
        var i :| 0 <= i < |ps| && ps[i].tr.ContainsStamp(t);
        assert i > endPos;
        assert b[i - endPos - 1].tr.ContainsStamp(t);
        CoveredConcat(ps[..startPos] + (Head(plan, so) + Tail(plan, eo)), b, t);
      }
    } else {
      ExtensionLost(ps, startPos, endPos, plan, so, eo, plan.end.tr.end);
    }
  }

  /**
   The splice copies the offsets saved at planning time.  When the boundary domains were relocated meanwhile, the
   re-lookup still finds their positions; the surviving pieces then name the blobs the index now holds exactly when
   each boundary whose bytes survive has kept its file and offset.
   */
  lemma StaleSplice(ps: seq<Pointer>, startPos: nat, endPos: int, plan: Plan, so: nat, eo: nat)
    requires startPos < |ps| && 0 <= endPos < |ps|
    requires ps[startPos].tr == plan.start.tr && ps[startPos].length == plan.start.length
    requires ps[endPos].tr == plan.end.tr && ps[endPos].length == plan.end.length
    requires so < TWO_32 && eo < TWO_32
    ensures Splice(ps, startPos, endPos, plan, so, eo)
            == Splice(ps, startPos, endPos, plan.(start := ps[startPos], end := ps[endPos]), so, eo)
            <==> (so > 0 ==> ps[startPos].fileKey == plan.start.fileKey && ps[startPos].offset == plan.start.offset)
                 && (eo > 0 ==> ps[endPos].fileKey == plan.end.fileKey && ps[endPos].offset == plan.end.offset)
  {
    var current := plan.(start := ps[startPos], end := ps[endPos]);
    var r, f := Splice(ps, startPos, endPos, plan, so, eo), Splice(ps, startPos, endPos, current, so, eo);
    if so > 0 {
      assert r[startPos] == Head(plan, so)[0] && f[startPos] == Head(current, so)[0];
    }
    if eo > 0 {
      var t := startPos + |Head(plan, so)|;
      assert r[t] == Tail(plan, eo)[0] && f[t] == Tail(current, eo)[0];
    }
  }
}
