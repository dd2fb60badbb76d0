/**
 What a deletion means for the samples of a channel: a domain holds `density` bytes for each sample in its time range,
 and the calculators a deletion is given (cesium/internal/unary/delete.go:113-214) count the samples of a domain before
 a stamp.
 */
module DomainSamples {
  import opened Telem
  import opened DomainIndex
  import opened DomainDelete

  /** The stamps at which the channel has a sample. */
  type Samples = Stamp -> bool

  function Between(has: Samples, a: Stamp, b: Stamp): set<Stamp> {
    set t: Stamp | a <= t < b && has(t)
  }

  /** How many samples there are from `a` up to, and not including, `b`. */
  function Count(has: Samples, a: Stamp, b: Stamp): nat {
    |Between(has, a, b)|
  }

  lemma CountSplit(has: Samples, a: Stamp, b: Stamp, c: Stamp)
    requires a <= b <= c
    ensures Count(has, a, c) == Count(has, a, b) + Count(has, b, c)
  {
    assert Between(has, a, c) == Between(has, a, b) + Between(has, b, c);
    assert Between(has, a, b) !! Between(has, b, c);
  }

  lemma CountOne(has: Samples, a: Stamp, t: Stamp, b: Stamp)
    requires a <= t < b && has(t)
    ensures Count(has, a, t) < Count(has, a, b)
  {
    CountSplit(has, a, t, b);
    assert t in Between(has, t, b);
  }

  lemma CountNone(has: Samples, a: Stamp, b: Stamp, t: Stamp)
    requires Count(has, a, b) == 0 && a <= t < b
    ensures !has(t)
  {
    assert t !in Between(has, a, b);
  }

  // ----- Calculators that count -----

  /** The start calculator counts the samples before `t`, and snaps to a stamp no earlier than the last of them. */
  predicate CountsToStart(offsetOf: Calculator, has: Samples, p: Pointer, t: Stamp) {
    offsetOf(p.tr.start, t).CalcOk? ==>
      var r := offsetOf(p.tr.start, t);
      p.tr.start <= r.at <= t && r.offset == Count(has, p.tr.start, t) && Count(has, r.at, t) == 0
  }

  /** The end calculator counts them too, and snaps to a stamp no later than the next sample. */
  predicate CountsToEnd(offsetOf: Calculator, has: Samples, p: Pointer, t: Stamp) {
    offsetOf(p.tr.start, t).CalcOk? ==>
      var r := offsetOf(p.tr.start, t);
      t <= r.at <= p.tr.end && r.offset == Count(has, p.tr.start, t) && Count(has, t, r.at) == 0
  }

  predicate Counting(ps: seq<Pointer>, startOffsetOf: Calculator, endOffsetOf: Calculator, has: Samples, tr: TimeRange) {
    && (forall k | 0 <= k < |ps| && ps[k].tr.ContainsStamp(tr.start) :: CountsToStart(startOffsetOf, has, ps[k], tr.start))
    && (forall k | 0 <= k < |ps| && ps[k].tr.ContainsStamp(tr.end) :: CountsToEnd(endOffsetOf, has, ps[k], tr.end))
  }

  /** A pointer names `density` bytes for each sample in its range. */
  predicate HoldsSamples(p: Pointer, has: Samples, density: nat) {
    p.length == density * Count(has, p.tr.start, p.tr.end)
  }

  predicate Measured(ps: seq<Pointer>, has: Samples, density: nat) {
    forall i | 0 <= i < |ps| :: HoldsSamples(ps[i], has, density)
  }

  lemma Scaled(density: nat, a: nat, b: nat)
    ensures density * (a + b) == density * a + density * b
    ensures density * a >= 0
    ensures density > 0 && a > 0 ==> density * a > 0
    ensures a > 0 ==> density * a >= density
  {
    if density > 0 && a > 0 {
      assert density * (a - 1) >= 0;
    }
  }

  lemma CountingStartSound(offsetOf: Calculator, has: Samples, p: Pointer, t: Stamp, density: nat)
    requires CountsToStart(offsetOf, has, p, t)
    ensures StartCalculatorSound(offsetOf, p, t, density)
  {
    var r := offsetOf(p.tr.start, t);
    if r.CalcOk? && r.at == p.tr.start {
      assert r.offset == 0;
    }
  }

  lemma CountingEndSound(offsetOf: Calculator, has: Samples, p: Pointer, t: Stamp, density: nat)
    requires CountsToEnd(offsetOf, has, p, t) && p.tr.ContainsStamp(t) && HoldsSamples(p, has, density)
    ensures EndCalculatorSound(offsetOf, p, t, density)
  {
    var r := offsetOf(p.tr.start, t);
    if r.CalcOk? {
      CountSplit(has, p.tr.start, t, p.tr.end);
      if r.at == p.tr.end {
        assert r.offset == Count(has, p.tr.start, p.tr.end);
      }
    }
  }

  /** Calculators that count are sound. */
  lemma CountingSound(ps: seq<Pointer>, startOffsetOf: Calculator, endOffsetOf: Calculator, has: Samples, tr: TimeRange, density: nat)
    requires Measured(ps, has, density) && Counting(ps, startOffsetOf, endOffsetOf, has, tr)
    ensures forall k | 0 <= k < |ps| && ps[k].tr.ContainsStamp(tr.start) :: StartCalculatorSound(startOffsetOf, ps[k], tr.start, density)
    ensures forall k | 0 <= k < |ps| && ps[k].tr.ContainsStamp(tr.end) :: EndCalculatorSound(endOffsetOf, ps[k], tr.end, density)
  {
    forall k | 0 <= k < |ps| && ps[k].tr.ContainsStamp(tr.start)
      ensures StartCalculatorSound(startOffsetOf, ps[k], tr.start, density)
    {
      CountingStartSound(startOffsetOf, has, ps[k], tr.start, density);
    }
    forall k | 0 <= k < |ps| && ps[k].tr.ContainsStamp(tr.end)
      ensures EndCalculatorSound(endOffsetOf, ps[k], tr.end, density)
    {
      CountingEndSound(endOffsetOf, has, ps[k], tr.end, density);
    }
  }

  // ----- What is kept of the boundary domains -----

  /** The bytes kept are those of the samples before `from` and from `to` on, and the request has no sample outside them. */
  predicate PlanMeasured(plan: Plan, tr: TimeRange, has: Samples, density: nat) {
    && plan.start.tr.start <= plan.from <= plan.start.tr.end && plan.end.tr.start <= plan.to <= plan.end.tr.end
    && plan.startOffset == density * Count(has, plan.start.tr.start, plan.from)
    && plan.endOffset == density * Count(has, plan.to, plan.end.tr.end)
    && Count(has, plan.from, tr.start) == 0 && Count(has, tr.end, plan.to) == 0
    && (plan.from <= tr.start || plan.from == plan.start.tr.start) && (tr.end <= plan.to || plan.to == plan.end.tr.end)
  }

  lemma StartMeasured(ps: seq<Pointer>, offsetOf: Calculator, has: Samples, t: Stamp, density: nat)
    requires Sorted(ps) && Measured(ps, has, density)
    requires forall k | 0 <= k < |ps| && ps[k].tr.ContainsStamp(t) :: CountsToStart(offsetOf, has, ps[k], t)
    ensures var s := LookupStart(ps, offsetOf, t, density);
            s.Boundary? ==>
              && s.pos < |ps| && s.ptr == ps[s.pos] && s.ptr.tr.start <= s.stamp <= s.ptr.tr.end
              && s.offset == density * Count(has, s.ptr.tr.start, s.stamp) && Count(has, s.stamp, t) == 0
              && (s.stamp <= t || s.stamp == s.ptr.tr.start)
  {
    LastAtOrBeforeBounds(ps, t);
    var s := LookupStart(ps, offsetOf, t, density);
    if s.Boundary? && s.ptr.tr.start <= t {
      CountSplit(has, s.ptr.tr.start, s.stamp, t);
    }
  }

  lemma EndMeasured(ps: seq<Pointer>, offsetOf: Calculator, has: Samples, t: Stamp, density: nat)
    requires Sorted(ps) && Measured(ps, has, density)
    requires forall k | 0 <= k < |ps| && ps[k].tr.ContainsStamp(t) :: CountsToEnd(offsetOf, has, ps[k], t)
    ensures var e := LookupEnd(ps, offsetOf, t, density);
            e.Boundary? ==>
              && e.pos < |ps| && e.ptr == ps[e.pos] && e.ptr.tr.start <= e.stamp <= e.ptr.tr.end
              && e.offset == density * Count(has, e.stamp, e.ptr.tr.end) && Count(has, t, e.stamp) == 0
              && (t <= e.stamp || e.stamp == e.ptr.tr.end)
  {
    LastAtOrBeforeBounds(ps, t);
    var e := LookupEnd(ps, offsetOf, t, density);
    if e.Boundary? && t < e.ptr.tr.end {
      var p := e.ptr;
      assert HoldsSamples(p, has, density);
      CountSplit(has, p.tr.start, t, e.stamp);
      CountSplit(has, p.tr.start, e.stamp, p.tr.end);
      Scaled(density, Count(has, p.tr.start, e.stamp), Count(has, e.stamp, p.tr.end));
    }
  }

  /** The offsets of such a plan lie within their blobs, so that validation leaves them alone. */
  lemma MeasuredInRange(p: Pointer, a: Stamp, b: Stamp, has: Samples, density: nat)
    requires HoldsSamples(p, has, density) && p.tr.start <= a <= b <= p.tr.end
    ensures density * Count(has, a, b) <= p.length
  {
    CountSplit(has, p.tr.start, a, p.tr.end);
    CountSplit(has, a, b, p.tr.end);
    Scaled(density, Count(has, p.tr.start, a), Count(has, a, p.tr.end));
    Scaled(density, Count(has, a, b), Count(has, b, p.tr.end));
  }

  /** What a completed deletion of a measured index did. */
  ghost predicate CutAt(ps: seq<Pointer>, tr: TimeRange, has: Samples, density: nat, after: seq<Pointer>,
                        startPos: nat, endPos: nat, plan: Plan)
  {
    && startPos < |ps| && endPos < |ps| && plan.start == ps[startPos] && plan.end == ps[endPos]
    && 0 <= plan.startOffset <= plan.start.length && 0 <= plan.endOffset <= plan.end.length
    && PlanMeasured(plan, tr, has, density)
    && after == Splice(ps, startPos, endPos, plan, plan.startOffset, plan.endOffset)
  }

  lemma InRangeKept(ps: seq<Pointer>, startPos: nat, endPos: nat, so: nat, eo: nat)
    requires startPos < |ps| && endPos < |ps| && so <= ps[startPos].length && eo <= ps[endPos].length
    ensures var v := ValidateDelete(ps, startPos, endPos, so, eo); v.Proceed? ==> v == Proceed(so, eo)
  {
  }

  /** The plan of a request, from calculators that count. */
  lemma Planned(ps: seq<Pointer>, startOffsetOf: Calculator, endOffsetOf: Calculator, tr: TimeRange, has: Samples, density: nat)
    requires Sorted(ps) && Measured(ps, has, density) && Counting(ps, startOffsetOf, endOffsetOf, has, tr)
    ensures var s, e := LookupStart(ps, startOffsetOf, tr.start, density), LookupEnd(ps, endOffsetOf, tr.end, density);
            s.Boundary? && e.Boundary? ==>
              var plan := Plan(s.ptr, e.ptr, s.offset, e.offset, s.stamp, e.stamp);
              && s.pos < |ps| && e.pos < |ps| && plan.start == ps[s.pos] && plan.end == ps[e.pos]
              && 0 <= s.offset <= s.ptr.length && 0 <= e.offset <= e.ptr.length && PlanMeasured(plan, tr, has, density)
  {
    var s, e := LookupStart(ps, startOffsetOf, tr.start, density), LookupEnd(ps, endOffsetOf, tr.end, density);
    StartMeasured(ps, startOffsetOf, has, tr.start, density);
    EndMeasured(ps, endOffsetOf, has, tr.end, density);
    if s.Boundary? && e.Boundary? {
      assert HoldsSamples(ps[s.pos], has, density) && HoldsSamples(ps[e.pos], has, density);
      MeasuredInRange(s.ptr, s.ptr.tr.start, s.stamp, has, density);
      MeasuredInRange(e.ptr, e.stamp, e.ptr.tr.end, has, density);
      Scaled(density, Count(has, s.ptr.tr.start, s.stamp), 0);
      Scaled(density, Count(has, e.stamp, e.ptr.tr.end), 0);
    }
  }

  lemma DeletedCuts(ps: seq<Pointer>, startOffsetOf: Calculator, endOffsetOf: Calculator, tr: TimeRange, has: Samples, density: nat,
                    after: seq<Pointer>) returns (startPos: nat, endPos: nat, plan: Plan)
    requires Sorted(ps) && Measured(ps, has, density) && Counting(ps, startOffsetOf, endOffsetOf, has, tr)
    requires DeleteOutcome(ps, startOffsetOf, endOffsetOf, tr, density, Deleted, after)
    ensures CutAt(ps, tr, has, density, after, startPos, endPos, plan)
    ensures LookupStart(ps, startOffsetOf, tr.start, density) == Boundary(startPos, plan.start, plan.startOffset, plan.from)
    ensures LookupEnd(ps, endOffsetOf, tr.end, density) == Boundary(endPos, plan.end, plan.endOffset, plan.to)
  {
    var s, e := LookupStart(ps, startOffsetOf, tr.start, density), LookupEnd(ps, endOffsetOf, tr.end, density);
    startPos, endPos, plan := s.pos, e.pos, Plan(s.ptr, e.ptr, s.offset, e.offset, s.stamp, e.stamp);
    Planned(ps, startOffsetOf, endOffsetOf, tr, has, density);
    InRangeKept(ps, startPos, endPos, s.offset, e.offset);
  }

  lemma MeasuredConcat(a: seq<Pointer>, b: seq<Pointer>, has: Samples, density: nat)
    requires Measured(a, has, density) && Measured(b, has, density)
    ensures Measured(a + b, has, density)
  {
  }

  /** A deletion leaves every domain with exactly the bytes of the samples in its range. */
  lemma DeleteKeepsMeasure(ps: seq<Pointer>, startOffsetOf: Calculator, endOffsetOf: Calculator, tr: TimeRange, has: Samples,
                           density: nat, r: DeleteResult, after: seq<Pointer>)
    requires Sorted(ps) && Measured(ps, has, density) && Counting(ps, startOffsetOf, endOffsetOf, has, tr)
    requires DeleteOutcome(ps, startOffsetOf, endOffsetOf, tr, density, r, after)
    ensures Measured(after, has, density)
  {
    if r == Deleted {
      var startPos, endPos, plan := DeletedCuts(ps, startOffsetOf, endOffsetOf, tr, has, density, after);
      var head, tail := Head(plan, plan.startOffset), Tail(plan, plan.endOffset);
      MeasuredConcat(head, tail, has, density);
      MeasuredConcat(ps[..startPos], head + tail, has, density);
      MeasuredConcat(ps[..startPos] + (head + tail), ps[endPos + 1..], has, density);
    }
  }

  // ----- What readers see of each sample -----

  function Chunk(data: seq<Byte>, o: int, n: nat): seq<Byte> {
    if 0 <= o && o + n <= |data| then data[o..o + n] else []
  }

  /** The bytes of the sample at `t` in a domain. */
  function SampleBytes(d: Domain, has: Samples, density: nat, t: Stamp): seq<Byte> {
    Chunk(d.data, density * Count(has, d.tr.start, t), density)
  }

  lemma ChunkOfFront(data: seq<Byte>, so: nat, o: nat, n: nat)
    requires o + n <= so <= |data|
    ensures Chunk(data[..so], o, n) == Chunk(data, o, n)
  {
  }

  lemma ChunkOfBack(data: seq<Byte>, cut: nat, o: nat, n: nat)
    requires cut <= |data|
    ensures Chunk(data[cut..], o, n) == Chunk(data, cut + o, n)
  {
  }

  /** The domain has a sample at `t` with the bytes `v`. */
  predicate ShowsIn(d: Domain, has: Samples, density: nat, t: Stamp, v: seq<Byte>) {
    has(t) && d.tr.ContainsStamp(t) && SampleBytes(d, has, density, t) == v
  }

  /** Readers see a sample at `t` with the bytes `v`. */
  predicate Shows(ds: seq<Domain>, has: Samples, density: nat, t: Stamp, v: seq<Byte>) {
    exists i | 0 <= i < |ds| :: ShowsIn(ds[i], has, density, t, v)
  }

  lemma ShowsConcat(a: seq<Domain>, b: seq<Domain>, has: Samples, density: nat, t: Stamp, v: seq<Byte>)
    ensures Shows(a + b, has, density, t, v) <==> Shows(a, has, density, t, v) || Shows(b, has, density, t, v)
  {
    var c := a + b;
    assert forall i | 0 <= i < |a| :: c[i] == a[i];
    assert forall i | 0 <= i < |b| :: c[|a| + i] == b[i];
    if Shows(a, has, density, t, v) {
      var i :| 0 <= i < |a| && ShowsIn(a[i], has, density, t, v);
      assert ShowsIn(c[i], has, density, t, v);
    }
    if Shows(b, has, density, t, v) {
      var i :| 0 <= i < |b| && ShowsIn(b[i], has, density, t, v);
      assert ShowsIn(c[|a| + i], has, density, t, v);
    }
  }

  /** A sample kept in the front piece of a domain has the bytes it had. */
  lemma FrontBytes(d: Domain, from: Stamp, so: nat, has: Samples, density: nat, t: Stamp)
    requires has(t) && d.tr.start <= t < from <= d.tr.end && so == density * Count(has, d.tr.start, from) <= |d.data|
    ensures SampleBytes(Domain(TimeRange(d.tr.start, from), d.data[..so]), has, density, t) == SampleBytes(d, has, density, t)
  {
    CountOne(has, d.tr.start, t, from);
    var n, m := Count(has, d.tr.start, t), Count(has, d.tr.start, from);
    Scaled(density, n, m - n);
    Scaled(density, m - n, 0);
    ChunkOfFront(d.data, so, density * n, density);
  }

  /** So does one in the back piece. */
  lemma BackBytes(d: Domain, to: Stamp, eo: nat, has: Samples, density: nat, t: Stamp)
    requires has(t) && d.tr.start <= to <= t < d.tr.end && eo == density * Count(has, to, d.tr.end)
    requires |d.data| == density * Count(has, d.tr.start, d.tr.end) && eo <= |d.data|
    ensures SampleBytes(Domain(TimeRange(to, d.tr.end), d.data[|d.data| - eo..]), has, density, t) == SampleBytes(d, has, density, t)
  {
    CountSplit(has, d.tr.start, to, t);
    CountSplit(has, d.tr.start, to, d.tr.end);
    CountOne(has, to, t, d.tr.end);
    BackOffset(density, Count(has, d.tr.start, to), Count(has, to, t), Count(has, to, d.tr.end));
    ChunkOfBack(d.data, |d.data| - eo, density * Count(has, to, t), density);
  }

  lemma BackOffset(density: nat, a: nat, b: nat, c: nat)
    requires b < c
    ensures density * (a + c) - density * c == density * a
    ensures density * (a + b) == density * a + density * b
    ensures density * b >= 0 && density * b + density <= density * c
  {
    Scaled(density, a, b);
    Scaled(density, a, c);
    Scaled(density, b, c - b);
    Scaled(density, c - b, 0);
  }

  // ----- A deletion removes exactly the samples asked for -----

  /** The front piece, if any, shows what its domain showed before `from`. */
  lemma FrontShows(d: Domain, from: Stamp, so: nat, has: Samples, density: nat, t: Stamp, v: seq<Byte>)
    requires d.tr.start <= from <= d.tr.end && so == density * Count(has, d.tr.start, from) <= |d.data| && density > 0
    ensures Shows(if so == 0 then [] else [Domain(TimeRange(d.tr.start, from), d.data[..so])], has, density, t, v)
            <==> ShowsIn(d, has, density, t, v) && t < from
  {
    var front := if so == 0 then [] else [Domain(TimeRange(d.tr.start, from), d.data[..so])];
    if has(t) && d.tr.start <= t < from {
      CountOne(has, d.tr.start, t, from);
      Scaled(density, Count(has, d.tr.start, from), 0);
      FrontBytes(d, from, so, has, density, t);
      assert ShowsIn(front[0], has, density, t, v) <==> ShowsIn(d, has, density, t, v);
    }
  }

  /** The back piece, if any, shows what its domain showed from `to` on. */
  lemma BackShows(d: Domain, to: Stamp, eo: nat, has: Samples, density: nat, t: Stamp, v: seq<Byte>)
    requires d.tr.start <= to <= d.tr.end && eo == density * Count(has, to, d.tr.end) && density > 0
    requires |d.data| == density * Count(has, d.tr.start, d.tr.end) && eo <= |d.data|
    ensures Shows(if eo == 0 then [] else [Domain(TimeRange(to, d.tr.end), d.data[|d.data| - eo..])], has, density, t, v)
            <==> ShowsIn(d, has, density, t, v) && to <= t
  {
    var back := if eo == 0 then [] else [Domain(TimeRange(to, d.tr.end), d.data[|d.data| - eo..])];
    if has(t) && to <= t < d.tr.end {
      CountOne(has, to, t, d.tr.end);
      Scaled(density, Count(has, to, d.tr.end), 0);
      BackBytes(d, to, eo, has, density, t);
      assert ShowsIn(back[0], has, density, t, v) <==> ShowsIn(d, has, density, t, v);
    }
  }

  /** What is shown after a cut: the domains outside it, the start domain before `from` and the end domain from `to` on. */
  lemma CutShows(ps: seq<Pointer>, files: Files, tr: TimeRange, has: Samples, density: nat, after: seq<Pointer>,
                 startPos: nat, endPos: nat, plan: Plan, t: Stamp, v: seq<Byte>)
    requires Stored(ps, files) && Measured(ps, has, density) && density > 0
    requires CutAt(ps, tr, has, density, after, startPos, endPos, plan)
    ensures forall i | 0 <= i < |after| :: InBounds(after[i], files)
    ensures var ds := View(ps, files);
            Shows(View(after, files), has, density, t, v) <==>
              || Shows(ds[..startPos], has, density, t, v) || Shows(ds[endPos + 1..], has, density, t, v)
              || (ShowsIn(ds[startPos], has, density, t, v) && t < plan.from)
              || (ShowsIn(ds[endPos], has, density, t, v) && plan.to <= t)
  {
    var ds, so, eo := View(ps, files), plan.startOffset, plan.endOffset;
    SpliceExact(ps, files, startPos, endPos, plan, so, eo);
    var s, e := ds[startPos], ds[endPos];
    var front := if so == 0 then [] else [Domain(TimeRange(s.tr.start, plan.from), s.data[..so])];
    var back := if eo == 0 then [] else [Domain(TimeRange(plan.to, e.tr.end), e.data[|e.data| - eo..])];
    assert View(after, files) == ds[..startPos] + front + back + ds[endPos + 1..];
    ShowsConcat(ds[..startPos] + front + back, ds[endPos + 1..], has, density, t, v);
    ShowsConcat(ds[..startPos] + front, back, has, density, t, v);
    ShowsConcat(ds[..startPos], front, has, density, t, v);
    assert HoldsSamples(ps[endPos], has, density);
    FrontShows(s, plan.from, so, has, density, t, v);
    BackShows(e, plan.to, eo, has, density, t, v);
  }

  /** A sample outside the request, in a domain between the boundaries, is one that is kept. */
  lemma OutsideKept(ps: seq<Pointer>, startOffsetOf: Calculator, endOffsetOf: Calculator, tr: TimeRange, has: Samples, density: nat,
                    startPos: nat, endPos: nat, plan: Plan, k: nat, t: Stamp)
    requires Sorted(ps) && tr.start <= tr.end && PlanMeasured(plan, tr, has, density)
    requires LookupStart(ps, startOffsetOf, tr.start, density) == Boundary(startPos, plan.start, plan.startOffset, plan.from)
    requires LookupEnd(ps, endOffsetOf, tr.end, density) == Boundary(endPos, plan.end, plan.endOffset, plan.to)
    requires startPos <= k <= endPos < |ps| && plan.start == ps[startPos] && plan.end == ps[endPos]
    requires has(t) && ps[k].tr.ContainsStamp(t) && !tr.ContainsStamp(t)
    ensures (k == startPos && t < plan.from) || (k == endPos && plan.to <= t)
  {
    if t < tr.start {
      StartLookupSpares(ps, startOffsetOf, tr.start, density, k, t);
      LastAtOrBeforeBounds(ps, tr.start);
      if plan.from <= t {
        CountNone(has, plan.from, tr.start, t);
      }
    } else {
      EndLookupSpares(ps, endOffsetOf, tr.end, density, k, t);
      LastAtOrBeforeBounds(ps, tr.end);
      if t < plan.to {
        CountNone(has, tr.end, plan.to, t);
      }
    }
  }

  /** What readers see of one position is covered in time. */
  lemma ShownCovered(ps: seq<Pointer>, files: Files, has: Samples, density: nat, t: Stamp, v: seq<Byte>)
    requires forall i | 0 <= i < |ps| :: InBounds(ps[i], files)
    requires Shows(View(ps, files), has, density, t, v)
    ensures Covered(ps, t)
  {
    var i :| 0 <= i < |ps| && ShowsIn(View(ps, files)[i], has, density, t, v);
    assert ps[i].tr.ContainsStamp(t);
  }

  /** Parts of what is shown are shown. */
  lemma ShownSomewhere(ds: seq<Domain>, startPos: nat, endPos: nat, has: Samples, density: nat, t: Stamp, v: seq<Byte>)
    requires startPos < |ds| && endPos < |ds|
    ensures Shows(ds[..startPos], has, density, t, v) ==> Shows(ds, has, density, t, v)
    ensures Shows(ds[endPos + 1..], has, density, t, v) ==> Shows(ds, has, density, t, v)
    ensures forall k | 0 <= k < |ds| && ShowsIn(ds[k], has, density, t, v) ::
              k < startPos ==> Shows(ds[..startPos], has, density, t, v)
    ensures forall k | 0 <= k < |ds| && ShowsIn(ds[k], has, density, t, v) ::
              endPos < k ==> Shows(ds[endPos + 1..], has, density, t, v)
  {
    assert ds == ds[..startPos] + ds[startPos..] && ds == ds[..endPos + 1] + ds[endPos + 1..];
    ShowsConcat(ds[..startPos], ds[startPos..], has, density, t, v);
    ShowsConcat(ds[..endPos + 1], ds[endPos + 1..], has, density, t, v);
    forall k | 0 <= k < |ds| && ShowsIn(ds[k], has, density, t, v)
      ensures k < startPos ==> Shows(ds[..startPos], has, density, t, v)
      ensures endPos < k ==> Shows(ds[endPos + 1..], has, density, t, v)
    {
      if k < startPos {
        assert ds[..startPos][k] == ds[k];
      }
      if endPos < k {
        assert ds[endPos + 1..][k - endPos - 1] == ds[k];
      }
    }
  }

  /** A sample outside the request is still shown. */
  lemma SampleStays(ps: seq<Pointer>, files: Files, startOffsetOf: Calculator, endOffsetOf: Calculator, tr: TimeRange, has: Samples,
                    density: nat, after: seq<Pointer>, startPos: nat, endPos: nat, plan: Plan, t: Stamp, v: seq<Byte>)
    requires Sorted(ps) && Stored(ps, files) && Measured(ps, has, density) && density > 0 && tr.start <= tr.end
    requires CutAt(ps, tr, has, density, after, startPos, endPos, plan)
    requires LookupStart(ps, startOffsetOf, tr.start, density) == Boundary(startPos, plan.start, plan.startOffset, plan.from)
    requires LookupEnd(ps, endOffsetOf, tr.end, density) == Boundary(endPos, plan.end, plan.endOffset, plan.to)
    requires forall i | 0 <= i < |after| :: InBounds(after[i], files)
    requires Shows(View(ps, files), has, density, t, v) && !tr.ContainsStamp(t)
    ensures Shows(View(after, files), has, density, t, v)
  {
    var ds := View(ps, files);
    var k :| 0 <= k < |ds| && ShowsIn(ds[k], has, density, t, v);
    ShownSomewhere(ds, startPos, endPos, has, density, t, v);
    CutShows(ps, files, tr, has, density, after, startPos, endPos, plan, t, v);
    if startPos <= k <= endPos {
      OutsideKept(ps, startOffsetOf, endOffsetOf, tr, has, density, startPos, endPos, plan, k, t);
    }
  }

  /**
   For readers a completed deletion removes exactly the samples in the requested range: every other sample is seen with
   the bytes it had, and no new one is seen.
   */
  lemma DeleteRemovesSamples(ps: seq<Pointer>, files: Files, startOffsetOf: Calculator, endOffsetOf: Calculator, tr: TimeRange,
                             has: Samples, density: nat, after: seq<Pointer>, t: Stamp, v: seq<Byte>)
    requires Sorted(ps) && Stored(ps, files) && Measured(ps, has, density) && density > 0
    requires tr.start <= tr.end && Counting(ps, startOffsetOf, endOffsetOf, has, tr)
    requires DeleteOutcome(ps, startOffsetOf, endOffsetOf, tr, density, Deleted, after)
    ensures forall i | 0 <= i < |after| :: InBounds(after[i], files)
    ensures Shows(View(after, files), has, density, t, v) <==> Shows(View(ps, files), has, density, t, v) && !tr.ContainsStamp(t)
  {
    var startPos, endPos, plan := DeletedCuts(ps, startOffsetOf, endOffsetOf, tr, has, density, after);
    CutShows(ps, files, tr, has, density, after, startPos, endPos, plan, t, v);
    if Shows(View(after, files), has, density, t, v) {
      ShownSomewhere(View(ps, files), startPos, endPos, has, density, t, v);
      ShownCovered(after, files, has, density, t, v);
      CountingSound(ps, startOffsetOf, endOffsetOf, has, tr, density);
      DeleteClearsRequest(ps, startOffsetOf, endOffsetOf, tr, density, after, t);
    } else if !tr.ContainsStamp(t) && Shows(View(ps, files), has, density, t, v) {
      SampleStays(ps, files, startOffsetOf, endOffsetOf, tr, has, density, after, startPos, endPos, plan, t, v);
    }
  }

  // ----- When a deletion does not go ahead -----

  /** With calculators that count, a request whose bounds are in order is never refused. */
  lemma NeverRejected(ps: seq<Pointer>, startOffsetOf: Calculator, endOffsetOf: Calculator, tr: TimeRange, has: Samples, density: nat,
                      r: DeleteResult, after: seq<Pointer>)
    requires Sorted(ps) && Measured(ps, has, density) && tr.start <= tr.end && Counting(ps, startOffsetOf, endOffsetOf, has, tr)
    requires DeleteOutcome(ps, startOffsetOf, endOffsetOf, tr, density, r, after)
    ensures r != Rejected
  {
    var s, e := LookupStart(ps, startOffsetOf, tr.start, density), LookupEnd(ps, endOffsetOf, tr.end, density);
    LastAtOrBeforeBounds(ps, tr.start);
    LastAtOrBeforeBounds(ps, tr.end);
    if s.Boundary? && e.Boundary? {
      Planned(ps, startOffsetOf, endOffsetOf, tr, has, density);
      CountingSound(ps, startOffsetOf, endOffsetOf, has, tr, density);
      LookupsSound(ps, startOffsetOf, endOffsetOf, tr, density);
      if s.pos == e.pos {
        assert HoldsSamples(ps[s.pos], has, density);
        FrontAndBack(s.ptr, s.stamp, e.stamp, has, density);
      }
    }
  }

  lemma FrontAndBack(p: Pointer, a: Stamp, b: Stamp, has: Samples, density: nat)
    requires HoldsSamples(p, has, density) && p.tr.start <= a <= b <= p.tr.end
    ensures density * Count(has, p.tr.start, a) + density * Count(has, b, p.tr.end) <= p.length
  {
    CountSplit(has, p.tr.start, a, p.tr.end);
    CountSplit(has, a, b, p.tr.end);
    Scaled(density, Count(has, p.tr.start, a), Count(has, a, p.tr.end));
    Scaled(density, Count(has, a, b), Count(has, b, p.tr.end));
  }

  /**
   The guard for adjacent domains applies at `k` and `k + 1`: the start domain keeps as many bytes as the end domain has,
   the end domain keeps all, and their lengths differ.
   */
  predicate DroppedAt(ps: seq<Pointer>, has: Samples, density: nat, tr: TimeRange, k: nat) {
    && k + 1 < |ps|
    && (k > 0 ==> ps[k - 1].tr.end <= tr.start) && tr.start < ps[k].tr.end
    && ps[k + 1].tr.start <= tr.end && (k + 2 < |ps| ==> tr.end < ps[k + 2].tr.start)
    && density * Count(has, ps[k].tr.start, tr.start) == ps[k + 1].length && Count(has, ps[k + 1].tr.start, tr.end) == 0
    && ps[k].length != ps[k + 1].length
  }

  /** A sample of the request is covered. */
  ghost predicate Requested(ps: seq<Pointer>, has: Samples, tr: TimeRange) {
    exists t :: has(t) && tr.ContainsStamp(t) && Covered(ps, t)
  }

  /** The boundaries of a request, by the domains alone. */
  lemma Boundaries(ps: seq<Pointer>, startOffsetOf: Calculator, endOffsetOf: Calculator, tr: TimeRange, density: nat, k: nat)
    requires Sorted(ps) && k + 1 < |ps|
    ensures LookupStart(ps, startOffsetOf, tr.start, density).Nothing? ==> !(tr.start < ps[k].tr.end)
    ensures LookupEnd(ps, endOffsetOf, tr.end, density).Nothing? ==> !(ps[k + 1].tr.start <= tr.end)
    ensures var s := LookupStart(ps, startOffsetOf, tr.start, density);
            s.Boundary? ==> (s.pos == k <==> (k > 0 ==> ps[k - 1].tr.end <= tr.start) && tr.start < ps[k].tr.end)
    ensures var e := LookupEnd(ps, endOffsetOf, tr.end, density);
            e.Boundary? ==> (e.pos == k + 1 <==> ps[k + 1].tr.start <= tr.end && (k + 2 < |ps| ==> tr.end < ps[k + 2].tr.start))
  {
    LastAtOrBeforeBounds(ps, tr.start);
    LastAtOrBeforeBounds(ps, tr.end);
  }

  /** The request's own stamps count the same samples as the stamps they were snapped to. */
  lemma CountsAtRequest(plan: Plan, tr: TimeRange, has: Samples, density: nat)
    requires PlanMeasured(plan, tr, has, density) && density > 0 && plan.end.tr.start <= tr.end
    requires HoldsSamples(plan.end, has, density) && plan.end.length > 0
    ensures density * Count(has, plan.start.tr.start, tr.start) == plan.startOffset
    ensures plan.endOffset == plan.end.length <==> Count(has, plan.end.tr.start, tr.end) == 0
    ensures plan.endOffset == plan.end.length ==> Count(has, plan.end.tr.start, plan.to) == 0
  {
    if plan.from <= tr.start {
      CountSplit(has, plan.start.tr.start, plan.from, tr.start);
    }
    var p := plan.end;
    CountSplit(has, p.tr.start, plan.to, p.tr.end);
    Scaled(density, Count(has, p.tr.start, plan.to), Count(has, plan.to, p.tr.end));
    Scaled(density, Count(has, p.tr.start, plan.to), 0);
    if tr.end <= plan.to {
      CountSplit(has, p.tr.start, tr.end, plan.to);
    } else {
      CountSplit(has, p.tr.start, p.tr.end, tr.end);
    }
  }

  /** A covered sample of the request lies between the two stamps of the plan, in a domain between the boundaries. */
  lemma RequestedWithin(ps: seq<Pointer>, startOffsetOf: Calculator, endOffsetOf: Calculator, tr: TimeRange, has: Samples, density: nat,
                        k: nat, t: Stamp)
    requires Sorted(ps) && Measured(ps, has, density) && Counting(ps, startOffsetOf, endOffsetOf, has, tr)
    requires k < |ps| && ps[k].tr.ContainsStamp(t) && tr.ContainsStamp(t)
    ensures var s, e := LookupStart(ps, startOffsetOf, tr.start, density), LookupEnd(ps, endOffsetOf, tr.end, density);
            !s.Nothing? && !e.Nothing? && (s.Boundary? && e.Boundary? ==> s.stamp <= t < e.stamp && s.pos <= k <= e.pos)
  {
    CountingSound(ps, startOffsetOf, endOffsetOf, has, tr, density);
    StartLookupCovers(ps, startOffsetOf, tr.start, density, k, t);
    EndLookupCovers(ps, endOffsetOf, tr.end, density, k, t);
    LastAtOrBeforeBounds(ps, tr.start);
    LastAtOrBeforeBounds(ps, tr.end);
  }

  /** In one domain whose bytes are all kept nothing is requested. */
  lemma OneDomainSkipped(p: Pointer, plan: Plan, tr: TimeRange, has: Samples, density: nat, t: Stamp)
    requires PlanMeasured(plan, tr, has, density) && density > 0 && plan.start == p && plan.end == p
    requires HoldsSamples(p, has, density) && plan.startOffset + plan.endOffset == p.length && plan.from <= t < plan.to
    ensures !has(t)
  {
    CountSplit(has, p.tr.start, plan.from, p.tr.end);
    CountSplit(has, plan.from, plan.to, p.tr.end);
    var a, b, c := Count(has, p.tr.start, plan.from), Count(has, plan.from, plan.to), Count(has, plan.to, p.tr.end);
    Scaled(density, a, b + c);
    Scaled(density, b, c);
    Scaled(density, b, 0);
    CountNone(has, plan.from, plan.to, t);
  }

  /** Of two adjacent domains that keep all their bytes nothing is requested. */
  lemma TwoDomainsSkipped(plan: Plan, tr: TimeRange, has: Samples, density: nat, t: Stamp)
    requires PlanMeasured(plan, tr, has, density) && density > 0 && plan.end.tr.start <= tr.end
    requires HoldsSamples(plan.start, has, density) && HoldsSamples(plan.end, has, density) && plan.end.length > 0
    requires plan.startOffset == plan.start.length && plan.endOffset == plan.end.length
    requires (plan.from <= t < plan.start.tr.end) || (plan.end.tr.start <= t < plan.to)
    ensures !has(t)
  {
    CountsAtRequest(plan, tr, has, density);
    var p := plan.start;
    CountSplit(has, p.tr.start, plan.from, p.tr.end);
    Scaled(density, Count(has, p.tr.start, plan.from), Count(has, plan.from, p.tr.end));
    Scaled(density, Count(has, plan.from, p.tr.end), 0);
    if plan.from <= t < p.tr.end {
      CountNone(has, plan.from, p.tr.end, t);
    } else {
      CountNone(has, plan.end.tr.start, plan.to, t);
    }
  }

  /** A start domain that does not keep all its bytes has a sample from `from` on. */
  lemma SomethingCut(plan: Plan, tr: TimeRange, has: Samples, density: nat) returns (t: Stamp)
    requires PlanMeasured(plan, tr, has, density) && HoldsSamples(plan.start, has, density) && plan.startOffset < plan.start.length
    ensures has(t) && plan.from <= t < plan.start.tr.end && tr.start <= t
  {
    var p := plan.start;
    CountSplit(has, p.tr.start, plan.from, p.tr.end);
    Scaled(density, Count(has, p.tr.start, plan.from), Count(has, plan.from, p.tr.end));
    assert Between(has, plan.from, p.tr.end) != {};
    t :| t in Between(has, plan.from, p.tr.end);
    if t < tr.start {
      CountNone(has, plan.from, tr.start, t);
    }
  }

  /** Where validation skips a plan: its offsets are those of one domain, or of two adjacent ones, kept whole as it compares them. */
  lemma SkippedCases(ps: seq<Pointer>, startPos: nat, endPos: nat, so: nat, eo: nat)
    requires startPos < |ps| && endPos < |ps| && so <= ps[startPos].length && eo <= ps[endPos].length
    ensures ValidateDelete(ps, startPos, endPos, so, eo).Skip? <==>
              || (startPos == endPos && so + eo == ps[startPos].length)
              || (startPos + 1 == endPos && so == ps[endPos].length && eo == ps[endPos].length)
  {
  }

  /** Between adjacent domains of different lengths a skipped plan leaves a sample it was asked to delete. */
  lemma SkippedDrops(ps: seq<Pointer>, tr: TimeRange, has: Samples, density: nat, startPos: nat, endPos: nat, plan: Plan)
    requires Sorted(ps) && Measured(ps, has, density) && density > 0
    requires startPos + 1 == endPos < |ps| && plan.start == ps[startPos] && plan.end == ps[endPos] && plan.end.tr.start <= tr.end
    requires PlanMeasured(plan, tr, has, density) && plan.startOffset == plan.end.length != plan.start.length
    ensures Requested(ps, has, tr)
  {
    assert HoldsSamples(ps[startPos], has, density);
    MeasuredInRange(plan.start, plan.start.tr.start, plan.from, has, density);
    var t := SomethingCut(plan, tr, has, density);
    assert ps[startPos].tr.ContainsStamp(t);
    assert ps[startPos].tr.end <= ps[endPos].tr.start;
    assert tr.ContainsStamp(t) && Covered(ps, t);
  }

  /** Otherwise there is no sample where it would have cut. */
  lemma SkippedKeeps(ps: seq<Pointer>, tr: TimeRange, has: Samples, density: nat, startPos: nat, endPos: nat, plan: Plan, t: Stamp)
    requires Measured(ps, has, density) && density > 0
    requires startPos < |ps| && endPos < |ps| && plan.start == ps[startPos] && plan.end == ps[endPos]
    requires PlanMeasured(plan, tr, has, density)
    requires || (startPos == endPos && plan.startOffset + plan.endOffset == plan.start.length)
             || (startPos + 1 == endPos && plan.startOffset == plan.endOffset == plan.end.length == plan.start.length)
    requires plan.end.length > 0 && plan.end.tr.start <= tr.end && plan.from <= t < plan.to
    requires ps[startPos].tr.ContainsStamp(t) || ps[endPos].tr.ContainsStamp(t)
    ensures !has(t)
  {
    assert HoldsSamples(ps[startPos], has, density) && HoldsSamples(ps[endPos], has, density);
    if startPos == endPos {
      OneDomainSkipped(ps[startPos], plan, tr, has, density, t);
    } else {
      TwoDomainsSkipped(plan, tr, has, density, t);
    }
  }

  /** A covered instant of the request lies between the stamps of the plan, in one of at most two domains. */
  lemma SkippedWithin(ps: seq<Pointer>, startOffsetOf: Calculator, endOffsetOf: Calculator, tr: TimeRange, has: Samples, density: nat,
                      startPos: nat, endPos: nat, plan: Plan, t: Stamp)
    requires Sorted(ps) && Measured(ps, has, density) && Counting(ps, startOffsetOf, endOffsetOf, has, tr)
    requires LookupStart(ps, startOffsetOf, tr.start, density) == Boundary(startPos, plan.start, plan.startOffset, plan.from)
    requires LookupEnd(ps, endOffsetOf, tr.end, density) == Boundary(endPos, plan.end, plan.endOffset, plan.to)
    requires startPos < |ps| && endPos < |ps| && (startPos == endPos || startPos + 1 == endPos)
    requires tr.ContainsStamp(t) && Covered(ps, t)
    ensures plan.from <= t < plan.to && (ps[startPos].tr.ContainsStamp(t) || ps[endPos].tr.ContainsStamp(t))
  {
    var k :| 0 <= k < |ps| && ps[k].tr.ContainsStamp(t);
    RequestedWithin(ps, startOffsetOf, endOffsetOf, tr, has, density, k, t);
  }

  /** A plan that is skipped leaves a requested sample covered exactly when the guard for adjacent domains applies wrongly. */
  lemma SkippedIff(ps: seq<Pointer>, startOffsetOf: Calculator, endOffsetOf: Calculator, tr: TimeRange, has: Samples, density: nat,
                   startPos: nat, endPos: nat, plan: Plan)
    requires Sorted(ps) && Measured(ps, has, density) && density > 0 && tr.start <= tr.end
    requires (forall i | 0 <= i < |ps| :: ps[i].length > 0) && Counting(ps, startOffsetOf, endOffsetOf, has, tr)
    requires LookupStart(ps, startOffsetOf, tr.start, density) == Boundary(startPos, plan.start, plan.startOffset, plan.from)
    requires LookupEnd(ps, endOffsetOf, tr.end, density) == Boundary(endPos, plan.end, plan.endOffset, plan.to)
    requires startPos < |ps| && endPos < |ps| && plan.start == ps[startPos] && plan.end == ps[endPos]
    requires PlanMeasured(plan, tr, has, density) && ps[endPos].tr.start <= tr.end
    requires || (startPos == endPos && plan.startOffset + plan.endOffset == ps[startPos].length)
             || (startPos + 1 == endPos && plan.startOffset == ps[endPos].length && plan.endOffset == ps[endPos].length)
    ensures Requested(ps, has, tr) <==> startPos < endPos && ps[startPos].length != ps[endPos].length
  {
    if startPos < endPos && ps[startPos].length != ps[endPos].length {
      SkippedDrops(ps, tr, has, density, startPos, endPos, plan);
    } else if t: Stamp :| has(t) && tr.ContainsStamp(t) && Covered(ps, t) {
      SkippedWithin(ps, startOffsetOf, endOffsetOf, tr, has, density, startPos, endPos, plan, t);
      SkippedKeeps(ps, tr, has, density, startPos, endPos, plan, t);
    }
  }

  /**
   A deletion that says there is nothing to delete leaves a sample of the request covered exactly when the guard for
   adjacent domains applies to domains of different lengths.
   */
  lemma NothingDeletedIff(ps: seq<Pointer>, startOffsetOf: Calculator, endOffsetOf: Calculator, tr: TimeRange, has: Samples, density: nat,
                          after: seq<Pointer>)
    requires Sorted(ps) && Measured(ps, has, density) && density > 0 && tr.start <= tr.end
    requires (forall i | 0 <= i < |ps| :: ps[i].length > 0) && Counting(ps, startOffsetOf, endOffsetOf, has, tr)
    requires DeleteOutcome(ps, startOffsetOf, endOffsetOf, tr, density, NoDelete, after)
    ensures Requested(ps, has, tr) <==> exists k: nat :: DroppedAt(ps, has, density, tr, k)
  {
    var s, e := LookupStart(ps, startOffsetOf, tr.start, density), LookupEnd(ps, endOffsetOf, tr.end, density);
    forall k: nat | k + 1 < |ps|
      ensures (s.Nothing? ==> !DroppedAt(ps, has, density, tr, k)) && (e.Nothing? ==> !DroppedAt(ps, has, density, tr, k))
    {
      Boundaries(ps, startOffsetOf, endOffsetOf, tr, density, k);
    }
    if s.Nothing? || e.Nothing? {
      if t :| has(t) && tr.ContainsStamp(t) && Covered(ps, t) {
        var k :| 0 <= k < |ps| && ps[k].tr.ContainsStamp(t);
        RequestedWithin(ps, startOffsetOf, endOffsetOf, tr, has, density, k, t);
      }
    } else {
      NothingPlannedIff(ps, startOffsetOf, endOffsetOf, tr, has, density, after);
    }
  }

  lemma NothingPlannedIff(ps: seq<Pointer>, startOffsetOf: Calculator, endOffsetOf: Calculator, tr: TimeRange, has: Samples, density: nat,
                          after: seq<Pointer>)
    requires Sorted(ps) && Measured(ps, has, density) && density > 0 && tr.start <= tr.end
    requires (forall i | 0 <= i < |ps| :: ps[i].length > 0) && Counting(ps, startOffsetOf, endOffsetOf, has, tr)
    requires DeleteOutcome(ps, startOffsetOf, endOffsetOf, tr, density, NoDelete, after)
    requires LookupStart(ps, startOffsetOf, tr.start, density).Boundary? && LookupEnd(ps, endOffsetOf, tr.end, density).Boundary?
    ensures Requested(ps, has, tr) <==> exists k: nat :: DroppedAt(ps, has, density, tr, k)
  {
    var s, e := LookupStart(ps, startOffsetOf, tr.start, density), LookupEnd(ps, endOffsetOf, tr.end, density);
    var plan := Plan(s.ptr, e.ptr, s.offset, e.offset, s.stamp, e.stamp);
    Planned(ps, startOffsetOf, endOffsetOf, tr, has, density);
    SkippedCases(ps, s.pos, e.pos, s.offset, e.offset);
    EndStartsBefore(ps, endOffsetOf, tr.end, density);
    SkippedIff(ps, startOffsetOf, endOffsetOf, tr, has, density, s.pos, e.pos, plan);
    assert HoldsSamples(ps[e.pos], has, density);
    CountsAtRequest(plan, tr, has, density);
    forall k: nat | k + 1 < |ps|
      ensures DroppedAt(ps, has, density, tr, k) <==> k == s.pos && k + 1 == e.pos && ps[k].length != ps[k + 1].length
    {
      Boundaries(ps, startOffsetOf, endOffsetOf, tr, density, k);
    }
  }

  lemma EndStartsBefore(ps: seq<Pointer>, offsetOf: Calculator, t: Stamp, density: nat)
    requires Sorted(ps)
    ensures var e := LookupEnd(ps, offsetOf, t, density); e.Boundary? ==> e.ptr.tr.start <= t
  {
    LastAtOrBeforeBounds(ps, t);
  }
}
