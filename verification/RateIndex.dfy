/**
 The offset calculators of a channel that goes by its rate (cesium/internal/unary/delete.go:113-214,
 cesium/internal/index/rate.go:26-42, x/go/telem/telem.go:406-418).
 */
module RateIndex {
  import opened Common
  import opened Telem
  import opened DomainIndex
  import opened DomainDelete
  import opened DomainSamples

  /** The remainder as Go computes it. */
  function Rem(a: int, b: int): int
    requires b > 0
  {
    if a >= 0 then a % b else -((-a) % b)
  }

  function ClosestLE(t: int, period: int): int
    requires period > 0
  {
    t - Rem(t, period)
  }

  function ClosestGE(t: int, period: int): int
    requires period > 0
  {
    if Rem(t, period) == 0 then t else t + (period - Rem(t, period))
  }

  /** The end calculator of a channel that goes by its rate. */
  function RateEnd(period: int): Calculator
    requires period > 0
  {
    (start: Stamp, t: Stamp) => RateEndAt(period, start, t)
  }

  function RateEndAt(period: int, start: Stamp, t: Stamp): Calc
    requires period > 0
  {
    var lower := (ClosestLE(t, period) - ClosestGE(start, period)) / period;
    var upper := (ClosestGE(t, period) - ClosestLE(start, period)) / period;
    if lower == upper then CalcOk(upper, t) else CalcOk(upper, Wrap64(ClosestLE(start, period) + upper * period))
  }

  /** Its start calculator. */
  function RateStart(period: int): Calculator
    requires period > 0
  {
    (start: Stamp, t: Stamp) => RateStartAt(period, start, t)
  }

  function RateStartAt(period: int, start: Stamp, t: Stamp): Calc
    requires period > 0
  {
    var lower := (ClosestLE(t, period) - ClosestGE(start, period)) / period;
    var upper := (ClosestGE(t, period) - ClosestLE(start, period)) / period;
    if lower == upper then CalcOk(upper, t) else CalcOk(upper, Wrap64(ClosestGE(start, period) + (upper - 1) * period + 1))
  }

  // ----- They count -----

  /** Samples at the multiples of the period. */
  function Multiples(period: int): Samples
    requires period > 0
  {
    (t: Stamp) => t % period == 0
  }

  /** There is one sample in each period. */
  lemma {:induction false} CountMultiples(period: int, s: int, q: int)
    requires period > 0 && s <= q && -TWO_63 <= s * period <= q * period < TWO_63
    ensures Count(Multiples(period), s * period, q * period) == q - s
    decreases q - s
  {
    if s == q {
      assert Between(Multiples(period), s * period, q * period) == {};
    } else {
      assert (q - 1) * period == q * period - period;
      StepUp(s, q, period);
      CountMultiples(period, s, q - 1);
      CountSplit(Multiples(period), s * period, (q - 1) * period, q * period);
      OneMultiple(period, q - 1, q * period);
    }
  }

  /** From a multiple up to the next there is one. */
  lemma OneMultiple(period: int, q: int, t: Stamp)
    requires period > 0 && -TWO_63 <= q * period < t <= q * period + period
    ensures Count(Multiples(period), q * period, t) == 1
  {
    forall u: Stamp | q * period <= u < t
      ensures Multiples(period)(u) <==> u == q * period
    {
      Divides(u, q, period);
    }
    var at: Stamp := q * period;
    assert Between(Multiples(period), q * period, t) == {at};
  }

  /** Between a stamp and the multiples next to it there is none but the earlier one. */
  lemma NoMultiple(period: int, q: int, a: Stamp, b: Stamp)
    requires period > 0 && q * period < a && b <= q * period + period
    ensures Count(Multiples(period), a, b) == 0
  {
    forall u: Stamp | a <= u < b
      ensures !Multiples(period)(u)
    {
      Divides(u, q, period);
    }
    assert Between(Multiples(period), a, b) == {};
  }

  /** A domain of such a channel: it starts at a sample and ends at one or right after one. */
  predicate Aligned(p: Pointer, period: int)
    requires period > 0
  {
    p.tr.start % period == 0 && ((p.tr.end - 1) % period == 0 || p.tr.end % period == 0)
  }

  /** The multiples next to a stamp that is not before the epoch, or is a multiple itself. */
  lemma ClosestTo(period: int, q: int, t: Stamp)
    requires period > 0 && q * period <= t < q * period + period && (t >= 0 || t == q * period)
    ensures ClosestLE(t, period) == q * period
    ensures ClosestGE(t, period) == if t == q * period then t else q * period + period
  {
    Divides(t, q, period);
    if t < 0 {
      assert (-q) * period == 0 - t;
      Divides(0 - t, -q, period);
    }
  }

  /** Before the epoch, where the remainder is negative, they are one period further on. */
  lemma ClosestBefore(period: int, q: int, t: Stamp)
    requires period > 0 && q * period < t < q * period + period && t < 0
    ensures ClosestLE(t, period) == q * period + period && ClosestGE(t, period) == q * period + period + period
  {
    assert (-q - 1) * period == -(q * period) - period;
    Divides(0 - t, -q - 1, period);
  }

  lemma QuotientOf(period: int, a: int, b: int)
    requires period > 0
    ensures (b * period - a * period) / period == b - a
  {
    assert b * period - a * period == (b - a) * period;
    Divides((b - a) * period, b - a, period);
  }

  /** The samples from a multiple up to a stamp. */
  lemma CountTo(period: int, a: int, s: Stamp, q: int, le: Stamp, t: Stamp)
    requires period > 0 && a <= q && s == a * period && le == q * period && s <= le <= t < le + period
    ensures Count(Multiples(period), s, t) == if t == le then q - a else q + 1 - a
  {
    CountMultiples(period, a, q);
    if t > le {
      CountSplit(Multiples(period), s, le, t);
      OneMultiple(period, q, t);
    }
  }

  /** How many periods apart two multiples are, and where counting them from the first leads. */
  lemma PeriodsApart(period: int, x: int, a: int, y: int, b: int)
    requires period > 0 && x == a * period && y == b * period
    ensures (y - x) / period == b - a && x + (b - a) * period == y
  {
    QuotientOf(period, a, b);
    assert (b - a) * period == b * period - a * period;
  }

  /** What the calculators say of a stamp, `le` and `ge` being the multiples next to it. */
  lemma RateAt(period: int, s: Stamp, t: Stamp, le: int, ge: int, n: int, m: int)
    requires period > 0 && ClosestLE(s, period) == s == ClosestGE(s, period)
    requires ClosestLE(t, period) == le && ClosestGE(t, period) == ge
    requires (le - s) / period == n && (ge - s) / period == m && s + (m - 1) * period == ge - period && s + m * period == ge
    ensures RateStartAt(period, s, t) == CalcOk(m, if n == m then t else Wrap64(ge - period + 1))
    ensures RateEndAt(period, s, t) == CalcOk(m, if n == m then t else Wrap64(ge))
  {
  }

  /** The sample next to a stamp in a domain is at or before the end of it. */
  lemma NextSample(p: Pointer, period: int, q: int, t: Stamp)
    requires period > 0 && Aligned(p, period) && t < p.tr.end && q * period < t < q * period + period
    ensures q * period + period <= p.tr.end
  {
    var last := if p.tr.end % period == 0 then p.tr.end else p.tr.end - 1;
    var e := last / period;
    assert last == e * period;
    if e <= q {
      Divides(t, q, period);
      StepUp(e - 1, q, period);
    } else {
      StepUp(q, e, period);
    }
  }

  /** A stamp on a sample. */
  lemma OnSample(period: int, s: Stamp, a: int, t: Stamp, q: int)
    requires period > 0 && a <= q && s == a * period && t == q * period
    ensures RateStartAt(period, s, t) == RateEndAt(period, s, t) == CalcOk(q - a, t)
  {
    ClosestTo(period, a, s);
    ClosestTo(period, q, t);
    PeriodsApart(period, s, a, t, q);
    assert s + (q - a - 1) * period == t - period;
    RateAt(period, s, t, t, t, q - a, q - a);
  }

  /** A stamp between two. */
  lemma OffSample(period: int, s: Stamp, a: int, t: Stamp, q: int, le: int)
    requires period > 0 && a <= q && s == a * period && le == q * period && le < t < le + period && t >= 0
    ensures RateStartAt(period, s, t) == CalcOk(q + 1 - a, Wrap64(le + 1))
    ensures RateEndAt(period, s, t) == CalcOk(q + 1 - a, Wrap64(le + period))
  {
    ClosestTo(period, a, s);
    ClosestTo(period, q, t);
    PeriodsApart(period, s, a, le, q);
    PeriodsApart(period, s, a, le + period, q + 1);
    RateAt(period, s, t, le, le + period, q - a, q + 1 - a);
  }

  /** A stamp between two before the epoch: one too many. */
  lemma BeforeSample(period: int, s: Stamp, a: int, t: Stamp, q: int, le: int)
    requires period > 0 && a <= q && s == a * period && le == q * period && le < t < le + period && t < 0
    ensures RateStartAt(period, s, t).CalcOk? && RateStartAt(period, s, t).offset == q + 2 - a
    ensures RateEndAt(period, s, t).CalcOk? && RateEndAt(period, s, t).offset == q + 2 - a
  {
    ClosestTo(period, a, s);
    ClosestBefore(period, q, t);
    PeriodsApart(period, s, a, le + period, q + 1);
    PeriodsApart(period, s, a, le + period + period, q + 2);
    RateAt(period, s, t, le + period, le + period + period, q + 1 - a, q + 2 - a);
  }

  lemma QuotientAt(t: Stamp, period: int) returns (q: int, le: int)
    requires period > 0
    ensures le == q * period && le <= t < le + period && (t % period == 0 ==> le == t)
  {
    q := t / period;
    le := q * period;
    assert t == le + t % period;
  }

  lemma InOrder(period: int, a: int, x: int, q: int, y: int)
    requires period > 0 && x == a * period && y == q * period && x < y + period
    ensures a <= q && x <= y
  {
    if q < a {
      StepUp(q, a, period);
    } else if a < q {
      StepUp(a, q, period);
    }
  }

  /** The calculators count up to a stamp on a sample. */
  lemma CountingOn(period: int, p: Pointer, a: int, t: Stamp, q: int)
    requires period > 0 && a <= q && p.tr.start == a * period && t == q * period && p.tr.ContainsStamp(t)
    ensures CountsToStart(RateStart(period), Multiples(period), p, t)
    ensures CountsToEnd(RateEnd(period), Multiples(period), p, t)
  {
    CountTo(period, a, p.tr.start, q, t, t);
    OnSample(period, p.tr.start, a, t, q);
  }

  /** And up to one between two. */
  lemma CountingOff(period: int, p: Pointer, a: int, t: Stamp, q: int, le: Stamp, next: Stamp)
    requires period > 0 && a <= q && p.tr.start == a * period && le == q * period && next == le + period
    requires p.tr.start <= le < t < next <= p.tr.end && t >= 0
    ensures CountsToStart(RateStart(period), Multiples(period), p, t)
    ensures CountsToEnd(RateEnd(period), Multiples(period), p, t)
  {
    CountTo(period, a, p.tr.start, q, le, t);
    OffSample(period, p.tr.start, a, t, q, le);
    NoneBeside(period, q, le, t, next);
    Snapped(RateStart(period), RateEnd(period), Multiples(period), p, t, q + 1 - a, le + 1, next);
  }

  lemma NoneBeside(period: int, q: int, le: Stamp, t: Stamp, next: Stamp)
    requires period > 0 && le == q * period && next == le + period && le < t < next
    ensures Count(Multiples(period), le + 1, t) == 0 && Count(Multiples(period), t, next) == 0
  {
    NoMultiple(period, q, le + 1, t);
    NoMultiple(period, q, t, next);
  }

  lemma Snapped(start: Calculator, end: Calculator, has: Samples, p: Pointer, t: Stamp, n: int, from: Stamp, to: Stamp)
    requires start(p.tr.start, t) == CalcOk(n, from) && end(p.tr.start, t) == CalcOk(n, to)
    requires p.tr.start <= from <= t <= to <= p.tr.end && n == Count(has, p.tr.start, t)
    requires Count(has, from, t) == 0 && Count(has, t, to) == 0
    ensures CountsToStart(start, has, p, t) && CountsToEnd(end, has, p, t)
  {
  }

  /** But not up to one between two before the epoch. */
  lemma CountingBefore(period: int, p: Pointer, a: int, t: Stamp, q: int, le: Stamp)
    requires period > 0 && a <= q && p.tr.start == a * period && le == q * period && p.tr.start <= le < t < le + period && t < 0
    ensures !CountsToStart(RateStart(period), Multiples(period), p, t)
    ensures !CountsToEnd(RateEnd(period), Multiples(period), p, t)
  {
    CountTo(period, a, p.tr.start, q, le, t);
    BeforeSample(period, p.tr.start, a, t, q, le);
  }

  /**
   The calculators of a rate channel count the samples of a domain before a stamp, and snap to a stamp that has the same
   samples on each side, exactly when the stamp is not before the epoch or is a multiple of the period: before the epoch
   the remainder is negative, and they count one sample too many.
   */
  lemma RateCountsIff(p: Pointer, period: int, t: Stamp)
    requires period > 0 && Aligned(p, period) && p.tr.ContainsStamp(t)
    ensures CountsToStart(RateStart(period), Multiples(period), p, t) <==> t >= 0 || t % period == 0
    ensures CountsToEnd(RateEnd(period), Multiples(period), p, t) <==> t >= 0 || t % period == 0
  {
    var a, s := QuotientAt(p.tr.start, period);
    var q, le := QuotientAt(t, period);
    InOrder(period, a, s, q, le);
    if t == le {
      CountingOn(period, p, a, t, q);
      Divides(t, q, period);
    } else {
      Divides(t, q, period);
      if t < 0 {
        CountingBefore(period, p, a, t, q, le);
      } else {
        NextSample(p, period, q, t);
        CountingOff(period, p, a, t, q, le, le + period);
      }
    }
  }
}
