/**
 Time stamps and time ranges (x/go/telem/telem.go).

 A stamp is a signed 64-bit count of nanoseconds.  `Span` subtracts two stamps in
 64-bit arithmetic, so it wraps; everything built on `Valid` inherits that.
 */
module Telem {

  const TWO_63: int := 0x8000_0000_0000_0000

  type Stamp = t: int | -0x8000_0000_0000_0000 <= t < 0x8000_0000_0000_0000

  /** The 64-bit two's complement value congruent to `x`. */
  function Wrap64(x: int): Stamp {
    (x + 0x8000_0000_0000_0000) % 0x1_0000_0000_0000_0000 - 0x8000_0000_0000_0000
  }

  datatype TimeRange = TimeRange(start: Stamp, end: Stamp) {

    function Span(): Stamp {
      Wrap64(end - start)
    }

    predicate Valid() {
      Span() >= 0
    }

    function MakeValid(): TimeRange {
      if Valid() then this else TimeRange(end, start)
    }

    predicate ContainsStamp(t: Stamp) {
      start <= t < end
    }

    predicate ContainsRange(r: TimeRange) {
      start <= r.start && r.end <= end
    }

    predicate OverlapsWith(r: TimeRange) {
      if this == r then
        true
      else
        var v := MakeValid();
        var q := r.MakeValid();
        if q.start == v.start then
          true
        else if q.end == v.start || q.start == v.end then
          false
        else
          ContainsStamp(q.end) || ContainsStamp(q.start) || q.ContainsStamp(start) || q.ContainsStamp(end)
    }

    /** Ordered bounds whose distance fits in a signed 64-bit span. */
    predicate Ordered() {
      start <= end && end - start < TWO_63
    }

    /** The distance of the bounds does not fit in a signed 64-bit span. */
    predicate Long() {
      end - start >= TWO_63
    }

    /** An ordered range holding at least one instant. */
    predicate Proper() {
      Ordered() && start < end
    }
  }

  /** Bounds the wrong way round, so far apart that their 64-bit difference is positive. */
  predicate Reversed(tr: TimeRange) {
    tr.start - tr.end > TWO_63
  }

  /** A range is valid exactly when its bounds are in order and not too far apart, or the wrong way round and very far apart. */
  lemma ValidMeaning(tr: TimeRange)
    ensures tr.Valid() <==> tr.Ordered() || Reversed(tr)
  {
  }

  /** What the overlap test makes of two ranges that share an instant. */
  predicate Noticed(a: TimeRange, b: TimeRange) {
    var encloses := b.start < a.start && a.end < b.end;
    if a.Long() && b.Long() then
      !encloses
    else if a.Long() || b.Long() then
      a.start != b.start && a.end != b.end && !(b.Long() && encloses)
    else
      true
  }

  /** Two ranges that share an instant overlap for the test exactly when it notices; it always does for ranges that are not long. */
  lemma SharedInstantNoticed(a: TimeRange, b: TimeRange, t: Stamp)
    requires a.ContainsStamp(t) && b.ContainsStamp(t)
    ensures a.OverlapsWith(b) <==> Noticed(a, b)
  {
  }

  /** The zero-width range standing for a single instant. */
  function At(t: Stamp): TimeRange {
    TimeRange(t, t)
  }

  /** On ordered ranges the overlap test means: they share an instant, a zero-width range being its own instant. */
  lemma OverlapMeaning(a: TimeRange, b: TimeRange)
    requires a.Ordered() && b.Ordered()
    ensures a.OverlapsWith(b) <==>
            a.start == b.start || (a.start < b.start < a.end) || (b.start < a.start < b.end)
  {
  }
}
