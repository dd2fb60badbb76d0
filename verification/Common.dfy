/** What several modules need. */
module Common {

  datatype Option<+T> = None | Some(value: T) {
    function GetOr(default: T): T {
      if None? then default else value
    }
  }

  /** A finite set listed in some order. */
  lemma {:induction false} Enumerate<T(!new)>(s: set<T>) returns (order: seq<T>)
    ensures |order| == |s|
    ensures forall x :: x in order <==> x in s
    ensures forall i, j | 0 <= i < j < |order| :: order[i] != order[j]
  {
    if s == {} {
      order := [];
    } else {
      var x :| x in s;
      var rest := Enumerate(s - {x});
      order := [x] + rest;
    }
  }

  /** Every element is related to each later one. */
  ghost predicate Pairwise<T(!new)>(s: seq<T>, rel: (T, T) -> bool) {
    forall i, j | 0 <= i < j < |s| :: rel(s[i], s[j])
  }

  lemma PairwiseInsert<T(!new)>(s: seq<T>, pos: nat, x: T, rel: (T, T) -> bool)
    requires Pairwise(s, rel) && pos <= |s| && forall i | 0 <= i < |s| :: rel(s[i], x) && rel(x, s[i])
    ensures Pairwise(s[..pos] + [x] + s[pos..], rel)
  {
  }

  lemma PairwiseRemove<T(!new)>(s: seq<T>, i: nat, rel: (T, T) -> bool)
    requires Pairwise(s, rel) && i < |s|
    ensures Pairwise(s[..i] + s[i + 1..], rel)
  {
  }

  /** Consecutive multiples of `d` are at least `d` apart. */
  lemma {:induction false} StepUp(a: int, b: int, d: int)
    requires d > 0 && a < b
    ensures a * d + d <= b * d
    decreases b - a
  {
    assert (b - 1) * d + d == b * d;
    if a < b - 1 {
      StepUp(a, b - 1, d);
    }
  }

  /** The quotient and the remainder of what lies between two multiples. */
  lemma Divides(x: int, q: int, d: int)
    requires d > 0 && q * d <= x < q * d + d
    ensures x / d == q && x % d == x - q * d
  {
    var p := x / d;
    assert x == p * d + x % d;
    if p > q {
      StepUp(q, p, d);
    } else if p < q {
      StepUp(p, q, d);
    }
  }
}
