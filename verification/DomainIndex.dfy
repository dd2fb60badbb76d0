/**
 The in-memory index of a domain store (cesium/internal/domain/index.go, pointer.go):
 a slice of pointers, each naming the blob of one time domain inside a file.
 */
module DomainIndex {
  import opened Telem

  const TWO_32: int := 0x1_0000_0000

  type U16 = x: int | 0 <= x < 0x1_0000
  type U32 = x: int | 0 <= x < 0x1_0000_0000
  type Byte = x: int | 0 <= x < 256

  /** The unsigned 32-bit value congruent to `x`. */
  function Wrap32(x: int): U32 {
    x % 0x1_0000_0000
  }

  datatype Pointer = Pointer(tr: TimeRange, fileKey: U16, offset: U32, length: U32)

  type Files = map<U16, seq<Byte>>

  // ----- Time order -----

  /** Every time range in `a` ends no later than any in `b` starts. */
  predicate Precedes(a: seq<Pointer>, b: seq<Pointer>) {
    forall i, j | 0 <= i < |a| && 0 <= j < |b| :: a[i].tr.end <= b[j].tr.start
  }

  /** The guarantee stated for the index: proper time ranges, in order, none overlapping another. */
  predicate Sorted(ps: seq<Pointer>) {
    && (forall i | 0 <= i < |ps| :: ps[i].tr.Proper())
    && (forall i, j | 0 <= i < j < |ps| :: ps[i].tr.end <= ps[j].tr.start)
  }

  lemma SortedConcat(a: seq<Pointer>, b: seq<Pointer>)
    ensures Sorted(a + b) <==> Sorted(a) && Sorted(b) && Precedes(a, b)
  {
    var c := a + b;
    assert forall i | 0 <= i < |a| :: c[i] == a[i];
    assert forall j | 0 <= j < |b| :: c[|a| + j] == b[j];
  }

  lemma SlicesSorted(ps: seq<Pointer>, i: nat, j: nat)
    requires Sorted(ps) && i <= j <= |ps|
    ensures Sorted(ps[..i]) && Sorted(ps[j..]) && Precedes(ps[..i], ps[j..])
  {
  }

  // ----- Bytes -----

  /** The blob named by `p` lies inside an existing file. */
  predicate InBounds(p: Pointer, files: Files) {
    p.fileKey in files && p.offset + p.length <= |files[p.fileKey]|
  }

  /** The byte intervals of `p` and `q` do not meet. */
  predicate Apart(p: Pointer, q: Pointer) {
    p.fileKey != q.fileKey || p.offset + p.length <= q.offset || q.offset + q.length <= p.offset
  }

  predicate AllApart(ps: seq<Pointer>) {
    forall i, j | 0 <= i < j < |ps| :: Apart(ps[i], ps[j])
  }

  lemma ApartConcat(a: seq<Pointer>, b: seq<Pointer>)
    requires AllApart(a) && AllApart(b)
    requires forall i, j | 0 <= i < |a| && 0 <= j < |b| :: Apart(a[i], b[j])
    ensures AllApart(a + b)
  {
  }

  /** Blobs are non-empty and in bounds, no two share a byte, and offsets of every file fit in 32 bits. */
  predicate Stored(ps: seq<Pointer>, files: Files) {
    && (forall k | k in files :: |files[k]| <= TWO_32)
    && (forall i | 0 <= i < |ps| :: ps[i].length > 0 && InBounds(ps[i], files))
    && AllApart(ps)
  }

  /** `p` names part of the blob of `q`, for part of the time of `q`. */
  predicate Within(p: Pointer, q: Pointer) {
    && p.fileKey == q.fileKey
    && q.tr.ContainsRange(p.tr)
    && q.offset <= p.offset
    && p.offset + p.length <= q.offset + q.length
  }

  function Read(p: Pointer, files: Files): seq<Byte>
    requires InBounds(p, files)
  {
    files[p.fileKey][p.offset..p.offset + p.length]
  }

  /** What a reader of the store sees: the domains in time order, each with its bytes. */
  datatype Domain = Domain(tr: TimeRange, data: seq<Byte>)

  function View(ps: seq<Pointer>, files: Files): seq<Domain>
    requires forall i | 0 <= i < |ps| :: InBounds(ps[i], files)
  {
    seq(|ps|, i requires 0 <= i < |ps| => Domain(ps[i].tr, Read(ps[i], files)))
  }

  lemma ViewConcat(a: seq<Pointer>, b: seq<Pointer>, files: Files)
    requires forall i | 0 <= i < |a + b| :: InBounds((a + b)[i], files)
    ensures forall i | 0 <= i < |a| :: InBounds(a[i], files)
    ensures forall i | 0 <= i < |b| :: InBounds(b[i], files)
    ensures View(a + b, files) == View(a, files) + View(b, files)
  {
    assert forall i | 0 <= i < |a| :: (a + b)[i] == a[i];
    assert forall i | 0 <= i < |b| :: (a + b)[|a| + i] == b[i];
  }

  lemma ViewSlices(ps: seq<Pointer>, files: Files, k: nat)
    requires k <= |ps| && forall i | 0 <= i < |ps| :: InBounds(ps[i], files)
    ensures View(ps[..k], files) == View(ps, files)[..k]
    ensures View(ps[k..], files) == View(ps, files)[k..]
  {
  }

  /** Bytes named by the index. */
  function LiveBytes(ps: seq<Pointer>): nat {
    if ps == [] then 0 else ps[0].length + LiveBytes(ps[1..])
  }

  lemma {:induction false} LiveBytesConcat(a: seq<Pointer>, b: seq<Pointer>)
    ensures LiveBytes(a + b) == LiveBytes(a) + LiveBytes(b)
  {
    if a == [] {
      assert a + b == b;
    } else {
      assert (a + b)[1..] == a[1..] + b;
      LiveBytesConcat(a[1..], b);
    }
  }

  // ----- Search -----

  /** What `unprotectedSearch` promises for a query `q`: an overlapping domain, or else the last one before it. */
  predicate Found(ps: seq<Pointer>, q: TimeRange, i: int, exact: bool) {
    if exact then
      0 <= i < |ps| && ps[i].tr.OverlapsWith(q)
    else
      && -1 <= i < |ps|
      && (forall j | 0 <= j <= i :: ps[j].tr.end <= q.start)
      && (forall j | i < j < |ps| :: q.start < ps[j].tr.start && q.end <= ps[j].tr.start)
  }

  /** The binary search of the index. */
  method UnprotectedSearch(ps: seq<Pointer>, q: TimeRange) returns (i: int, exact: bool)
    requires Sorted(ps) && q.Ordered()
    ensures Found(ps, q, i, exact)
  {
    if |ps| == 0 {
      return -1, false;
    }
    var start, end := 0, |ps| - 1;
    while start <= end
      invariant 0 <= start <= end + 1 <= |ps|
      invariant forall j | 0 <= j < start :: ps[j].tr.end <= q.start
      invariant forall j | end < j < |ps| :: q.start < ps[j].tr.start && q.end <= ps[j].tr.start
    {
      var mid := (start + end) / 2;
      var ptr := ps[mid];
      OverlapMeaning(ptr.tr, q);
      if ptr.tr.OverlapsWith(q) {
        return mid, true;
      }
      if q.start < ptr.tr.start {
        end := mid - 1;
      } else {
        start := mid + 1;
      }
    }
    return end, false;
  }

  /** Searching for a range inside an indexed domain finds that domain and no other. */
  lemma SearchFindsOwner(ps: seq<Pointer>, q: TimeRange, k: nat, i: int, exact: bool)
    requires Sorted(ps) && q.Proper() && k < |ps| && ps[k].tr.ContainsRange(q) && Found(ps, q, i, exact)
    ensures exact && i == k
  {
    OverlapMeaning(ps[k].tr, q);
    if exact {
      OverlapMeaning(ps[i].tr, q);
    }
  }

  /** Index of the last domain starting at or before `t`, or -1. */
  function LastAtOrBefore(ps: seq<Pointer>, t: Stamp): (i: int)
    ensures -1 <= i < |ps|
  {
    if ps == [] then -1
    else if ps[|ps| - 1].tr.start <= t then |ps| - 1
    else LastAtOrBefore(ps[..|ps| - 1], t)
  }

  lemma {:induction false} LastAtOrBeforeBounds(ps: seq<Pointer>, t: Stamp)
    requires Sorted(ps)
    ensures forall j | 0 <= j <= LastAtOrBefore(ps, t) :: ps[j].tr.start <= t
    ensures forall j | LastAtOrBefore(ps, t) < j < |ps| :: t < ps[j].tr.start
  {
    if ps != [] {
      var front := ps[..|ps| - 1];
      assert forall j | 0 <= j < |front| :: front[j] == ps[j];
      LastAtOrBeforeBounds(front, t);
    }
  }

  /** For a single instant the search is a function: the last domain starting no later, exact when it covers the instant. */
  lemma StampSearchUnique(ps: seq<Pointer>, t: Stamp, i: int, exact: bool)
    requires Sorted(ps) && Found(ps, At(t), i, exact)
    ensures i == LastAtOrBefore(ps, t)
    ensures exact <==> i >= 0 && t < ps[i].tr.end
  {
    var k := LastAtOrBefore(ps, t);
    LastAtOrBeforeBounds(ps, t);
    if exact {
      OverlapMeaning(ps[i].tr, At(t));
    }
  }

  // ----- Insertion -----

  /** `p` placed at position `k`. */
  function InsertAt(ps: seq<Pointer>, k: nat, p: Pointer): seq<Pointer>
    requires k <= |ps|
  {
    ps[..k] + [p] + ps[k..]
  }

  /** A pointer may go between the domains that end before it and those that start after it. */
  predicate FitsAt(ps: seq<Pointer>, k: nat, p: Pointer)
  {
    && k <= |ps|
    && (forall j | 0 <= j < k :: ps[j].tr.end <= p.tr.start)
    && (forall j | k <= j < |ps| :: p.tr.end <= ps[j].tr.start)
  }

  /** A pointer that fits, and starts before the domains that follow, overlaps no domain. */
  lemma FitsMeansDisjoint(ps: seq<Pointer>, k: nat, p: Pointer)
    requires Sorted(ps) && p.tr.Ordered() && FitsAt(ps, k, p) && forall j | k <= j < |ps| :: p.tr.start < ps[j].tr.start
    ensures forall j | 0 <= j < |ps| :: !ps[j].tr.OverlapsWith(p.tr)
  {
  }

  /** Inserting keeps the index sorted exactly where the pointer fits. */
  lemma InsertSorted(ps: seq<Pointer>, k: nat, p: Pointer)
    requires Sorted(ps) && p.tr.Proper() && k <= |ps|
    ensures Sorted(InsertAt(ps, k, p)) <==> FitsAt(ps, k, p)
  {
    assert ps == ps[..k] + ps[k..];
    SortedConcat(ps[..k], ps[k..]);
    SortedConcat(ps[..k], [p]);
    SortedConcat(ps[..k] + [p], ps[k..]);
    assert forall j | k <= j < |ps| :: ps[k..][j - k] == ps[j];
    assert (ps[..k] + [p])[k] == p;
  }

  /** Inserting a pointer apart from all others keeps blobs in bounds and disjoint, and adds its domain for readers. */
  lemma InsertStored(ps: seq<Pointer>, files: Files, k: nat, p: Pointer)
    requires Stored(ps, files) && k <= |ps| && p.length > 0 && InBounds(p, files)
    requires forall i | 0 <= i < |ps| :: Apart(ps[i], p)
    ensures Stored(InsertAt(ps, k, p), files)
    ensures View(InsertAt(ps, k, p), files) == View(ps, files)[..k] + [Domain(p.tr, Read(p, files))] + View(ps, files)[k..]
  {
    var a, b := ps[..k], ps[k..];
    InsertApart(ps, k, p);
    ViewConcat(a, [p], files);
    ViewConcat(a + [p], b, files);
    ViewSlices(ps, files, k);
  }

  // ----- Extension in place -----

  /** `p` may replace the domain at `k`, which starts with it, without overlapping the neighbours. */
  predicate ReplacesAt(ps: seq<Pointer>, k: nat, p: Pointer) {
    && k < |ps| && ps[k].tr.start == p.tr.start
    && (k > 0 ==> !ps[k - 1].tr.OverlapsWith(p.tr))
    && (k + 1 < |ps| ==> !ps[k + 1].tr.OverlapsWith(p.tr))
  }

  /** Looking at the neighbours is enough: replacing a domain keeps the index sorted exactly when neither overlaps. */
  lemma ReplaceSorted(ps: seq<Pointer>, k: nat, p: Pointer)
    requires Sorted(ps) && p.tr.Proper() && k < |ps| && ps[k].tr.start == p.tr.start
    ensures Sorted(ps[k := p]) <==> ReplacesAt(ps, k, p)
  {
    var r := ps[k := p];
    assert r[k] == p && (k > 0 ==> r[k - 1] == ps[k - 1]) && (k + 1 < |ps| ==> r[k + 1] == ps[k + 1]);
    if k > 0 {
      OverlapMeaning(ps[k - 1].tr, p.tr);
    }
    if k + 1 < |ps| {
      OverlapMeaning(ps[k + 1].tr, p.tr);
      assert ps[k + 1].tr.start > p.tr.start;
    }
    if ReplacesAt(ps, k, p) {
      forall j | k < j < |ps|
        ensures p.tr.end <= ps[j].tr.start
      {
        assert ps[k + 1].tr.start <= ps[j].tr.start;
      }
    }
  }

  /** `p` is what `q` has become: the same domain and blob, perhaps longer. */
  predicate Became(q: Pointer, p: Pointer) {
    && p.tr.start == q.tr.start && q.tr.end <= p.tr.end
    && p.fileKey == q.fileKey && p.offset == q.offset && q.length <= p.length
  }

  /** Extending a domain keeps blobs in bounds and disjoint, and adds bytes at the end of what readers see of it. */
  lemma ExtendStored(ps: seq<Pointer>, files: Files, k: nat, p: Pointer)
    requires Stored(ps, files) && k < |ps| && InBounds(p, files)
    requires p.fileKey == ps[k].fileKey && p.offset == ps[k].offset && ps[k].length <= p.length
    requires forall i | 0 <= i < |ps| && i != k :: Apart(ps[i], p)
    ensures Stored(ps[k := p], files)
    ensures View(ps[k := p], files) == View(ps, files)[k := Domain(p.tr, Read(p, files))]
    ensures Read(ps[k], files) <= Read(p, files)
  {
  }

  lemma InsertApart(ps: seq<Pointer>, k: nat, p: Pointer)
    requires AllApart(ps) && k <= |ps| && forall i | 0 <= i < |ps| :: Apart(ps[i], p)
    ensures AllApart(InsertAt(ps, k, p))
  {
  }
}
