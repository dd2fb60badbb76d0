/**
 Garbage collection of one file of a domain store (cesium/internal/domain/delete.go:246-379).

 The pointers on the file are snapshotted, their blobs copied into a compacted file, and the
 pointers the index holds by then are relocated by the 32-bit offset delta of the snapshot
 pointer whose time range contains theirs.
 */
module DomainGC {
  import opened Telem
  import opened DomainIndex

  // ----- Snapshot and copy -----

  /** The pointers on file `key`, in index order. */
  function OnFile(ps: seq<Pointer>, key: U16): seq<Pointer> {
    if ps == [] then []
    else OnFile(ps[..|ps| - 1], key) + (if ps[|ps| - 1].fileKey == key then [ps[|ps| - 1]] else [])
  }

  lemma {:induction false} OnFileMembers(ps: seq<Pointer>, key: U16)
    ensures forall p :: p in OnFile(ps, key) <==> p in ps && p.fileKey == key
  {
    if ps != [] {
      OnFileMembers(ps[..|ps| - 1], key);
      assert ps == ps[..|ps| - 1] + [ps[|ps| - 1]];
    }
  }

  /** The snapshot inherits time order from the index. */
  lemma {:induction false} OnFileSorted(ps: seq<Pointer>, key: U16)
    requires Sorted(ps)
    ensures Sorted(OnFile(ps, key))
  {
    if ps != [] {
      var front, last := ps[..|ps| - 1], ps[|ps| - 1];
      OnFileSorted(front, key);
      OnFileMembers(front, key);
      assert Precedes(front, [last]);
      var rest := OnFile(front, key);
      forall i | 0 <= i < |rest|
        ensures rest[i].tr.end <= last.tr.start
      {
        assert rest[i] in front;
      }
      SortedConcat(rest, [last]);
    }
  }

  /** The snapshot inherits disjoint blobs from the index. */
  lemma {:induction false} OnFileApart(ps: seq<Pointer>, key: U16)
    requires AllApart(ps)
    ensures AllApart(OnFile(ps, key))
  {
    if ps != [] {
      var front, last := ps[..|ps| - 1], ps[|ps| - 1];
      OnFileApart(front, key);
      OnFileMembers(front, key);
      var rest := OnFile(front, key);
      forall i | 0 <= i < |rest|
        ensures Apart(rest[i], last)
      {
        assert rest[i] in front;
      }
    }
  }

  lemma OnFileStored(ps: seq<Pointer>, key: U16, files: Files)
    requires Stored(ps, files)
    ensures Stored(OnFile(ps, key), files)
    ensures forall k | 0 <= k < |OnFile(ps, key)| :: OnFile(ps, key)[k].fileKey == key
  {
    var snap := OnFile(ps, key);
    OnFileMembers(ps, key);
    OnFileApart(ps, key);
    forall k | 0 <= k < |snap|
      ensures snap[k].fileKey == key && snap[k].length > 0 && InBounds(snap[k], files)
    {
      assert snap[k] in ps;
    }
  }

  function Blob(p: Pointer, file: seq<Byte>): seq<Byte>
    requires p.offset + p.length <= |file|
  {
    file[p.offset..p.offset + p.length]
  }

  /** The compacted file: the blobs of the snapshot, one after another. */
  function Compact(snap: seq<Pointer>, file: seq<Byte>): seq<Byte>
    requires forall i | 0 <= i < |snap| :: snap[i].offset + snap[i].length <= |file|
  {
    if snap == [] then [] else Compact(snap[..|snap| - 1], file) + Blob(snap[|snap| - 1], file)
  }

  /** Where the blob of the `k`-th snapshot pointer lands. */
  function Landing(snap: seq<Pointer>, k: nat): nat
    requires k <= |snap|
  {
    LiveBytes(snap[..k])
  }

  lemma LandingNext(snap: seq<Pointer>, k: nat)
    requires k < |snap|
    ensures Landing(snap, k + 1) == Landing(snap, k) + snap[k].length
  {
    assert snap[..k + 1] == snap[..k] + [snap[k]];
    LiveBytesConcat(snap[..k], [snap[k]]);
  }

  lemma {:induction false} LandingMonotone(snap: seq<Pointer>, k: nat, l: nat)
    requires k < l <= |snap|
    ensures Landing(snap, k) + snap[k].length <= Landing(snap, l)
    decreases l
  {
    LandingNext(snap, l - 1);
    if k < l - 1 {
      LandingMonotone(snap, k, l - 1);
    }
  }

  lemma {:induction false} CompactLength(snap: seq<Pointer>, file: seq<Byte>)
    requires forall i | 0 <= i < |snap| :: snap[i].offset + snap[i].length <= |file|
    ensures |Compact(snap, file)| == LiveBytes(snap)
  {
    if snap != [] {
      var front := snap[..|snap| - 1];
      CompactLength(front, file);
      LandingNext(snap, |front|);
      assert snap[..|snap|] == snap;
    }
  }

  /** The compacted file holds every snapshot blob at its landing place. */
  lemma {:induction false} CompactHolds(snap: seq<Pointer>, file: seq<Byte>, k: nat)
    requires forall i | 0 <= i < |snap| :: snap[i].offset + snap[i].length <= |file|
    requires k < |snap|
    ensures Landing(snap, k) + snap[k].length <= |Compact(snap, file)|
    ensures Compact(snap, file)[Landing(snap, k)..Landing(snap, k) + snap[k].length] == Blob(snap[k], file)
  {
    var front := snap[..|snap| - 1];
    CompactLength(front, file);
    assert snap[..k] == front[..k];
    if k < |front| {
      CompactHolds(front, file, k);
    } else {
      assert front[..k] == front;
    }
  }

  // ----- Space -----

  /** The `n` byte positions from `lo` on. */
  function Interval(lo: int, n: nat): (s: set<int>)
    ensures |s| == n
    ensures forall b :: b in s <==> lo <= b < lo + n
  {
    if n == 0 then {} else Interval(lo, n - 1) + {lo + n - 1}
  }

  /** The byte positions of a blob. */
  function Positions(p: Pointer): set<int> {
    Interval(p.offset, p.length)
  }

  function AllPositions(snap: seq<Pointer>): set<int> {
    if snap == [] then {} else AllPositions(snap[..|snap| - 1]) + Positions(snap[|snap| - 1])
  }

  lemma {:induction false} AllPositionsBelow(snap: seq<Pointer>, n: nat)
    requires forall i | 0 <= i < |snap| :: snap[i].offset + snap[i].length <= n
    ensures AllPositions(snap) <= Interval(0, n)
  {
    if snap != [] {
      AllPositionsBelow(snap[..|snap| - 1], n);
    }
  }

  lemma {:induction false} AllPositionsApart(snap: seq<Pointer>, p: Pointer)
    requires forall i | 0 <= i < |snap| :: snap[i].fileKey == p.fileKey && Apart(snap[i], p)
    ensures AllPositions(snap) !! Positions(p)
  {
    if snap != [] {
      AllPositionsApart(snap[..|snap| - 1], p);
    }
  }

  lemma {:induction false} AllPositionsCount(snap: seq<Pointer>, key: U16)
    requires AllApart(snap) && forall i | 0 <= i < |snap| :: snap[i].fileKey == key
    ensures |AllPositions(snap)| == LiveBytes(snap)
  {
    if snap != [] {
      var front, last := snap[..|snap| - 1], snap[|snap| - 1];
      AllPositionsCount(front, key);
      AllPositionsApart(front, last);
      LiveBytesConcat(front, [last]);
      assert snap == front + [last];
    }
  }

  lemma SubsetCount(a: set<int>, b: set<int>)
    requires a <= b
    ensures |a| <= |b|
  {
    assert b == a + (b - a);
  }

  /**
   Compaction conserves space: the live blobs fit in the old file, so the tombstone size computed for it is never
   negative, and the compacted file is shorter by exactly that much.
   */
  lemma CompactionShrinks(snap: seq<Pointer>, file: seq<Byte>, key: U16)
    requires AllApart(snap)
    requires forall i | 0 <= i < |snap| :: snap[i].fileKey == key && snap[i].offset + snap[i].length <= |file|
    ensures var tombstones := |file| - LiveBytes(snap);
            tombstones >= 0 && |Compact(snap, file)| == |file| - tombstones
  {
    CompactLength(snap, file);
    AllPositionsCount(snap, key);
    AllPositionsBelow(snap, |file|);
    SubsetCount(AllPositions(snap), Interval(0, |file|));
  }

  // ----- Relocation -----

  type Deltas = map<TimeRange, U32>

  /** The delta map built while copying: one entry per snapshot blob that moves, in wrapping 32-bit arithmetic. */
  predicate DeltasOf(snap: seq<Pointer>, deltas: Deltas) {
    && FromSnapshot(snap, deltas)
    && (forall k | 0 <= k < |snap| :: DeltaAt(snap, deltas, k))
  }

  predicate DeltaAt(snap: seq<Pointer>, deltas: Deltas, k: nat)
    requires k < |snap|
  {
    DeltaEntry(snap[k], Wrap32(Landing(snap, k)), deltas)
  }

  predicate FromSnapshot(snap: seq<Pointer>, deltas: Deltas) {
    forall d | d in deltas :: exists k | 0 <= k < |snap| :: snap[k].tr == d
  }

  /** The entry for a snapshot pointer whose blob is copied to offset `at`. */
  predicate DeltaEntry(p: Pointer, at: U32, deltas: Deltas) {
    if at == p.offset then p.tr !in deltas else p.tr in deltas && deltas[p.tr] == Wrap32(p.offset - at)
  }

  datatype Resolution = Unmoved | Moved(delta: U32)

  /** What `resolvePointerOffset` may return: the delta of any entry containing the range, in whatever order the map is walked. */
  ghost predicate Resolves(tr: TimeRange, deltas: Deltas, res: Resolution) {
    match res
    case Unmoved => forall d | d in deltas :: !d.ContainsRange(tr)
    case Moved(delta) => exists d | d in deltas :: d.ContainsRange(tr) && deltas[d] == delta
  }

  function Relocate(p: Pointer, res: Resolution): Pointer {
    match res
    case Unmoved => p
    case Moved(delta) => p.(offset := Wrap32(p.offset - delta))
  }

  /** The index after the swap: pointers on the collected file relocated, all others untouched. */
  ghost predicate Relocated(ps: seq<Pointer>, key: U16, deltas: Deltas, after: seq<Pointer>) {
    && |after| == |ps|
    && forall i | 0 <= i < |ps| :: Relocation(ps[i], key, deltas, after[i])
  }

  ghost predicate Relocation(p: Pointer, key: U16, deltas: Deltas, q: Pointer) {
    if p.fileKey != key then q == p
    else exists res :: Resolves(p.tr, deltas, res) && q == Relocate(p, res)
  }

  lemma LiveBytesLast(ps: seq<Pointer>, key: U16)
    requires ps != []
    ensures var n := |ps| - 1;
            LiveBytes(OnFile(ps, key)) == LiveBytes(OnFile(ps[..n], key)) + (if ps[n].fileKey == key then ps[n].length else 0)
  {
    var n := |ps| - 1;
    LiveBytesConcat(OnFile(ps[..n], key), if ps[n].fileKey == key then [ps[n]] else []);
  }

  /** Relocation leaves the pointers on other files alone, and the bytes each file holds. */
  lemma {:induction false} RelocationKeepsLive(ps: seq<Pointer>, key: U16, deltas: Deltas, after: seq<Pointer>, k: U16)
    requires Relocated(ps, key, deltas, after)
    ensures LiveBytes(OnFile(after, k)) == LiveBytes(OnFile(ps, k))
    ensures k != key ==> OnFile(after, k) == OnFile(ps, k)
  {
    if ps != [] {
      var n := |ps| - 1;
      RelocationKeepsLive(ps[..n], key, deltas, after[..n], k);
      assert Relocation(ps[n], key, deltas, after[n]);
      LiveBytesLast(ps, k);
      LiveBytesLast(after, k);
    }
  }

  /** Every pointer now on the file is a piece of some snapshot pointer. */
  predicate Descends(ps: seq<Pointer>, key: U16, snap: seq<Pointer>) {
    forall i | 0 <= i < |ps| && ps[i].fileKey == key :: exists k | 0 <= k < |snap| :: Within(ps[i], snap[k])
  }

  lemma OnFileDescends(ps: seq<Pointer>, key: U16)
    ensures Descends(ps, key, OnFile(ps, key))
  {
    var snap := OnFile(ps, key);
    OnFileMembers(ps, key);
    forall i | 0 <= i < |ps| && ps[i].fileKey == key
      ensures exists k | 0 <= k < |snap| :: Within(ps[i], snap[k])
    {
      assert ps[i] in snap;
      var k :| 0 <= k < |snap| && snap[k] == ps[i];
      assert Within(ps[i], snap[k]);
    }
  }

  /** Resolving a piece of the `k`-th snapshot blob finds the entry of that blob, in whatever order the map is walked. */
  lemma ResolvesToOrigin(snap: seq<Pointer>, deltas: Deltas, k: nat, at: U32, tr: TimeRange, res: Resolution)
    requires Sorted(snap) && FromSnapshot(snap, deltas)
    requires k < |snap| && DeltaEntry(snap[k], at, deltas)
    requires snap[k].tr.ContainsRange(tr) && tr.Proper()
    requires Resolves(tr, deltas, res)
    ensures res == if at == snap[k].offset then Unmoved else Moved(Wrap32(snap[k].offset - at))
  {
  }

  lemma RelocationArithmetic(p: Pointer, q: Pointer, n: nat, res: Resolution)
    requires Within(p, q) && p.length > 0 && n + q.length <= TWO_32
    requires res == if Wrap32(n) == q.offset then Unmoved else Moved(Wrap32(q.offset - Wrap32(n)))
    ensures Relocate(p, res).offset == n + (p.offset - q.offset)
  {
  }

  /**
   A piece of a snapshot blob moves with that blob: it keeps its distance from the start of the blob.  The deltas wrap,
   since pointers are in time order and not in offset order, and the wraps cancel.
   */
  lemma PieceMovesWithBlob(snap: seq<Pointer>, deltas: Deltas, k: nat, p: Pointer, res: Resolution)
    requires Sorted(snap) && DeltasOf(snap, deltas)
    requires k < |snap| && Within(p, snap[k]) && p.tr.Proper() && p.length > 0
    requires Landing(snap, k) + snap[k].length <= TWO_32
    requires Resolves(p.tr, deltas, res)
    ensures Relocate(p, res).offset == Landing(snap, k) + (p.offset - snap[k].offset)
  {
    assert DeltaAt(snap, deltas, k);
    ResolvesToOrigin(snap, deltas, k, Wrap32(Landing(snap, k)), p.tr, res);
    RelocationArithmetic(p, snap[k], Landing(snap, k), res);
  }

  /** What a collection knows when it swaps the files. */
  predicate Collectable(ps: seq<Pointer>, files: Files, key: U16, snap: seq<Pointer>, deltas: Deltas) {
    && Sorted(ps) && Stored(ps, files) && key in files
    && Sorted(snap) && Stored(snap, files) && (forall k | 0 <= k < |snap| :: snap[k].fileKey == key)
    && Descends(ps, key, snap) && DeltasOf(snap, deltas)
  }

  function Swapped(files: Files, key: U16, snap: seq<Pointer>): Files
    requires key in files && forall k | 0 <= k < |snap| :: snap[k].offset + snap[k].length <= |files[key]|
  {
    files[key := Compact(snap, files[key])]
  }

  /** `file'` is what is left of a file once only the blobs of `snap` are kept. */
  predicate Compacted(snap: seq<Pointer>, file: seq<Byte>, file': seq<Byte>) {
    && (forall k | 0 <= k < |snap| :: snap[k].offset + snap[k].length <= |file|)
    && file' == Compact(snap, file) && |file'| == LiveBytes(snap)
  }

  /** Enough of the file is unused, and no one reads it. */
  predicate Wasteful(ps: seq<Pointer>, key: U16, file: seq<Byte>, readers: set<U16>, threshold: int) {
    key !in readers && |file| - LiveBytes(OnFile(ps, key)) >= threshold
  }

  /** A collection takes the file: it is full, no one writes it, and it is wasteful. */
  predicate Collects(ps: seq<Pointer>, key: U16, file: seq<Byte>, writers: set<U16>, readers: set<U16>, fileSize: nat, threshold: int) {
    key !in writers && |file| >= fileSize && Wasteful(ps, key, file, readers, threshold)
  }

  /** The file is compacted, or it is left as it was. */
  predicate FileAfter(ps: seq<Pointer>, key: U16, file: seq<Byte>, file': seq<Byte>, collected: bool) {
    if collected then Compacted(OnFile(ps, key), file, file') else file' == file
  }

  /** What collecting the files up to `last` makes of each of them. */
  ghost predicate AllAfter(ps: seq<Pointer>, files: Files, files': Files, last: int, writers: set<U16>, readers: set<U16>, fileSize: nat,
                           threshold: int)
  {
    && files'.Keys == files.Keys
    && forall k | k in files ::
         FileAfter(ps, k, files[k], files'[k], 1 <= k <= last && Collects(ps, k, files[k], writers, readers, fileSize, threshold))
  }

  /** A file is collected exactly when it should be and all before it are there, `last + 1` being the first that is missing. */
  lemma CollectedFiles(ps: seq<Pointer>, files: Files, files': Files, last: int, counter: U16, writers: set<U16>, readers: set<U16>,
                       fileSize: nat, threshold: int)
    requires AllAfter(ps, files, files', last, writers, readers, fileSize, threshold) && 0 <= last <= counter
    requires forall k: U16 | 1 <= k <= last :: k in writers || k in files
    requires last < counter ==> last + 1 !in writers && last + 1 !in files
    ensures forall k | k in files ::
              FileAfter(ps, k, files[k], files'[k],
                && 1 <= k <= counter && (forall j: U16 | 1 <= j < k :: j in writers || j in files)
                && Collects(ps, k, files[k], writers, readers, fileSize, threshold))
  {
    forall k | k in files && k !in writers
      ensures (1 <= k <= counter && forall j: U16 | 1 <= j < k :: j in writers || j in files) <==> 1 <= k <= last
    {
      if last < k <= counter {
        var missing: U16 := last + 1;
        assert missing !in writers && missing !in files;
      }
    }
  }

  lemma SliceOfSlice(s: seq<Byte>, lo: nat, n: nat, d: nat, m: nat)
    requires lo + n <= |s| && d + m <= n
    ensures s[lo..lo + n][d..d + m] == s[lo + d..lo + d + m]
  {
    var a, b := s[lo..lo + n][d..d + m], s[lo + d..lo + d + m];
    assert |a| == |b| && forall i | 0 <= i < m :: a[i] == s[lo + d + i] && b[i] == s[lo + d + i];
  }

  /** A piece of a snapshot blob reads the same from the compacted file, at the same distance from where the blob lands. */
  lemma CopyReadsSame(snap: seq<Pointer>, file: seq<Byte>, k: nat, p: Pointer)
    requires forall i | 0 <= i < |snap| :: snap[i].offset + snap[i].length <= |file|
    requires k < |snap| && Within(p, snap[k])
    ensures var at := Landing(snap, k) + (p.offset - snap[k].offset);
            && at + p.length <= |Compact(snap, file)|
            && Compact(snap, file)[at..at + p.length] == Blob(p, file)
  {
    CompactHolds(snap, file, k);
    var d := p.offset - snap[k].offset;
    SliceOfSlice(Compact(snap, file), Landing(snap, k), snap[k].length, d, p.length);
    SliceOfSlice(file, snap[k].offset, snap[k].length, d, p.length);
  }

  /** One relocated pointer: only its offset changes, and it lands with its blob. */
  lemma PieceLands(ps: seq<Pointer>, files: Files, key: U16, snap: seq<Pointer>, deltas: Deltas, after: seq<Pointer>, i: nat, k: nat)
    requires Collectable(ps, files, key, snap, deltas) && Relocated(ps, key, deltas, after)
    requires i < |ps| && ps[i].fileKey == key && k < |snap| && Within(ps[i], snap[k])
    ensures after[i].offset == Landing(snap, k) + (ps[i].offset - snap[k].offset)
    ensures after[i] == ps[i].(offset := after[i].offset)
  {
    CompactionShrinks(snap, files[key], key);
    CompactHolds(snap, files[key], k);
    assert Relocation(ps[i], key, deltas, after[i]);
    var res :| Resolves(ps[i].tr, deltas, res) && after[i] == Relocate(ps[i], res);
    PieceMovesWithBlob(snap, deltas, k, ps[i], res);
  }

  /** One relocated pointer reads the same bytes from the swapped file. */
  lemma PieceReadsSame(ps: seq<Pointer>, files: Files, key: U16, snap: seq<Pointer>, deltas: Deltas, after: seq<Pointer>, i: nat, k: nat)
    requires Collectable(ps, files, key, snap, deltas) && Relocated(ps, key, deltas, after)
    requires i < |ps| && ps[i].fileKey == key && k < |snap| && Within(ps[i], snap[k])
    ensures InBounds(after[i], Swapped(files, key, snap))
    ensures Read(after[i], Swapped(files, key, snap)) == Read(ps[i], files)
  {
    PieceLands(ps, files, key, snap, deltas, after, i, k);
    CopyReadsSame(snap, files[key], k, ps[i]);
  }

  lemma OriginsOrdered(snap: seq<Pointer>, a: TimeRange, b: TimeRange, k: nat, l: nat)
    requires Sorted(snap) && k < |snap| && l < |snap| && a.Proper() && b.Proper() && a.end <= b.start
    requires snap[k].tr.ContainsRange(a) && snap[l].tr.ContainsRange(b)
    ensures k <= l
  {
  }

  lemma MovedApart(p: Pointer, p': Pointer, q: Pointer, q': Pointer, n: nat, n': nat, r: Pointer, r': Pointer)
    requires Within(p, q) && Within(p', q') && Apart(p, p')
    requires (q == q' && n == n') || n + q.length <= n'
    requires r == p.(offset := r.offset) && r.offset == n + (p.offset - q.offset)
    requires r' == p'.(offset := r'.offset) && r'.offset == n' + (p'.offset - q'.offset)
    ensures Apart(r, r')
  {
  }

  /** Two relocated pieces still share no byte. */
  lemma PiecesStayApart(ps: seq<Pointer>, files: Files, key: U16, snap: seq<Pointer>, deltas: Deltas, after: seq<Pointer>, i: nat, j: nat)
    requires Collectable(ps, files, key, snap, deltas) && Relocated(ps, key, deltas, after)
    requires i < j < |ps|
    ensures Apart(after[i], after[j])
  {
    assert Relocation(ps[i], key, deltas, after[i]) && Relocation(ps[j], key, deltas, after[j]);
    if ps[i].fileKey == key && ps[j].fileKey == key {
      var k :| 0 <= k < |snap| && Within(ps[i], snap[k]);
      var l :| 0 <= l < |snap| && Within(ps[j], snap[l]);
      PieceLands(ps, files, key, snap, deltas, after, i, k);
      PieceLands(ps, files, key, snap, deltas, after, j, l);
      OriginsOrdered(snap, ps[i].tr, ps[j].tr, k, l);
      if k < l {
        LandingMonotone(snap, k, l);
      }
      MovedApart(ps[i], ps[j], snap[k], snap[l], Landing(snap, k), Landing(snap, l), after[i], after[j]);
    }
  }

  /**
   Collection is invisible to readers.  However deletions split or removed pointers since the snapshot, and in whatever
   order the delta map is walked, the index and files after the swap show the same domains with the same bytes, still
   sorted, in bounds and sharing no byte.
   */
  lemma CollectionInvisible(ps: seq<Pointer>, files: Files, key: U16, snap: seq<Pointer>, deltas: Deltas, after: seq<Pointer>)
    requires Collectable(ps, files, key, snap, deltas) && Relocated(ps, key, deltas, after)
    ensures Sorted(after) && Stored(after, Swapped(files, key, snap))
    ensures View(after, Swapped(files, key, snap)) == View(ps, files)
  {
    var files' := Swapped(files, key, snap);
    CompactionShrinks(snap, files[key], key);
    forall i | 0 <= i < |ps|
      ensures after[i].tr == ps[i].tr && after[i].length == ps[i].length
      ensures InBounds(after[i], files') && Read(after[i], files') == Read(ps[i], files)
    {
      assert Relocation(ps[i], key, deltas, after[i]);
      if ps[i].fileKey == key {
        var k :| 0 <= k < |snap| && Within(ps[i], snap[k]);
        PieceLands(ps, files, key, snap, deltas, after, i, k);
        PieceReadsSame(ps, files, key, snap, deltas, after, i, k);
      }
    }
    forall i, j | 0 <= i < j < |ps|
      ensures Apart(after[i], after[j])
    {
      PiecesStayApart(ps, files, key, snap, deltas, after, i, j);
    }
  }
}
