/**
 The domain store as a mutable object: an index of pointers, the files they point into, and the
 index file (cesium/internal/domain/index.go:32-77, delete.go).  Methods are specified by the
 functions and relations of the other domain modules.
 */
module DomainStore {
  import opened Telem
  import opened DomainIndex
  import opened DomainDelete
  import opened DomainGC
  import opened IndexPersist

  // ----- Planning a deletion -----

  /** Looks up the first domain greater than or containing `t`. */
  method LocateStart(ps: seq<Pointer>, offsetOf: Calculator, t: Stamp, density: nat) returns (r: Lookup)
    requires Sorted(ps)
    ensures r == LookupStart(ps, offsetOf, t, density)
  {
    var i, exact := UnprotectedSearch(ps, Telem.At(t));
    StampSearchUnique(ps, t, i, exact);
    if exact {
      match offsetOf(ps[i].tr.start, t)
      case CalcError => return Failed;
      case CalcOk(offset, at) => return Boundary(i, ps[i], offset * density, at);
    }
    i := i + 1;
    if i == |ps| {
      return Nothing;
    }
    return Boundary(i, ps[i], 0, ps[i].tr.start);
  }

  /** Looks up the last domain less than or containing `t`. */
  method LocateEnd(ps: seq<Pointer>, offsetOf: Calculator, t: Stamp, density: nat) returns (r: Lookup)
    requires Sorted(ps)
    ensures r == LookupEnd(ps, offsetOf, t, density)
  {
    var i, exact := UnprotectedSearch(ps, Telem.At(t));
    StampSearchUnique(ps, t, i, exact);
    if exact {
      match offsetOf(ps[i].tr.start, t)
      case CalcError => return Failed;
      case CalcOk(offset, at) => return Boundary(i, ps[i], ps[i].length - offset * density, at);
    }
    if i == -1 {
      return Nothing;
    }
    return Boundary(i, ps[i], 0, ps[i].tr.end);
  }

  /** The position of the saved start pointer, looked up again when it has moved. */
  method RelookupStart(ps: seq<Pointer>, saved: Pointer, oldPos: nat) returns (pos: int)
    requires Sorted(ps) && saved.tr.Ordered() && oldPos < |ps|
    ensures StartRelooksTo(ps, saved, oldPos, pos)
  {
    pos := oldPos;
    if ps[oldPos] != saved {
      var exact;
      pos, exact := UnprotectedSearch(ps, saved.tr);
      ghost var i := pos;
      if !exact {
        pos := pos + 1;
      }
      assert Found(ps, saved.tr, i, exact) && pos == if exact then i else i + 1;
    }
  }

  /** The position of the saved end pointer, looked up again when it has moved. */
  method RelookupEnd(ps: seq<Pointer>, saved: Pointer, oldPos: nat) returns (pos: int)
    requires Sorted(ps) && saved.tr.Ordered() && oldPos < |ps|
    ensures EndRelooksTo(ps, saved, oldPos, pos)
  {
    pos := oldPos;
    if ps[oldPos] != saved {
      var exact;
      pos, exact := UnprotectedSearch(ps, saved.tr);
    }
  }

  lemma SpliceKeepsOrder(ps: seq<Pointer>, files: Files, startPos: nat, endPos: nat, plan: Plan)
    requires Sorted(ps) && Stored(ps, files) && startPos < |ps| && endPos < |ps|
    requires ps[startPos] == plan.start && ps[endPos] == plan.end && PlanSound(plan)
    ensures var v := ValidateDelete(ps, startPos, endPos, plan.startOffset, plan.endOffset);
            v.Proceed? ==> var r := Splice(ps, startPos, endPos, plan, v.startOffset, v.endOffset);
                           Sorted(r) && Stored(r, files) && startPos <= |r| && r[..startPos] == ps[..startPos]
  {
    var v := ValidateDelete(ps, startPos, endPos, plan.startOffset, plan.endOffset);
    ProceedIsApplicable(ps, startPos, endPos, plan);
    if v.Proceed? {
      SpliceSorted(ps, startPos, endPos, plan, v.startOffset, v.endOffset);
      SpliceStored(ps, files, startPos, endPos, plan, v.startOffset, v.endOffset);
    }
  }

  // ----- Collecting a file -----

  /** Collects the pointers on a file and the size of what they leave unused. */
  method SnapshotFile(ps: seq<Pointer>, key: U16, size: nat) returns (snap: seq<Pointer>, tombstoneSize: int)
    ensures snap == OnFile(ps, key)
    ensures tombstoneSize == size - LiveBytes(snap)
  {
    snap, tombstoneSize := [], size;
    for i := 0 to |ps|
      invariant snap == OnFile(ps[..i], key)
      invariant tombstoneSize == size - LiveBytes(snap)
    {
      assert ps[..i + 1][..i] == ps[..i];
      if ps[i].fileKey == key {
        LiveBytesConcat(snap, [ps[i]]);
        snap := snap + [ps[i]];
        tombstoneSize := tombstoneSize - ps[i].length;
      }
    }
    assert ps[..|ps|] == ps;
  }

  /** The delta map after copying one more snapshot pointer to offset `at`. */
  lemma DeltasExtend(snap: seq<Pointer>, i: nat, deltas: Deltas, at: U32, after: Deltas)
    requires Sorted(snap) && i < |snap| && at == Wrap32(Landing(snap, i))
    requires DeltasOf(snap[..i], deltas)
    requires after == if at == snap[i].offset then deltas else deltas[snap[i].tr := Wrap32(snap[i].offset - at)]
    ensures DeltasOf(snap[..i + 1], after)
  {
    var done, more := snap[..i], snap[..i + 1];
    assert snap[i].tr !in deltas;
    forall k | 0 <= k < |more|
      ensures DeltaAt(more, after, k)
    {
      assert more[..k] == snap[..k];
      if k < i {
        assert done[..k] == snap[..k];
        assert DeltaAt(done, deltas, k);
        assert done[k] == snap[k] && snap[k].tr.end <= snap[i].tr.start;
      }
    }
    forall d | d in after
      ensures exists k | 0 <= k < |more| :: more[k].tr == d
    {
      if d in deltas {
        var k :| 0 <= k < |done| && done[k].tr == d;
        assert more[k] == done[k];
      } else {
        assert more[i].tr == d;
      }
    }
  }

  /** The offset kept while copying is the landing place, wrapped. */
  lemma NextOffset(snap: seq<Pointer>, i: nat, at: U32)
    requires i < |snap| && at == Wrap32(Landing(snap, i))
    ensures Wrap32(at + snap[i].length) == Wrap32(Landing(snap, i + 1))
  {
    LandingNext(snap, i);
  }

  /** Copies the snapshot blobs into a new file, recording by how much each moves. */
  method CopyLive(snap: seq<Pointer>, file: seq<Byte>) returns (copy: seq<Byte>, deltas: Deltas)
    requires Sorted(snap) && forall k | 0 <= k < |snap| :: snap[k].offset + snap[k].length <= |file|
    ensures copy == Compact(snap, file)
    ensures DeltasOf(snap, deltas)
  {
    var newOffset: U32 := 0;
    copy, deltas := [], map[];
    for i := 0 to |snap|
      invariant copy == Compact(snap[..i], file)
      invariant newOffset == Wrap32(Landing(snap, i))
      invariant DeltasOf(snap[..i], deltas)
    {
      var ptr := snap[i];
      assert snap[..i + 1][..i] == snap[..i];
      copy := copy + Blob(ptr, file);
      ghost var before := deltas;
      if newOffset != ptr.offset {
        deltas := deltas[ptr.tr := Wrap32(ptr.offset - newOffset)];
      }
      DeltasExtend(snap, i, before, newOffset, deltas);
      NextOffset(snap, i, newOffset);
      newOffset := Wrap32(newOffset + ptr.length);
    }
    assert snap[..|snap|] == snap;
  }

  /** Walks the delta map for an entry containing `tr`. */
  method ResolvePointerOffset(tr: TimeRange, deltas: Deltas) returns (res: Resolution)
    ensures Resolves(tr, deltas, res)
  {
    var left := deltas.Keys;
    while left != {}
      invariant left <= deltas.Keys
      invariant forall d | d in deltas && d !in left :: !d.ContainsRange(tr)
      decreases |left|
    {
      var d :| d in left;
      if d.ContainsRange(tr) {
        return Moved(deltas[d]);
      }
      left := left - {d};
    }
    return Unmoved;
  }

  predicate NoneStartsAt(ps: seq<Pointer>, t: Stamp) {
    forall k | 0 <= k < |ps| :: ps[k].tr.start != t
  }

  /**
   The domain starting at `t`, the last one being looked at before searching.  A writer asks only for a domain it has
   committed, so that the first domain does not start later.
   */
  method FindStart(ps: seq<Pointer>, t: Stamp) returns (found: bool, at: nat)
    requires Sorted(ps) && (ps != [] ==> ps[0].tr.start <= t)
    ensures found <==> !NoneStartsAt(ps, t)
    ensures found ==> at < |ps| && ps[at].tr.start == t
  {
    if |ps| == 0 {
      return false, 0;
    }
    var updateAt: int := |ps| - 1;
    if t != ps[updateAt].tr.start {
      var exact;
      updateAt, exact := UnprotectedSearch(ps, At(t));
      StampSearchUnique(ps, t, updateAt, exact);
      LastAtOrBeforeBounds(ps, t);
    }
    return ps[updateAt].tr.start == t, updateAt;
  }

  /** Where a pointer goes, unless it overlaps a domain.  Going first or last is looked at before searching. */
  method FindSlot(ps: seq<Pointer>, p: Pointer) returns (overlap: bool, insertAt: nat)
    requires Sorted(ps) && p.tr.Ordered()
    ensures overlap <==> exists j | 0 <= j < |ps| :: ps[j].tr.OverlapsWith(p.tr)
    ensures !overlap ==> FitsAt(ps, insertAt, p)
  {
    insertAt := 0;
    if |ps| != 0 {
      if p.tr.start > ps[|ps| - 1].tr.end {
        insertAt := |ps|;
      } else if !(p.tr.end < ps[0].tr.start) {
        var i, found := UnprotectedSearch(ps, p.tr);
        if found {
          return true, 0;
        }
        insertAt := i + 1;
      }
    }
    FitsMeansDisjoint(ps, insertAt, p);
    return false, insertAt;
  }

  datatype InsertResult = Inserted | Conflict | InvalidKey

  datatype UpdateResult = Updated | UpdateConflict | RangeNotFound

  class DB {
    var pointers: seq<Pointer>
    var files: Files
    var indexFile: seq<Byte>

    ghost predicate Valid()
      reads this
    {
      Sorted(pointers) && Stored(pointers, files)
    }

    constructor ()
      ensures Valid() && pointers == [] && files == map[] && indexFile == []
    {
      pointers, files, indexFile := [], map[], [];
    }

    /** Writes the index from position `start` on. */
    method PersistFrom(start: nat)
      requires start <= |pointers|
      modifies this`indexFile
      ensures indexFile == Persist(old(indexFile), pointers, start)
    {
      indexFile := Truncate(indexFile, POINTER_BYTE_SIZE * |pointers|);
      var encoded := Encode(start, pointers);
      indexFile := WriteAt(indexFile, POINTER_BYTE_SIZE * start, encoded[..]);
    }

    /**
     Adds a pointer where it fits, or refuses it because it overlaps a domain or names no file.  A pointer without
     duration is taken too, and then the index no longer has proper domains only.
     */
    method Insert(p: Pointer, persist: bool) returns (r: InsertResult)
      requires Sorted(pointers) && p.tr.Ordered()
      modifies this`pointers, this`indexFile
      ensures Sorted(pointers) <==> !r.Inserted? || p.tr.Proper()
      ensures r.InvalidKey? <==> p.fileKey == 0
      ensures r.Conflict? <==> p.fileKey != 0 && exists j | 0 <= j < |old(pointers)| :: old(pointers)[j].tr.OverlapsWith(p.tr)
      ensures r.Inserted? ==> exists k :: FitsAt(old(pointers), k, p) && pointers == InsertAt(old(pointers), k, p)
      ensures !r.Inserted? ==> pointers == old(pointers)
      ensures indexFile == if r.Inserted? && persist then Persist(old(indexFile), pointers, 0) else old(indexFile)
    {
      if p.fileKey == 0 {
        return InvalidKey;
      }
      var overlap, insertAt := FindSlot(pointers, p);
      if overlap {
        return Conflict;
      }
      if p.tr.Proper() {
        InsertSorted(pointers, insertAt, p);
      }
      pointers := InsertAt(pointers, insertAt, p);
      assert pointers[insertAt] == p;
      if persist {
        // The first position that may be unwritten starts at zero and only ever decreases.
        PersistFrom(0);
      }
      return Inserted;
    }

    /** Replaces the domain starting with `p`, or refuses because there is none or a neighbour overlaps. */
    method Update(p: Pointer, persist: bool) returns (r: UpdateResult, at: nat)
      requires Sorted(pointers) && p.tr.Proper() && (pointers != [] ==> pointers[0].tr.start <= p.tr.start)
      modifies this`pointers, this`indexFile
      ensures Sorted(pointers)
      ensures r.RangeNotFound? <==> NoneStartsAt(old(pointers), p.tr.start)
      ensures !r.RangeNotFound? ==> at < |old(pointers)| && old(pointers)[at].tr.start == p.tr.start
      ensures r.Updated? <==> ReplacesAt(old(pointers), at, p)
      ensures pointers == if r.Updated? then old(pointers)[at := p] else old(pointers)
      ensures indexFile == if r.Updated? && persist then Persist(old(indexFile), pointers, 0) else old(indexFile)
    {
      var found;
      found, at := FindStart(pointers, p.tr.start);
      if !found {
        return RangeNotFound, |pointers|;
      }
      if at != 0 && pointers[at - 1].tr.OverlapsWith(p.tr) {
        return UpdateConflict, at;
      }
      if at != |pointers| - 1 && pointers[at + 1].tr.OverlapsWith(p.tr) {
        return UpdateConflict, at;
      }
      ReplaceSorted(pointers, at, p);
      pointers := pointers[at := p];
      if persist {
        PersistFrom(0);
      }
      return Updated, at;
    }

    /** Validates a plan whose boundary domains are at the given positions, splices and persists. */
    method ApplyPlan(plan: Plan, s: nat, e: nat) returns (r: DeleteResult)
      requires Valid() && PlanSound(plan)
      requires s < |pointers| && pointers[s] == plan.start && e < |pointers| && pointers[e] == plan.end
      modifies this`pointers, this`indexFile
      ensures Valid()
      ensures PlanOutcome(old(pointers), s, e, plan, r, pointers)
      ensures s <= |pointers| && pointers[..s] == old(pointers)[..s]
      ensures indexFile == if r == Deleted then Persist(old(indexFile), pointers, s) else old(indexFile)
    {
      match ValidateDelete(pointers, s, e, plan.startOffset, plan.endOffset)
      case Skip => r := NoDelete;
      case Reject => r := Rejected;
      case Proceed(so, eo) =>
        SpliceKeepsOrder(pointers, files, s, e, plan);
        pointers := Splice(pointers, s, e, plan, so, eo);
        PersistFrom(s);
        r := Deleted;
    }

    /** Carries out a planned deletion after looking its boundary domains, now at `s` and `e`, up again. */
    method FinishDelete(plan: Plan, oldStart: nat, oldEnd: nat, ghost s: nat, ghost e: nat) returns (r: DeleteResult)
      requires Valid() && PlanSound(plan)
      requires s < |pointers| && pointers[s] == plan.start && e < |pointers| && pointers[e] == plan.end
      requires oldStart < |pointers| && oldEnd < |pointers|
      modifies this`pointers, this`indexFile
      ensures Valid()
      ensures PlanOutcome(old(pointers), s, e, plan, r, pointers)
      ensures s <= |pointers| && pointers[..s] == old(pointers)[..s]
      ensures indexFile == if r == Deleted then Persist(old(indexFile), pointers, s) else old(indexFile)
    {
      var startPos := RelookupStart(pointers, plan.start, oldStart);
      StartRelookupFinds(pointers, plan.start, oldStart, startPos, s);
      var endPos := RelookupEnd(pointers, plan.end, oldEnd);
      EndRelookupFinds(pointers, plan.end, oldEnd, endPos, e);
      r := ApplyPlan(plan, startPos, endPos);
    }

    /** Deletes a time range, with nothing else changing the index meanwhile. */
    method Delete(startOffsetOf: Calculator, endOffsetOf: Calculator, tr: TimeRange, density: nat) returns (r: DeleteResult)
      requires Valid() && tr.start <= tr.end
      requires forall k | 0 <= k < |pointers| && pointers[k].tr.ContainsStamp(tr.start) ::
                 StartCalculatorSound(startOffsetOf, pointers[k], tr.start, density)
      requires forall k | 0 <= k < |pointers| && pointers[k].tr.ContainsStamp(tr.end) ::
                 EndCalculatorSound(endOffsetOf, pointers[k], tr.end, density)
      modifies this`pointers, this`indexFile
      ensures Valid()
      ensures r != Deleted ==> indexFile == old(indexFile)
      ensures DeleteOutcome(old(pointers), startOffsetOf, endOffsetOf, tr, density, r, pointers)
      ensures r == Deleted && old(indexFile) == EncodeAll(old(pointers)) ==> DecodeAll(indexFile) == pointers
    {
      var s := LocateStart(pointers, startOffsetOf, tr.start, density);
      if s.Failed? { return CalculationFailed; }
      if s.Nothing? { return NoDelete; }
      var e := LocateEnd(pointers, endOffsetOf, tr.end, density);
      if e.Failed? { return CalculationFailed; }
      if e.Nothing? { return NoDelete; }
      LookupsSound(pointers, startOffsetOf, endOffsetOf, tr, density);
      var plan := Plan(s.ptr, e.ptr, s.offset, e.offset, s.stamp, e.stamp);
      r := FinishDelete(plan, s.pos, e.pos, s.pos, e.pos);
      if r == Deleted {
        DurableIndex(old(pointers), pointers, s.pos);
      }
    }

    /** Relocates the pointers on the collected file and puts the compacted file in its place. */
    method Swap(key: U16, snap: seq<Pointer>, deltas: Deltas, copy: seq<Byte>)
      requires Collectable(pointers, files, key, snap, deltas) && copy == Compact(snap, files[key])
      modifies this`pointers, this`files
      ensures Relocated(old(pointers), key, deltas, pointers) && files == Swapped(old(files), key, snap)
      ensures Valid() && View(pointers, files) == old(View(pointers, files))
    {
      ghost var before := pointers;
      for i := 0 to |pointers|
        modifies this`pointers
        invariant |pointers| == |before|
        invariant forall j | 0 <= j < i :: Relocation(before[j], key, deltas, pointers[j])
        invariant forall j | i <= j < |before| :: pointers[j] == before[j]
      {
        if pointers[i].fileKey == key {
          var res := ResolvePointerOffset(pointers[i].tr, deltas);
          pointers := pointers[i := Relocate(pointers[i], res)];
          assert Relocation(before[i], key, deltas, pointers[i]);
        }
      }
      files := files[key := copy];
      CollectionInvisible(before, old(files), key, snap, deltas, pointers);
    }

    /** Collects one file, unless readers hold it open or too little of it is unused; the other files stay as they are. */
    method GarbageCollectFile(key: U16, readers: set<U16>, threshold: int)
      requires Valid() && key in files
      modifies this`pointers, this`files
      ensures Valid() && View(pointers, files) == old(View(pointers, files))
      ensures files.Keys == old(files.Keys) && forall k | k in files && k != key :: files[k] == old(files)[k]
      ensures FileAfter(old(pointers), key, old(files[key]), files[key], Wasteful(old(pointers), key, old(files[key]), readers, threshold))
      ensures forall k: U16 :: LiveBytes(OnFile(pointers, k)) == LiveBytes(OnFile(old(pointers), k))
      ensures forall k: U16 | k != key :: OnFile(pointers, k) == OnFile(old(pointers), k)
    {
      if key in readers {
        return;
      }
      var snap, tombstoneSize := SnapshotFile(pointers, key, |files[key]|);
      if tombstoneSize < threshold {
        return;
      }
      OnFileSorted(pointers, key);
      OnFileStored(pointers, key, files);
      OnFileDescends(pointers, key);
      var copy, deltas := CopyLive(snap, files[key]);
      CompactLength(snap, files[key]);
      Swap(key, snap, deltas, copy);
      forall k: U16 {
        RelocationKeepsLive(old(pointers), key, deltas, pointers, k);
      }
    }

    /** Collects the next file if it is full and has no writer, after those before it have been collected from `ps` and `fs`. */
    method CollectNext(fileKey: U16, writers: set<U16>, readers: set<U16>, fileSize: nat, threshold: int, ghost ps: seq<Pointer>,
                       ghost fs: Files)
      requires Valid() && fileKey >= 1 && (fileKey in writers || fileKey in files)
      requires AllAfter(ps, fs, files, fileKey - 1, writers, readers, fileSize, threshold)
      requires forall k: U16 | k >= fileKey :: OnFile(pointers, k) == OnFile(ps, k)
      modifies this`pointers, this`files
      ensures Valid() && View(pointers, files) == old(View(pointers, files))
      ensures AllAfter(ps, fs, files, fileKey, writers, readers, fileSize, threshold)
      ensures forall k: U16 | k > fileKey :: OnFile(pointers, k) == OnFile(ps, k)
    {
      if fileKey !in writers && |files[fileKey]| >= fileSize {
        GarbageCollectFile(fileKey, readers, threshold);
      }
    }

    /** Collects the full files without a writer one after another, up to the first that is missing. */
    method CollectFull(counter: U16, writers: set<U16>, readers: set<U16>, fileSize: nat, threshold: int) returns (last: int)
      requires Valid()
      modifies this`pointers, this`files
      ensures Valid() && View(pointers, files) == old(View(pointers, files))
      ensures 0 <= last <= counter && forall k: U16 | 1 <= k <= last :: k in writers || k in files
      ensures last < counter ==> last + 1 !in writers && last + 1 !in files
      ensures AllAfter(old(pointers), old(files), files, last, writers, readers, fileSize, threshold)
    {
      last := 0;
      while last < counter
        invariant 0 <= last <= counter
        invariant Valid() && View(pointers, files) == old(View(pointers, files))
        invariant forall k: U16 | 1 <= k <= last :: k in writers || k in files
        invariant forall k: U16 | k > last :: OnFile(pointers, k) == OnFile(old(pointers), k)
        invariant AllAfter(old(pointers), old(files), files, last, writers, readers, fileSize, threshold)
      {
        var fileKey := last + 1;
        if fileKey !in writers && fileKey !in files {
          return;
        }
        CollectNext(fileKey, writers, readers, fileSize, threshold, old(pointers), old(files));
        last := fileKey;
      }
    }

    /** Collects the full files, then writes the whole index; a missing file ends it early. */
    method GarbageCollect(counter: U16, writers: set<U16>, readers: set<U16>, fileSize: nat, threshold: int) returns (ok: bool)
      requires Valid()
      modifies this
      ensures Valid() && View(pointers, files) == old(View(pointers, files))
      ensures ok <==> forall k: U16 | 1 <= k <= counter :: k in writers || k in old(files)
      ensures if ok then DecodeAll(indexFile) == pointers else indexFile == old(indexFile)
      ensures files.Keys == old(files.Keys)
      ensures forall k | k in files ::
                FileAfter(old(pointers), k, old(files)[k], files[k],
                  && 1 <= k <= counter && (forall j: U16 | 1 <= j < k :: j in writers || j in old(files))
                  && Collects(old(pointers), k, old(files)[k], writers, readers, fileSize, threshold))
    {
      var last := CollectFull(counter, writers, readers, fileSize, threshold);
      CollectedFiles(old(pointers), old(files), files, last, counter, writers, readers, fileSize, threshold);
      if last < counter {
        return false;
      }
      PersistFrom(0);
      PersistExact(old(indexFile), pointers, 0);
      return true;
    }
  }
}
