/**
 Runs of a domain store: commits by writers, deletions, and collections whose snapshot and
 swap have any number of commits and deletions between them.

 Each step holds the index lock.  A collection of one file is in progress at a time, and no
 writer holds the file being collected (cesium/internal/domain/delete.go:188-235).
 */
module DomainRun {
  import opened Telem
  import opened DomainIndex
  import opened DomainDelete
  import opened DomainGC

  datatype Collection = Idle | Collecting(key: U16, snap: seq<Pointer>, deltas: Deltas)

  datatype Store = Store(ptrs: seq<Pointer>, files: Files, gc: Collection)

  const EMPTY := Store([], map[], Idle)

  datatype Step =
    | Append(key: U16, data: seq<Byte>)
    | Commit(p: Pointer, at: nat, data: seq<Byte>)
    | Extend(p: Pointer, at: nat, more: seq<Byte>)
    | Delete(startPos: nat, endPos: int, plan: Plan, so: nat, eo: nat)
    | BeginCollection(key: U16)
    | FinishCollection
    | AbandonCollection

  predicate Busy(s: Store, key: U16) {
    s.gc.Collecting? && s.gc.key == key
  }

  function Contents(files: Files, key: U16): seq<Byte> {
    if key in files then files[key] else []
  }

  ghost predicate Next(s: Store, step: Step, s': Store) {
    match step
    // A writer adds bytes to a file it holds; they are not in the index yet.
    case Append(key, data) =>
      && !Busy(s, key)
      && |Contents(s.files, key)| + |data| <= TWO_32
      && s' == s.(files := s.files[key := Contents(s.files, key) + data])
    // A writer's first commit of a domain, for bytes it has written and nobody else has named.
    case Commit(p, at, data) =>
      && !Busy(s, p.fileKey)
      && p.tr.Proper() && p.length > 0 && InBounds(p, s.files) && Read(p, s.files) == data
      && (forall i | 0 <= i < |s.ptrs| :: Apart(s.ptrs[i], p))
      && FitsAt(s.ptrs, at, p)
      && s' == s.(ptrs := InsertAt(s.ptrs, at, p))
    // A later commit by the same writer, which has gone on writing where its blob ended.
    case Extend(p, at, more) =>
      && !Busy(s, p.fileKey)
      && p.tr.Proper() && InBounds(p, s.files)
      && ReplacesAt(s.ptrs, at, p)
      && p.fileKey == s.ptrs[at].fileKey && p.offset == s.ptrs[at].offset
      && InBounds(s.ptrs[at], s.files) && Read(p, s.files) == Read(s.ptrs[at], s.files) + more
      && (forall i | 0 <= i < |s.ptrs| && i != at :: Apart(s.ptrs[i], p))
      && s' == s.(ptrs := s.ptrs[at := p])
    case Delete(startPos, endPos, plan, so, eo) =>
      && Applicable(s.ptrs, startPos, endPos, plan, so, eo)
      && s' == s.(ptrs := Splice(s.ptrs, startPos, endPos, plan, so, eo))
    case BeginCollection(key) =>
      && s.gc.Idle? && key in s.files
      && s'.gc.Collecting? && s'.gc.key == key && s'.gc.snap == OnFile(s.ptrs, key) && DeltasOf(s'.gc.snap, s'.gc.deltas)
      && s' == s.(gc := s'.gc)
    case FinishCollection =>
      && s.gc.Collecting? && s.gc.key in s.files
      && (forall k | 0 <= k < |s.gc.snap| :: s.gc.snap[k].offset + s.gc.snap[k].length <= |s.files[s.gc.key]|)
      && Relocated(s.ptrs, s.gc.key, s.gc.deltas, s'.ptrs)
      && s' == Store(s'.ptrs, Swapped(s.files, s.gc.key, s.gc.snap), Idle)
    case AbandonCollection =>
      s' == s.(gc := Idle)
  }

  /** Domains in order and disjoint, blobs in bounds and disjoint. */
  predicate Healthy(s: Store) {
    Sorted(s.ptrs) && Stored(s.ptrs, s.files)
  }

  /** What readers see of a store. */
  function Readable(s: Store): seq<Domain>
    requires Healthy(s)
  {
    View(s.ptrs, s.files)
  }

  /** What every step keeps. */
  ghost predicate Inv(s: Store) {
    && Healthy(s)
    && (s.gc.Collecting? ==> Collectable(s.ptrs, s.files, s.gc.key, s.gc.snap, s.gc.deltas))
  }

  /** The same step as seen by readers, who know domains and bytes but neither files nor offsets. */
  predicate ReaderNext(ds: seq<Domain>, step: Step, ds': seq<Domain>) {
    match step
    case Commit(p, at, data) =>
      at <= |ds| && ds' == ds[..at] + [Domain(p.tr, data)] + ds[at..]
    case Extend(p, at, more) =>
      at < |ds| && p.tr.start == ds[at].tr.start && ds' == ds[at := Domain(p.tr, ds[at].data + more)]
    case Delete(startPos, endPos, plan, so, eo) =>
      && startPos < |ds| && 0 <= endPos < |ds| && so <= |ds[startPos].data| && eo <= |ds[endPos].data|
      && ds' == DeleteDomains(ds, startPos, endPos, plan.from, plan.to, so, eo)
    case _ =>
      ds' == ds
  }

  // ----- One step -----

  lemma AppendKeeps(s: Store, key: U16, data: seq<Byte>, s': Store)
    requires Inv(s) && Next(s, Append(key, data), s')
    ensures Inv(s') && Readable(s') == Readable(s)
  {
    forall i | 0 <= i < |s.ptrs|
      ensures InBounds(s.ptrs[i], s'.files) && Read(s.ptrs[i], s'.files) == Read(s.ptrs[i], s.files)
    {
    }
  }

  lemma CommitKeeps(s: Store, p: Pointer, at: nat, data: seq<Byte>, s': Store)
    requires Inv(s) && Next(s, Commit(p, at, data), s')
    ensures Inv(s') && ReaderNext(Readable(s), Commit(p, at, data), Readable(s'))
  {
    InsertSorted(s.ptrs, at, p);
    InsertStored(s.ptrs, s.files, at, p);
  }

  lemma ExtendKeeps(s: Store, p: Pointer, at: nat, more: seq<Byte>, s': Store)
    requires Inv(s) && Next(s, Extend(p, at, more), s')
    ensures Inv(s') && ReaderNext(Readable(s), Extend(p, at, more), Readable(s'))
  {
    ReplaceSorted(s.ptrs, at, p);
    assert |Read(p, s.files)| == p.length && |Read(s.ptrs[at], s.files)| == s.ptrs[at].length;
    ExtendStored(s.ptrs, s.files, at, p);
  }

  lemma WithinTransitive(p: Pointer, q: Pointer, r: Pointer)
    requires Within(p, q) && Within(q, r)
    ensures Within(p, r)
  {
  }

  /** Deletions during a collection leave only pieces of snapshot pointers on the file. */
  lemma DeleteDescends(s: Store, startPos: nat, endPos: int, plan: Plan, so: nat, eo: nat, key: U16, snap: seq<Pointer>)
    requires Stored(s.ptrs, s.files) && Applicable(s.ptrs, startPos, endPos, plan, so, eo)
    requires Descends(s.ptrs, key, snap)
    ensures Descends(Splice(s.ptrs, startPos, endPos, plan, so, eo), key, snap)
  {
    var r := Splice(s.ptrs, startPos, endPos, plan, so, eo);
    forall i | 0 <= i < |r| && r[i].fileKey == key
      ensures exists k | 0 <= k < |snap| :: Within(r[i], snap[k])
    {
      SpliceWithin(s.ptrs, s.files, startPos, endPos, plan, so, eo, i);
      var j :| 0 <= j < |s.ptrs| && Within(r[i], s.ptrs[j]);
      var k :| 0 <= k < |snap| && Within(s.ptrs[j], snap[k]);
      WithinTransitive(r[i], s.ptrs[j], snap[k]);
    }
  }

  lemma DeleteKeeps(s: Store, startPos: nat, endPos: int, plan: Plan, so: nat, eo: nat, s': Store)
    requires Inv(s) && Next(s, Delete(startPos, endPos, plan, so, eo), s')
    ensures Inv(s')
    ensures ReaderNext(Readable(s), Delete(startPos, endPos, plan, so, eo), Readable(s'))
  {
    SpliceSorted(s.ptrs, startPos, endPos, plan, so, eo);
    SpliceStored(s.ptrs, s.files, startPos, endPos, plan, so, eo);
    SpliceExact(s.ptrs, s.files, startPos, endPos, plan, so, eo);
    if s.gc.Collecting? {
      DeleteDescends(s, startPos, endPos, plan, so, eo, s.gc.key, s.gc.snap);
    }
  }

  lemma BeginKeeps(s: Store, key: U16, s': Store)
    requires Inv(s) && Next(s, BeginCollection(key), s')
    ensures Inv(s')
  {
    OnFileSorted(s.ptrs, key);
    OnFileStored(s.ptrs, key, s.files);
    OnFileDescends(s.ptrs, key);
  }

  lemma StepKeeps(s: Store, step: Step, s': Store)
    requires Inv(s) && Next(s, step, s')
    ensures Inv(s') && ReaderNext(Readable(s), step, Readable(s'))
  {
    match step
    case Append(key, data) => AppendKeeps(s, key, data, s');
    case Commit(p, at, data) => CommitKeeps(s, p, at, data, s');
    case Extend(p, at, more) => ExtendKeeps(s, p, at, more, s');
    case Delete(startPos, endPos, plan, so, eo) => DeleteKeeps(s, startPos, endPos, plan, so, eo, s');
    case BeginCollection(key) => BeginKeeps(s, key, s');
    case FinishCollection => CollectionInvisible(s.ptrs, s.files, s.gc.key, s.gc.snap, s.gc.deltas, s'.ptrs);
    case AbandonCollection =>
  }

  // ----- Whole runs -----

  ghost predicate IsRun(run: seq<Store>, steps: seq<Step>) {
    && |run| == |steps| + 1 && run[0] == EMPTY
    && forall i | 0 <= i < |steps| :: Next(run[i], steps[i], run[i + 1])
  }

  /** In every state of every run the index is sorted and its blobs are in bounds and disjoint. */
  lemma {:induction false} RunKeepsInvariant(run: seq<Store>, steps: seq<Step>, i: nat)
    requires IsRun(run, steps) && i < |run|
    ensures Inv(run[i])
  {
    if i > 0 {
      RunKeepsInvariant(run, steps, i - 1);
      StepKeeps(run[i - 1], steps[i - 1], run[i]);
    }
  }

  /**
   The store refines the reader's machine over whole runs: starting with no domains, a writer's first commit adds
   exactly its domain, its later ones add bytes to the end of that domain, every deletion removes exactly its span, and
   collections, however interleaved, change nothing readable.
   */
  lemma RunRefinesReader(run: seq<Store>, steps: seq<Step>)
    requires IsRun(run, steps)
    ensures forall i | 0 <= i < |run| :: Healthy(run[i])
    ensures Readable(run[0]) == []
    ensures forall i | 0 <= i < |steps| :: ReaderNext(Readable(run[i]), steps[i], Readable(run[i + 1]))
  {
    forall i | 0 <= i < |run|
      ensures Inv(run[i])
    {
      RunKeepsInvariant(run, steps, i);
    }
    forall i | 0 <= i < |steps|
      ensures ReaderNext(Readable(run[i]), steps[i], Readable(run[i + 1]))
    {
      StepKeeps(run[i], steps[i], run[i + 1]);
    }
  }

  // ----- A commit after the tail of its domain was deleted -----

  /**
   A writer names its whole blob with every commit.  The store itself lets the tail of a domain be deleted between two
   commits of its writer, and the next one then brings the deleted bytes back; keeping deletions away from open writers
   is up to the gate they must open first.
   */
  lemma DeletionUndone(s: Store, at: nat, plan: Plan, so: nat) returns (s': Store)
    requires Inv(s) && 0 < so && Applicable(s.ptrs, at, at, plan, so, 0) && !Busy(s, plan.start.fileKey)
    ensures Next(s, Delete(at, at, plan, so, 0), s')
    ensures Next(s', Extend(plan.start, at, Read(plan.start, s.files)[so..]), s)
  {
    var head := Head(plan, so)[0];
    s' := s.(ptrs := Splice(s.ptrs, at, at, plan, so, 0));
    assert s'.ptrs == s.ptrs[at := head];
    HeadExtends(s, at, head);
  }

  /** A domain cut short can be extended to what it was. */
  lemma HeadExtends(s: Store, at: nat, head: Pointer)
    requires Inv(s) && at < |s.ptrs| && !Busy(s, s.ptrs[at].fileKey)
    requires var p := s.ptrs[at]; head == p.(tr := head.tr, length := head.length) && head.tr.start == p.tr.start && head.length <= p.length
    ensures var p := s.ptrs[at];
            Next(s.(ptrs := s.ptrs[at := head]), Extend(p, at, Read(p, s.files)[head.length..]), s)
  {
    var p, r := s.ptrs[at], s.ptrs[at := head];
    assert r[at := p] == s.ptrs;
    assert Read(p, s.files)[..head.length] == Read(head, s.files);
    NeighboursApart(s.ptrs, at);
  }

  /** A domain of a sorted index may replace a shorter one that starts with it. */
  lemma NeighboursApart(ps: seq<Pointer>, k: nat)
    requires Sorted(ps) && k < |ps|
    ensures k > 0 ==> !ps[k - 1].tr.OverlapsWith(ps[k].tr)
    ensures k + 1 < |ps| ==> !ps[k + 1].tr.OverlapsWith(ps[k].tr)
  {
    if k > 0 {
      OverlapMeaning(ps[k - 1].tr, ps[k].tr);
    }
    if k + 1 < |ps| {
      OverlapMeaning(ps[k + 1].tr, ps[k].tr);
    }
  }

  // ----- Plans carried out later -----

  /** The plan the lookups make for a request, from calculators sound on every domain. */
  ghost predicate Planned(ptrs: seq<Pointer>, tr: TimeRange, plan: Plan, startPos: nat, endPos: nat) {
    && (forall k, t | 0 <= k < |ptrs| && ptrs[k].tr.ContainsStamp(t) ::
          StartCalculatorSound(SAMPLES, ptrs[k], t, 1) && EndCalculatorSound(SAMPLES, ptrs[k], t, 1))
    && LookupStart(ptrs, SAMPLES, tr.start, 1) == Boundary(startPos, plan.start, plan.startOffset, plan.from)
    && LookupEnd(ptrs, SAMPLES, tr.end, 1) == Boundary(endPos, plan.end, plan.endOffset, plan.to)
    && PlanSound(plan)
  }

  /** The plan finds its boundary domains where it left them and passes validation. */
  ghost predicate CarriesOut(ptrs: seq<Pointer>, plan: Plan, startPos: nat, endPos: nat, so: nat, eo: nat) {
    && startPos < |ptrs| && endPos < |ptrs|
    && StartRelooksTo(ptrs, plan.start, startPos, startPos) && EndRelooksTo(ptrs, plan.end, endPos, endPos)
    && ValidateDelete(ptrs, startPos, endPos, plan.startOffset, plan.endOffset) == Proceed(so, eo)
  }

  // ----- A deletion planned before a swap and carried out after it -----

  /** A collection in progress on a file with one live blob that does not start the file. */
  function CollectingOne(p: Pointer, file: seq<Byte>): Store {
    Store([p], map[p.fileKey := file], Collecting(p.fileKey, [p], map[p.tr := p.offset]))
  }

  lemma OneDelta(p: Pointer)
    requires p.offset > 0
    ensures DeltasOf([p], map[p.tr := p.offset])
  {
    assert [p][..0] == [];
    assert [p][0].tr == p.tr;
  }

  lemma OneMoves(p: Pointer)
    ensures Resolves(p.tr, map[p.tr := p.offset], Moved(p.offset)) && Relocate(p, Moved(p.offset)) == p.(offset := 0)
  {
    var deltas := map[p.tr := p.offset];
    assert p.tr in deltas && p.tr.ContainsRange(p.tr) && deltas[p.tr] == p.offset;
  }

  /**
   The swap moves the blob to the front of a file that then holds nothing else.  A deletion planned before it and
   carried out after it, keeping one byte of a blob that lay past its own length, finds its domain again, passes
   validation and leaves a piece past the end of the file.
   */
  lemma DeleteAcrossCollection(p: Pointer, file: seq<Byte>, plan: Plan)
    requires p.tr.Proper() && 2 <= p.length <= p.offset && p.offset + p.length <= |file|
    requires plan.start == p && plan.end == p && plan.startOffset == 1 && plan.endOffset == 0
    ensures exists s' ::
              && Next(CollectingOne(p, file), FinishCollection, s') && s'.ptrs == [p.(offset := 0)]
              && CarriesOut(s'.ptrs, plan, 0, 0, 1, 0) && !InBounds(Splice(s'.ptrs, 0, 0, plan, 1, 0)[0], s'.files)
  {
    var s := CollectingOne(p, file);
    var s' := Store([p.(offset := 0)], Swapped(s.files, p.fileKey, [p]), Idle);
    OneMoves(p);
    CompactLength([p], file);
    LiveBytesConcat([p], []);
    assert Next(s, FinishCollection, s');
    OneFound(p.(offset := 0), p);
    assert Splice(s'.ptrs, 0, 0, plan, 1, 0) == Head(plan, 1);
  }

  lemma OneFound(p: Pointer, saved: Pointer)
    requires p.tr == saved.tr
    ensures StartRelooksTo([p], saved, 0, 0) && EndRelooksTo([p], saved, 0, 0)
  {
    assert Found([p], saved.tr, 0, true);
  }

  // ----- Such a deletion, from an empty store on -----

  const FILE: seq<Byte> := [0, 0, 0, 0]
  const FIRST := Pointer(TimeRange(0, 2), 1, 0, 2)
  const SECOND := Pointer(TimeRange(2, 4), 1, 2, 2)

  const FILES: Files := map[1 := FILE]

  /** The first of two domains written is deleted. */
  const WHOLE := Plan(FIRST, FIRST, 0, 0, 0, 2)

  lemma WritesTwo()
    ensures Next(EMPTY, Append(1, FILE), Store([], FILES, Idle))
    ensures Next(Store([], FILES, Idle), Commit(FIRST, 0, [0, 0]), Store([FIRST], FILES, Idle))
    ensures Next(Store([FIRST], FILES, Idle), Commit(SECOND, 1, [0, 0]), Store([FIRST, SECOND], FILES, Idle))
  {
    assert Contents(map[], 1) + FILE == FILE;
    assert Read(FIRST, FILES) == [0, 0] && InsertAt([], 0, FIRST) == [FIRST];
    assert Read(SECOND, FILES) == [0, 0] && InsertAt([FIRST], 1, SECOND) == [FIRST, SECOND];
  }

  lemma DeletesFirst()
    ensures Next(Store([FIRST, SECOND], FILES, Idle), Delete(0, 0, WHOLE, 0, 0), Store([SECOND], FILES, Idle))
  {
    assert Splice([FIRST, SECOND], 0, 0, WHOLE, 0, 0) == [SECOND];
  }

  lemma BeginsCollecting()
    ensures Next(Store([SECOND], FILES, Idle), BeginCollection(1), CollectingOne(SECOND, FILE))
  {
    OneDelta(SECOND);
    assert OnFile([SECOND], 1) == [SECOND];
  }

  /** A run with one more step. */
  lemma After(run: seq<Store>, steps: seq<Step>, step: Step, s': Store) returns (run': seq<Store>, steps': seq<Step>)
    requires IsRun(run, steps) && Next(run[|steps|], step, s')
    ensures IsRun(run', steps') && run' == run + [s'] && steps' == steps + [step]
  {
    run', steps' := run + [s'], steps + [step];
    assert forall i | 0 <= i < |run| :: run'[i] == run[i];
  }

  lemma ReachTwo() returns (run: seq<Store>, steps: seq<Step>)
    ensures IsRun(run, steps) && run[|steps|] == Store([FIRST, SECOND], FILES, Idle)
  {
    WritesTwo();
    run, steps := After([EMPTY], [], Append(1, FILE), Store([], FILES, Idle));
    run, steps := After(run, steps, Commit(FIRST, 0, [0, 0]), Store([FIRST], FILES, Idle));
    run, steps := After(run, steps, Commit(SECOND, 1, [0, 0]), Store([FIRST, SECOND], FILES, Idle));
  }

  /** Two domains are written, the first is deleted, and the collection of their file begins. */
  lemma ReachCollecting() returns (run: seq<Store>, steps: seq<Step>)
    ensures IsRun(run, steps) && run[|steps|] == CollectingOne(SECOND, FILE)
  {
    run, steps := ReachTwo();
    DeletesFirst();
    run, steps := After(run, steps, Delete(0, 0, WHOLE, 0, 0), Store([SECOND], FILES, Idle));
    BeginsCollecting();
    run, steps := After(run, steps, BeginCollection(1), CollectingOne(SECOND, FILE));
  }

  /**
   A deletion of the time from 3 to 4 is planned, by sound calculators, while the collection is under way, which its
   swap then ends: carried out, it leaves a piece past the end of the file.
   */
  lemma StalePlanReached() returns (run: seq<Store>, steps: seq<Step>, plan: Plan)
    ensures IsRun(run, steps) && |steps| > 0 && steps[|steps| - 1] == FinishCollection
    ensures Planned(run[|steps| - 1].ptrs, TimeRange(3, 4), plan, 0, 0)
    ensures var s' := run[|steps|];
            && CarriesOut(s'.ptrs, plan, 0, 0, 1, 0)
            && |Splice(s'.ptrs, 0, 0, plan, 1, 0)| > 0 && !InBounds(Splice(s'.ptrs, 0, 0, plan, 1, 0)[0], s'.files)
  {
    run, steps := ReachCollecting();
    plan := Plan(SECOND, SECOND, 1, 0, 3, 4);
    assert LastAtOrBefore([SECOND], 3) == 0 && LastAtOrBefore([SECOND], 4) == 0;
    DeleteAcrossCollection(SECOND, FILE, plan);
    var s' :| && Next(CollectingOne(SECOND, FILE), FinishCollection, s') && s'.ptrs == [SECOND.(offset := 0)]
              && CarriesOut(s'.ptrs, plan, 0, 0, 1, 0) && !InBounds(Splice(s'.ptrs, 0, 0, plan, 1, 0)[0], s'.files);
    run, steps := After(run, steps, FinishCollection, s');
  }

  // ----- An extension between the planning of a deletion and its splice -----

  /** What the writer of the second domain commits next. */
  const LONGER := Pointer(TimeRange(2, 6), 1, 2, 4)
  const LONGER_FILES: Files := map[1 := [0, 0, 0, 0, 0, 0]]

  lemma ExtendsSecond()
    ensures Next(Store([FIRST, SECOND], FILES, Idle), Append(1, [0, 0]), Store([FIRST, SECOND], LONGER_FILES, Idle))
    ensures Next(Store([FIRST, SECOND], LONGER_FILES, Idle), Extend(LONGER, 1, [0, 0]), Store([FIRST, LONGER], LONGER_FILES, Idle))
  {
    assert FILE + [0, 0] == [0, 0, 0, 0, 0, 0];
    assert Read(SECOND, LONGER_FILES) == [0, 0] && Read(LONGER, LONGER_FILES) == [0, 0] + [0, 0];
    OverlapMeaning(FIRST.tr, LONGER.tr);
  }

  const EARLIER := Plan(FIRST, SECOND, 1, 2, 1, 2)

  lemma PlannedOnTwo()
    ensures Planned([FIRST, SECOND], TimeRange(1, 2), EARLIER, 0, 1)
  {
    var ptrs := [FIRST, SECOND];
    TwoInTime();
    assert LookupStart(ptrs, SAMPLES, 1, 1) == Boundary(0, FIRST, 1, 1);
    assert LookupEnd(ptrs, SAMPLES, 2, 1) == Boundary(1, SECOND, 2, 2);
  }

  lemma TwoInTime()
    ensures LastAtOrBefore([FIRST, SECOND], 1) == 0 && LastAtOrBefore([FIRST, SECOND], 2) == 1
  {
    assert [FIRST, SECOND][..1] == [FIRST];
  }

  /** Carried out, the plan clears the instant `t`, which lies past the request. */
  ghost predicate Loses(ptrs: seq<Pointer>, tr: TimeRange, plan: Plan, startPos: nat, endPos: nat, t: Stamp) {
    tr.end < t && Covered(ptrs, t)
    && exists so: nat, eo: nat | so < TWO_32 && eo < TWO_32 ::
         CarriesOut(ptrs, plan, startPos, endPos, so, eo) && !Covered(Splice(ptrs, startPos, endPos, plan, so, eo), t)
  }

  lemma LosesOnLonger()
    ensures Loses([FIRST, LONGER], TimeRange(1, 2), EARLIER, 0, 1, 5)
  {
    OverlapMeaning(LONGER.tr, SECOND.tr);
    assert Found([FIRST, LONGER], SECOND.tr, 1, true);
    ExtensionLost([FIRST, LONGER], 0, 1, EARLIER, 1, 2, 5);
    assert CarriesOut([FIRST, LONGER], EARLIER, 0, 1, 1, 2);
  }

  /**
   A deletion of the time from 1 to 2 keeps all of the domain that starts at 2, whose writer it need not wait for.  It is
   planned by sound calculators; that writer commits more; carried out, it clears what was added.
   */
  lemma ExtensionLostReached() returns (run: seq<Store>, steps: seq<Step>)
    ensures IsRun(run, steps) && |steps| > 0 && steps[|steps| - 1] == Extend(LONGER, 1, [0, 0])
    ensures Planned(run[|steps| - 1].ptrs, TimeRange(1, 2), EARLIER, 0, 1)
    ensures Loses(run[|steps|].ptrs, TimeRange(1, 2), EARLIER, 0, 1, 5)
  {
    run, steps := ReachTwo();
    ExtendsSecond();
    run, steps := After(run, steps, Append(1, [0, 0]), Store([FIRST, SECOND], LONGER_FILES, Idle));
    run, steps := After(run, steps, Extend(LONGER, 1, [0, 0]), Store([FIRST, LONGER], LONGER_FILES, Idle));
    PlannedOnTwo();
    LosesOnLonger();
  }
}
