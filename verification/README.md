# Synnax: storage, replication and control, modelled and proved

A Dafny 4.11 model of the parts of Synnax that hold state under concurrency: the Cesium time series engine's domain
store, channel registry, stream writer and control regions, and the Aspen replicated key-value store. `dafny verify
dfyconfig.toml` checks everything.

- **Domain store** (`DomainIndex`, `DomainDelete`, `DomainSamples`, `RateIndex`, `DomainGC`, `DomainRun`, `GatedStore`,
  `IndexPersist`, `DomainStore`). A slice of pointers names blobs in files. Deleting a time range splices the slice;
  collecting a file copies live blobs and relocates whatever the pointers have become meanwhile. The main results are that
  collection is invisible to readers and compacts exactly the files it should, that after a deletion readers find exactly
  the samples that were not requested, that whole runs refine a store that is just a list of domains, and that the gate
  deletions open keeps them away from the domains of open writers. The index file loads as the index exactly when the part
  of it left alone was already right.
- **Replicated store** (`KvOperation`, `KvVersion`, `KvTx`, `KvCluster`, `KvReplicas`, `KvPipeline`). Nodes exchange
  transactions, leases, gossip and feedback. The main results are convergence of nodes that receive the same operations, agreement of data and
  digests in every reachable state, lease and version stability, convergence of whole runs although the leaseholder's own
  path skips the version filter, when gossip is fed back and stops, and the exact condition under which splitting a
  transaction by leaseholder preserves its meaning.
- **Control** (`ControlRegion`, `Controller`, `ControllerState`). Gates compete for a region by authority and then by
  position. The main results are the transfer ledger, at most one authorized gate per instant over every run and, under
  shared concurrency, exactly those of highest authority, and the exact conditions under which the best gate holds control
  and a new region goes in its place.
- **Writer** (`StreamWriter`, `FrameValidation`) and **registry** (`Channels`). Responses are numbered, guarded by the kept
  error and acknowledged when they should be; frames are validated by counting; channels keep referential integrity.

Code that updates state in place is modelled by classes and loops (`DomainStore.DB`, `IndexPersist.Encode`, `KvPipeline`,
`ControllerState`, `StreamWriter.LiveWriter`, `FrameValidation.IdxWriter`, `Channels.DB`), each method against functions or
relations on values; the theorems are about those. Where the source walks a Go map, the relation allows every order.
Stamps are 64-bit, blob offsets and lengths 32-bit and file keys 16-bit, and differences wrap as they do in Go.

Where the code does less than its comments or callers suggest, the model follows the code:

- The no-op guard for adjacent domains compares the start offset with the length of the end domain
  (`DomainDelete.SkipLosesNothing`, `DomainDelete.SkipDropsDeletion`, `DomainSamples.NothingDeletedIff`).
- Before the epoch Go's remainder is negative, and the calculators of a rate channel count one sample too many
  (`RateIndex.RateCountsIff`).
- A deletion copies the pointers saved when it was planned, so a collection that swaps in between leaves it naming old
  offsets (`DomainDelete.StaleSplice`, `DomainRun.StalePlanReached`). Runs of the store therefore take a deletion's
  planning and splice as one step. In the same way it drops what a writer has added to its end domain meanwhile
  (`DomainDelete.ExtensionKeptIff`, `DomainRun.ExtensionLostReached`).
- The head from which commits persist starts at zero and is never raised, so a persisting commit rewrites the whole index
  file. Deletions write only a suffix, which is stale when earlier pointers were committed without persisting
  (`IndexPersist.PersistExact`, `IndexPersist.StaleIndex`).
- The missing-value branch of `toRequests` cannot be reached: a key that was set and then deleted in a transaction fails its
  commit (`KvTx.CommitsIff`).
- A lowered holder hands over to the first outranking gate met, and its transfer reports the new authority as the old
  (`ControlRegion.HolderUpdateBestIff`, `ControlRegion.UpdateSource`). A gate below the highest authority is then authorized
  (`ControlRegion.SharedAuthorizedIff`, `ControlRegion.LesserGateTakesOver`).
- Regions are placed by a 64-bit difference of starts, which misplaces a region when starts are too far apart
  (`Controller.InsertInOrderIff`, `Controller.FarApart`). The overlap test swaps a range whose length does not fit 64 bits,
  and can then miss that it shares an instant with another (`Telem.SharedInstantNoticed`, `Controller.TwoAuthorized`).
- Versions are assigned without looking at the known digest (`KvReplicas.AssignGoesBackIff`, `KvReplicas.VersionGoesBack`),
  and a transaction can name two leases for one key (`KvReplicas.MixedTransaction`).
- An open that overlaps two regions fails with its gate left open on the first (`Controller.OpenOverTwo`,
  `ControllerState.SecondOverlapReportedIff`).
- The store itself does not protect an open writer from a deletion (`DomainRun.DeletionUndone`,
  `DomainDelete.NextCommitFindsIff`); the gate does (`GatedStore.WritersKeepTheirDomains`), except for a writer whose region
  is too long for the overlap test (`GatedStore.GateMissesIff`, `GatedStore.WriterLosesDomain`) and for the first samples
  of a rate channel's writer that does not start on a multiple of the period, when a request ends where it starts
  (`GatedStore.TouchingLetThrough`, `GatedStore.DeletionSparesIff`,
  `GatedStore.RateCountsFromStartIff`, `GatedStore.RateCutsWriter`).
- Frame validation catches a repeated channel only while counts are in step (`FrameValidation.DuplicatesCaughtIff`,
  `FrameValidation.SkipThenDuplicate`).
- Rekeying a data channel does not set its index again, and rekeying to key zero fails after the directory has moved
  (`Channels.RekeyAttachedIff`, `Channels.RekeyKeepsIff`). Bulk deletion passes over virtual channels
  (`Channels.DeleteManyExact`).

## Model

| member | source | states |
|---|---|---|
| `Telem.OverlapMeaning` | x/go/telem/telem.go:158-178 | on ordered ranges the overlap test, with its wrapping span and swaps, means that they share an instant, a zero-width range being its own instant |
| `Telem.SharedInstantNoticed` | x/go/telem/telem.go:158-178 | what the overlap test makes of any two ranges that share an instant: it sees them as overlapping if and only if neither is longer than a signed 64-bit span can say, or their bounds meet a condition spelt out |
| `Telem.ValidMeaning` | x/go/telem/telem.go:123-189 | a range passes the validity test if and only if its bounds are in order and less than 2^63 apart, or the wrong way round and more than 2^63 apart |
| `DomainIndex.UnprotectedSearch` | cesium/internal/domain/index.go:206-230 | the binary search returns an overlapping domain, or the last domain starting before the query, or -1 |
| `DomainIndex.SearchFindsOwner` | cesium/internal/domain/index.go:212-230 | searching for a range inside an indexed domain finds that domain and no other |
| `DomainIndex.StampSearchUnique` | cesium/internal/domain/index.go:212-230 | for one instant the search has one answer: the last domain starting no later, exact when it covers the instant |
| `DomainIndex.FitsMeansDisjoint` | cesium/internal/domain/index.go:45-57 | a pointer that fits at a position and starts before the domains that follow overlaps no domain of the index |
| `DomainIndex.InsertSorted` | cesium/internal/domain/index.go:45-65 | inserting keeps the index sorted and disjoint if and only if the pointer fits at the position |
| `DomainIndex.InsertStored` | cesium/internal/domain/pointer.go:17-30 | a pointer to fresh bytes keeps blobs in bounds and pairwise disjoint, and readers see exactly one more domain |
| `DomainIndex.ReplaceSorted` | cesium/internal/domain/index.go:124-134 | looking at the two neighbours is enough: replacing a domain in place keeps the index sorted and disjoint if and only if neither overlaps |
| `DomainIndex.ExtendStored` | cesium/internal/domain/writer.go:256-262 | naming more bytes from the same offset keeps blobs in bounds and disjoint, and readers see the old bytes with more after them |
| `DomainDelete.LookupsSound` | cesium/internal/domain/delete.go:68-119 | sound offset calculators give a plan whose stamps lie in the boundary domains, with a non-empty time range wherever bytes are kept |
| `DomainDelete.StartRelookupFinds` | cesium/internal/domain/delete.go:125-133 | the domain the saved start pointer has become is found wherever it is, and nothing else is |
| `DomainDelete.EndRelookupFinds` | cesium/internal/domain/delete.go:134-136 | the domain the saved end pointer has become is found wherever it is, and nothing else is |
| `DomainDelete.RelookupSound` | cesium/internal/domain/delete.go:58-136 | when pointers were only added or extended in place since planning, the positions used under the lock hold what the saved pointers have become, and the saved pointers themselves if they are still there |
| `DomainDelete.ValidateDelete` | cesium/internal/domain/delete.go:383-425 | a request goes ahead only with the offsets nearest to those asked for that fit the boundary blobs, positions in order, and something to remove when both bounds fall in one domain |
| `DomainDelete.RejectMeansNegative` | cesium/internal/domain/delete.go:408-417 | an error is returned if and only if the request would keep more bytes than its span has, or its start domain lies past the one after its end domain |
| `DomainDelete.SkipLosesNothing` | cesium/internal/domain/delete.go:419-422 | a request skipped as a no-op removes nothing if and only if the start and end blobs have equal lengths, since the guard compares the start offset with the end length |
| `DomainDelete.SkipDropsDeletion` | cesium/internal/domain/delete.go:29-174 | two domains and a request, with sound calculators, whose deletion the guard drops: the requested instants stay covered |
| `DomainDelete.ProceedIsApplicable` | cesium/internal/domain/delete.go:138-141 | a validated plan meets everything the splice needs |
| `DomainDelete.PiecesSorted` | cesium/internal/domain/delete.go:143-169 | the surviving pieces have non-empty ranges, are in order, and lie between their neighbours |
| `DomainDelete.SpliceSorted` | cesium/internal/domain/delete.go:143-169 | the splice keeps the index sorted with pairwise disjoint non-empty ranges |
| `DomainDelete.TailOffset` | cesium/internal/domain/delete.go:155-162 | the back piece starts at the end of its blob less the kept bytes, although computed in wrapping 32-bit arithmetic |
| `DomainDelete.SpliceWithin` | cesium/internal/domain/delete.go:143-169 | every pointer after the splice lies, in bytes and in time, within one from before |
| `DomainDelete.SpliceStored` | cesium/internal/domain/delete.go:143-169 | the splice keeps every blob in bounds and no two blobs sharing a byte |
| `DomainDelete.SpliceExact` | cesium/internal/domain/delete.go:143-169 | for readers a deletion keeps every outside domain, the first bytes of the start blob and the last bytes of the end blob, and nothing else of the span |
| `DomainDelete.SpliceLiveBytes` | cesium/internal/domain/delete.go:143-169 | the bytes named by the index drop by the total of the span less the two kept offsets |
| `DomainDelete.SpliceCoverage` | cesium/internal/domain/delete.go:143-169 | an instant is covered after the splice if and only if it was covered and lies outside the cleared range |
| `DomainDelete.StartLookupCovers` | cesium/internal/domain/delete.go:68-94 | nothing covered at or after the requested start lies before the start boundary |
| `DomainDelete.EndLookupCovers` | cesium/internal/domain/delete.go:96-119 | nothing covered before the requested end lies after the end boundary |
| `DomainDelete.DeleteClearsRequest` | cesium/internal/domain/delete.go:29-174 | a deletion that goes ahead leaves no instant of the requested range covered, and covers no new instant |
| `DomainDelete.DeleteSparesOthers` | cesium/internal/domain/delete.go:29-174 | a deletion that goes ahead clears nothing outside the requested range but in the domains its two bounds fall in |
| `DomainDelete.NextCommitFindsIff` | cesium/internal/domain/index.go:107-134 | a writer whose domain a deletion has touched finds, with its next commit, a domain to replace if and only if a piece starting with its domain is left and no other piece of it |
| `DomainDelete.ExtensionLost` | cesium/internal/domain/delete.go:143-169 | when the end domain was extended since planning, the splice clears every instant of the extension |
| `DomainDelete.ExtensionKeptIff` | cesium/internal/domain/delete.go:143-169 | what is covered past the saved end of the end domain stays covered if and only if that domain was not extended since planning |
| `DomainDelete.StaleSplice` | cesium/internal/domain/delete.go:121-169 | the splice, which copies the pointers saved at planning time, names the blobs the index now holds if and only if each boundary with kept bytes has kept its file and offset |
| `DomainSamples.DeleteKeepsMeasure` | cesium/internal/domain/delete.go:29-174 | with calculators that count samples, a deletion that goes ahead leaves every domain naming exactly the bytes of the samples in its range, for every density, when they all did before |
| `DomainSamples.DeleteRemovesSamples` | cesium/internal/domain/delete.go:29-174 | a reader finds a sample with its bytes after such a deletion if and only if it did before and the sample is outside the requested range |
| `DomainSamples.NeverRejected` | cesium/internal/domain/delete.go:383-425 | with such calculators a request with its bounds in order is never refused with an error |
| `DomainSamples.NothingDeletedIff` | cesium/internal/domain/delete.go:29-174 | when a deletion finds nothing to delete, a requested sample stays covered if and only if the guard for adjacent domains applies to two domains of different lengths |
| `RateIndex.CountMultiples` | x/go/telem/telem.go:406-418 | there is one sample in each period |
| `RateIndex.RateCountsIff` | cesium/internal/unary/delete.go:113-214 | in a domain that starts at a sample and ends at or right after one, the calculators of a rate channel give the number of samples before a stamp, and snap to a stamp with the same samples on each side, if and only if the stamp is not before the epoch or is a multiple of the period |
| `DomainGC.OnFileSorted` | cesium/internal/domain/delete.go:276-286 | the snapshot of a file inherits time order from the index |
| `DomainGC.OnFileStored` | cesium/internal/domain/delete.go:276-286 | the snapshot inherits in-bounds, disjoint blobs, all on the collected file |
| `DomainGC.CompactHolds` | cesium/internal/domain/delete.go:305-322 | the compacted file holds every snapshot blob at its landing place |
| `DomainGC.CompactionShrinks` | cesium/internal/domain/delete.go:246-322 | live blobs fit in the old file, so the tombstone size is never negative, and the new file is shorter by exactly that size |
| `DomainGC.ResolvesToOrigin` | cesium/internal/domain/delete.go:371-379 | a piece resolves to the delta of its own snapshot pointer, in whatever order the delta map is walked |
| `DomainGC.PieceMovesWithBlob` | cesium/internal/domain/delete.go:313-352 | a piece keeps its distance from the start of its blob although the 32-bit deltas wrap |
| `DomainGC.PieceReadsSame` | cesium/internal/domain/delete.go:345-352 | one relocated pointer reads the same bytes from the compacted file |
| `DomainGC.PiecesStayApart` | cesium/internal/domain/delete.go:345-352 | two relocated pointers still share no byte |
| `DomainGC.CollectionInvisible` | cesium/internal/domain/delete.go:276-379 | however deletions split or removed pointers since the snapshot, readers see the same domains with the same bytes after the swap, and the index stays sorted, in bounds and disjoint |
| `DomainGC.RelocationKeepsLive` | cesium/internal/domain/delete.go:345-352 | relocation leaves the pointers on other files alone and the number of live bytes of every file as it was |
| `DomainRun.DeleteDescends` | cesium/internal/domain/delete.go:276-352 | deletions during a collection leave on the file only pieces of snapshot pointers |
| `DomainRun.ExtendKeeps` | cesium/internal/domain/index.go:95-146 | a later commit of a writer keeps the store invariant and adds bytes to the end of its domain |
| `DomainRun.StepKeeps` | cesium/internal/domain/delete.go:29-369 | every append, first commit, later commit, deletion and collection step keeps the store invariant and refines the reader's machine |
| `DomainRun.RunKeepsInvariant` | cesium/internal/domain/delete.go:29-369 | in every state of every run the index is sorted and its blobs are in bounds and disjoint |
| `DomainRun.RunRefinesReader` | cesium/internal/domain/delete.go:29-369 | over whole runs a first commit adds exactly its domain, later ones add bytes to its end, every deletion removes exactly its span, and interleaved collections change nothing readable |
| `DomainRun.DeletionUndone` | cesium/internal/domain/writer.go:256-262 | in the store without its gate, a tail deleted between two commits of its writer comes back with the next one |
| `DomainRun.DeleteAcrossCollection` | cesium/internal/domain/delete.go:121-169 | a family of stores in which a deletion planned before a swap and carried out after it finds its domain, passes validation and leaves a piece past the end of the file |
| `DomainRun.StalePlanReached` | cesium/internal/domain/delete.go:68-169 | a run from the empty store, with a plan made by the lookups from sound calculators, that ends so |
| `DomainRun.ExtensionLostReached` | cesium/internal/domain/delete.go:68-169 | a run from the empty store, with a plan made by the lookups from sound calculators for a request that ends where an open writer's domain starts, after which the splice clears what that writer has added |
| `DomainStore.LocateStart` | cesium/internal/domain/delete.go:68-94 | finds the start boundary of a deletion as the planning function specifies |
| `DomainStore.LocateEnd` | cesium/internal/domain/delete.go:96-119 | finds the end boundary of a deletion as the planning function specifies |
| `DomainStore.RelookupStart` | cesium/internal/domain/delete.go:125-133 | keeps the saved start position when it still holds the pointer, and otherwise searches, taking the next domain after a miss |
| `DomainStore.RelookupEnd` | cesium/internal/domain/delete.go:134-136 | keeps the saved end position when it still holds the pointer, and otherwise searches |
| `DomainStore.FindSlot` | cesium/internal/domain/index.go:45-57 | finds that a pointer overlaps a domain if and only if it does, and otherwise a position where it fits |
| `DomainStore.FindStart` | cesium/internal/domain/index.go:101-123 | finds the domain starting at a stamp if and only if there is one |
| `DomainStore.SnapshotFile` | cesium/internal/domain/delete.go:276-286 | collects exactly the pointers on the file, and the size less what they name |
| `DomainStore.CopyLive` | cesium/internal/domain/delete.go:305-322 | writes the compacted file and a delta map that fits the snapshot |
| `DomainStore.ResolvePointerOffset` | cesium/internal/domain/delete.go:371-379 | returns the delta of an entry containing the range, or none when no entry does |
| `DomainStore.DB.Insert` | cesium/internal/domain/index.go:32-77 | refuses key zero and overlapping ranges exactly, and otherwise inserts where the pointer fits and writes the whole index when asked to persist; the index stays proper if and only if the pointer has a duration |
| `DomainStore.DB.Update` | cesium/internal/domain/index.go:95-146 | replaces the domain starting with the pointer if and only if no neighbour overlaps, keeps the index sorted, and writes the whole index when asked to persist |
| `DomainStore.DB.ApplyPlan` | cesium/internal/domain/delete.go:138-174 | has the outcome of validation and splice, keeps the store valid, and rewrites the index file from the start position |
| `DomainStore.DB.FinishDelete` | cesium/internal/domain/delete.go:121-174 | carries out a plan at the positions its saved pointers have by then, wherever they were before |
| `DomainStore.DB.Delete` | cesium/internal/domain/delete.go:29-174 | has the outcome of planning, validation and splice, keeps the store valid, and leaves a file that loads as the new index when it did before |
| `DomainStore.DB.Swap` | cesium/internal/domain/delete.go:345-367 | relocates every pointer on the file and installs the compacted file; readers see no difference |
| `DomainStore.DB.GarbageCollectFile` | cesium/internal/domain/delete.go:246-369 | keeps what readers see; the file is compacted to its live bytes if and only if no reader holds it open and enough of it is unused, and the other files and the live bytes of every file stay as they are |
| `DomainStore.DB.CollectFull` | cesium/internal/domain/delete.go:219-235 | collects the full files one after another, up to the first that is missing |
| `DomainStore.DB.GarbageCollect` | cesium/internal/domain/delete.go:178-244 | keeps what readers see over all files; compacts to its live bytes exactly every full file up to the first missing one that no one reads or writes and that is unused enough, and leaves the others alone; it fails if and only if a file without a writer is missing, and otherwise leaves an index file that loads as the index |
| `GatedStore.GateMissesIff` | cesium/internal/controller/controller.go:362-379 | the gate of a deletion lets through a request that is not away from a region if and only if the region is long and shares a bound with it |
| `GatedStore.TouchingLetThrough` | cesium/internal/controller/controller.go:362-379 | the gate lets through every request that ends where a region starts |
| `GatedStore.ReversedDeletesNothing` | cesium/internal/unary/delete.go:39-42 | a request with its bounds the wrong way round that passes the validity test removes nothing |
| `GatedStore.DeletionSparesIff` | cesium/internal/domain/delete.go:29-174 | a deletion leaves a domain inside a region it is away from exactly as it was, if and only if the request does not end where the domain starts or the end calculator counts nothing up to there |
| `GatedStore.RateCountsFromStartIff` | cesium/internal/unary/delete.go:169-214 | the end calculator of a rate channel counts from the start of a domain if and only if the domain starts on a multiple of the period |
| `GatedStore.RateCutsWriter` | cesium/internal/unary/delete.go:113-214 | an index of a rate channel and a request that ends where a domain starts, whose deletion takes the first sample of that domain |
| `GatedStore.GrantIsOpenAndRelease` | cesium/internal/unary/delete.go:44-59 | a granted gate is an absolute open and a release of the controller |
| `GatedStore.GrantedAway` | cesium/internal/unary/delete.go:44-59 | a granted deletion is away from every controlled region that is not long |
| `GatedStore.GatedStepKeeps` | cesium/internal/unary/delete.go:39-68 | every control action, commit and gated deletion keeps what each open writer has committed last in the index, inside its region |
| `GatedStore.WritersKeepTheirDomains` | cesium/internal/unary/delete.go:39-68 | so it is in every state of every run whose regions are not long, however many deletions the gate lets through |
| `GatedStore.LaterCommitFindsDomain` | cesium/internal/domain/index.go:101-122 | in such runs the one domain that starts with a later commit is what its writer has committed last, and the index does not start after it |
| `GatedStore.WriterLosesDomain` | cesium/internal/unary/writer.go:104-108 | a run in which a writer without an end that starts before the epoch loses its domain to a deletion the gate does not stop |
| `IndexPersist.UintRoundTrip` | cesium/internal/domain/index_persist.go:92-126 | a little-endian integer that fits its width reads back unchanged |
| `IndexPersist.RecordLayout` | cesium/internal/domain/index_persist.go:92-105 | the byte at each of the 26 positions of a record: two's complement little-endian start and end, then file key, offset and length |
| `IndexPersist.PointerRoundTrip` | cesium/internal/domain/index_persist.go:92-126 | decoding an encoded pointer gives it back, negative stamps included |
| `IndexPersist.IndexRoundTrip` | cesium/internal/domain/index_persist.go:71-126 | loading a written index gives back the index, for every list of pointers |
| `IndexPersist.Encode` | cesium/internal/domain/index_persist.go:92-105 | fills the buffer with exactly the records of the pointers from the given position on |
| `IndexPersist.Decode` | cesium/internal/domain/index_persist.go:107-126 | reads exactly the whole records of the file |
| `IndexPersist.PersistRecord` | cesium/internal/domain/index_persist.go:39-54 | records before the start are those already in the file, the others are new |
| `IndexPersist.PersistExact` | cesium/internal/domain/index_persist.go:39-54 | a suffix write leaves a file that loads as the index if and only if the untouched part already loads as its prefix |
| `IndexPersist.DurableIndex` | cesium/internal/domain/index_persist.go:39-54 | a file written for an index sharing the first pointers loads, after the suffix write, as the new index, longer or shorter |
| `IndexPersist.StaleIndex` | cesium/internal/domain/index_persist.go:39-54 | when an earlier pointer changed without being written, the suffix write leaves a file that does not load as the index |
| `KvOperation.CommitConcat` | aspen/internal/kv/tx.go:164-186 | committing one request after another is committing their concatenation |
| `KvOperation.ApplyHolds` | aspen/internal/kv/operation.go:52-78 | an applied operation is what the engine then holds for its key, value and digest, and other keys are untouched |
| `KvVersion.Switch` | aspen/internal/kv/version.go:37-62 | splits a request, in order, into what the filter accepts and what it rejects, which `KvVersion.Filter`, `KvVersion.SplitMembers` and `KvVersion.Redelivered` pin down |
| `KvVersion.Filter` | aspen/internal/kv/version.go:64-78 | an operation passes if and only if its key is unknown or its version, and then its leaseholder, beats what the engine knows: an equal one does not |
| `KvVersion.SplitMembers` | aspen/internal/kv/version.go:37-62 | every operation is accepted or rejected according to the filter, and none is lost or made |
| `KvVersion.BatchIsSequential` | aspen/internal/kv/version.go:37-78 | on a batch without repeated keys, filtering all and committing equals filtering one at a time |
| `KvVersion.RepeatedKeysDiffer` | aspen/internal/kv/version.go:37-78 | with a repeated key an older operation later in the batch overwrites a newer one |
| `KvVersion.StaysKnown` | aspen/internal/kv/version.go:64-78 | what the filter rejects once it rejects after any further operations |
| `KvVersion.SequentialKnows` | aspen/internal/kv/version.go:64-78 | whatever has been through the filter is rejected from then on |
| `KvVersion.Redelivered` | aspen/internal/kv/version.go:37-78 | a request without repeated keys delivered again, after any others, is rejected whole and in order and changes nothing |
| `KvVersion.NewestStep` | aspen/internal/kv/version.go:64-78 | one more operation through the filter keeps the engine at a newest operation for each key |
| `KvVersion.SequentialHoldsNewest` | aspen/internal/kv/version.go:64-78 | after any sequence the engine holds for each key the maximum by version and then leaseholder |
| `KvVersion.DeliverAllIsSequential` | aspen/internal/kv/version.go:48-78 | delivering batches without repeated keys equals filtering their operations one at a time |
| `KvVersion.SequentialConverges` | aspen/internal/kv/version.go:64-78 | sequences with the same operations, in any order and number, lead the filter to the same engine |
| `KvVersion.Convergence` | aspen/internal/kv/version.go:48-78 | nodes that receive the same operations in any order, number and batching end with the same data and digests, those of the newest operation per key |
| `KvTx.Allocate` | aspen/internal/kv/lease.go:32-58 | an existing key keeps its lease, a different requested lease is refused, a new key gets the requested lease or else the host, and deleting an unknown key is not found |
| `KvTx.RecordsReflect` | aspen/internal/kv/tx.go:82-100 | a transaction's cache holds a touched key if and only if its last digest is a Set |
| `KvTx.RecordsLastWord` | aspen/internal/kv/tx.go:82-100 | a transaction reads, for every key, what the last of its operations for it sets, nothing when that deletes it, and the value from before when it has none |
| `KvTx.RecordsDigests` | aspen/internal/kv/tx.go:82-100 | the digests a transaction remembers are those of its operations, in order |
| `KvTx.DataAfterIsCommitted` | aspen/internal/kv/tx.go:164-186 | replaying a request on data is what committing it makes of an engine's data |
| `KvTx.ToRequests` | aspen/internal/kv/tx.go:102-138 | fails if and only if a set key has no cached value, and otherwise partitions the digests by leaseholder in order |
| `KvTx.GroupReplay` | aspen/internal/kv/tx.go:102-138 | one request leaves a key alone, or gives it what its last digest for the key says, with the cached value |
| `KvTx.ReplayFaithful` | aspen/internal/kv/tx.go:102-138 | when every leaseholder has the final word on a key, replaying in any order gives its cached value |
| `KvTx.ReplayUnfaithful` | aspen/internal/kv/tx.go:102-138 | a leaseholder without the final word can be replayed last, and then the transaction's value is lost |
| `KvTx.SplitFaithfulIff` | aspen/internal/kv/tx.go:102-138 | every replay order gives the cached values if and only if each leaseholder's last digest for a touched key is a Set exactly when the key is cached |
| `KvTx.SharedLeaseholderHasFinalWord` | aspen/internal/kv/tx.go:120-131 | with one leaseholder per key, the last digest under a leaseholder is the last digest of the key |
| `KvTx.SplitPreservesMeaning` | aspen/internal/kv/tx.go:82-138 | a transaction with one leaseholder per key means the same in every replay order: every key gets what the last operation for it says, and keys without one keep their value |
| `KvTx.CommitsIff` | aspen/internal/kv/tx.go:102-119 | a transaction commits if and only if no key it has set ends up deleted |
| `KvCluster.CommitTxCarries` | aspen/internal/kv/tx.go:70-138 | committing a transaction sends every one of its operations to its leaseholder, with the value the transaction reads for it, and nothing else |
| `KvCluster.AssignLogOk` | aspen/internal/kv/version.go:114-124 | a node that assigns only its own requests hands out a block no earlier operation of it has |
| `KvCluster.GossipedOk` | aspen/internal/kv/version.go:37-62 | a filtered and committed gossip batch leaves engine and store agreeing with assigned operations |
| `KvCluster.TransformOk` | aspen/internal/kv/gossip.go:151-166 | what the recovery transform lets through is marked recovered and has the digest of an assigned operation |
| `KvCluster.StoreKeepsLast` | aspen/internal/kv/store.go:76-83 | the store has for each key the last operation it was given for it, and other entries as they were |
| `KvCluster.AssignedStore` | aspen/internal/kv/store.go:76-83 | an assigned request leaves in the store, for each of its keys, the last operation with its version, to be spread, and other entries as they were |
| `KvCluster.GossipedStore` | aspen/internal/kv/store.go:76-83 | a gossiped request leaves in the store those of its operations that pass the filter, and other entries as they were |
| `KvCluster.TransformConcat` | aspen/internal/kv/gossip.go:151-166 | transforming one message of feedback after another is transforming them together |
| `KvCluster.TransformIsPeriodic` | aspen/internal/kv/gossip.go:151-166 | an operation that has been fed back a number of times is emitted as recovered the next time if and only if that number is a positive multiple of the threshold plus one |
| `KvCluster.StepKeeps` | aspen/internal/kv/kv.go:188-253 | every step of the cluster keeps the invariant tying logs, engines, stores and messages together |
| `KvCluster.RunKeepsInvariant` | aspen/internal/kv/kv.go:188-253 | the invariant holds in every reachable state |
| `KvCluster.DataAgreesWithDigests` | aspen/internal/kv/tx.go:164-186 | in every reachable state no two assigned operations share leaseholder and version, data agrees with digests, and infected operations in stores and messages carry their assigned value |
| `KvCluster.LogCoherent` | aspen/internal/kv/version.go:114-124 | the operations of any run meet what convergence asks of them |
| `KvCluster.SameVersionSameValue` | aspen/internal/kv/version.go:64-78 | two replicas that know the same version and leaseholder for a key hold the same value for it, or both none |
| `KvCluster.DigestOwned` | aspen/internal/kv/lease.go:32-58 | the lease of a key survives: what a node knows of it, deleted or not, names its owner |
| `KvCluster.StepKeepsOwned` | aspen/internal/kv/lease.go:32-84 | when keys are created under one leaseholder, every transaction, request and assigned operation names the key's owner |
| `KvCluster.StepVersionsMonotone` | aspen/internal/kv/version.go:64-124 | the version a node knows for a key never decreases, on the filtered path and on the assigner's path that skips the filter |
| `KvCluster.LeaseAndVersionsStable` | aspen/internal/kv/kv.go:188-253 | over runs with one leaseholder per key, later operations name it, no node forgets the lease, and known versions never decrease |
| `KvReplicas.FreshCommit` | aspen/internal/kv/kv.go:209-214 | operations newer than what the engine knows, and than each other per key, commit as if they had passed the filter one at a time |
| `KvReplicas.AssignedFresh` | aspen/internal/kv/version.go:114-124 | with one leaseholder per key, a block of assigned versions is newer than everything the node knows of its keys |
| `KvReplicas.StepAbsorbs` | aspen/internal/kv/kv.go:202-214 | with one leaseholder per key, every step takes a node's engine through the filter one operation at a time, whichever path the operations went |
| `KvReplicas.NodeHoldsNewest` | aspen/internal/kv/kv.go:188-253 | in every state of such a run each node holds, per key, a newest of the operations it has assigned or been sent |
| `KvReplicas.AbsorbedIsKnown` | aspen/internal/kv/version.go:64-78 | with one leaseholder per key, what a node has assigned or been sent it rejects in every later state |
| `KvReplicas.FeedbackExact` | aspen/internal/kv/version.go:37-62 | the feedback to a gossiped request is about exactly those of its operations that the filter rejects |
| `KvReplicas.KnownIsFedBack` | aspen/internal/kv/version.go:37-62 | a node that is sent only what it has taken in sends back exactly the digests of it, in order, and is unchanged |
| `KvReplicas.GossipSpreads` | aspen/internal/kv/store.go:28-39 | a node that has received what another sent it knows every operation the other was still spreading when it sent it |
| `KvReplicas.RecoversEvery` | aspen/internal/kv/gossip.go:133-166 | in every run a node marks an operation recovered exactly each time it is told of it after a positive multiple of the threshold plus one, in whatever messages |
| `KvReplicas.ReplicasConverge` | aspen/internal/kv/kv.go:188-253 | in every such run two nodes, at any two times, that have taken in the same operations by assigning or by gossip hold the same data and digests |
| `KvReplicas.CommitLast` | aspen/internal/kv/tx.go:175-184 | a committed request leaves for each key its last operation for that key |
| `KvReplicas.AssignGoesBackIff` | aspen/internal/kv/kv.go:209-214 | for requests of any size the assigner lowers the version a node knows for a key if and only if it is ahead of the one given to the last operation for the key, which only another leaseholder's can be |
| `KvReplicas.VersionGoesBack` | aspen/internal/kv/kv.go:209-214 | a run of two nodes that create one key under different leases, whose last step takes a known version from 2 back to 1 |
| `KvReplicas.MixedTransaction` | aspen/internal/kv/tx.go:102-138 | a run that reaches a transaction with requests that, replayed in some order, lose the value it set whatever the data |
| `KvPipeline.VersionAssigner.Assign` | aspen/internal/kv/version.go:114-124 | writes the versions into the request in place and advances the counter by its size |
| `KvPipeline.Transaction.ApplyOp` | aspen/internal/kv/tx.go:82-100 | allocates the lease, and caches the write and its digest only when leased; `KvTx.RecordsLastWord` says what the cache then holds |
| `KvPipeline.CommitTo` | aspen/internal/kv/tx.go:164-186 | applies every operation with its digest, in order |
| `KvPipeline.ToBatchRequest` | aspen/internal/kv/store.go:28-39 | collects exactly the infected operations of the store, one per key, walked in any order |
| `KvPipeline.StoreSink.Store` | aspen/internal/kv/store.go:76-83 | overwrites the entries of the request's keys, later operations winning |
| `KvPipeline.GossipRecovery.Transform` | aspen/internal/kv/gossip.go:151-166 | counts feedback per key and version in place and emits what has spread enough, as `KvCluster.TransformIsPeriodic` says |
| `ControlRegion.OpenKeeps` | cesium/internal/controller/controller.go:229-248 | opening a gate keeps the region valid and the best gate in control |
| `ControlRegion.UpdateMovesControl` | cesium/internal/controller/controller.go:153-192 | beyond the one authority, an update changes at most which gate is in control |
| `ControlRegion.NonHolderUpdateKeepsBest` | cesium/internal/controller/controller.go:182-191 | an update of a gate not in control leaves the best gate in control |
| `ControlRegion.ReleaseKeeps` | cesium/internal/controller/controller.go:197-227 | a release leaves the best gate in control, in any map order, and is reported as a release exactly when no gate is left |
| `ControlRegion.HolderUpdateOutranked` | cesium/internal/controller/controller.go:160-180 | a holder stays if and only if no gate outranks its new authority, and otherwise hands over to one that does |
| `ControlRegion.HolderUpdateNotBest` | cesium/internal/controller/controller.go:164-176 | with two gates above it the walk may hand over to the lesser one |
| `ControlRegion.LesserGateTakesOver` | cesium/internal/controller/controller.go:164-176 | the life of a region with three gates that ends with the best gate out of control and, under shared concurrency, a gate below the highest authority authorized |
| `ControlRegion.HolderUpdateBestIff` | cesium/internal/controller/controller.go:160-180 | a holder's update leaves the best gate in control in every map order if and only if at most one gate outranks it |
| `ControlRegion.UpdateSource` | cesium/internal/controller/controller.go:161-175 | an update's transfer names the state that was in control unless a holder hands over with a changed authority, which is reported with the new authority |
| `ControlRegion.StepAccounts` | x/go/control/transfer.go:39-63 | each transfer takes the old holder to the new one, and an empty transfer means that the holder's state did not change |
| `ControlRegion.LedgerTracksHolder` | cesium/internal/controller/controller.go:153-248 | folding the transfers over the life of a region always gives the state in control |
| `ControlRegion.BestUntilContested` | cesium/internal/controller/controller.go:153-248 | until a holder's update is contested, the gate of highest authority and then earliest position is in control |
| `ControlRegion.SharedAuthorizedIff` | cesium/internal/controller/controller.go:70-93 | under shared concurrency the gates of highest authority are always authorized, and no others are if and only if the gate in control is one of them, as the best gate is |
| `ControlRegion.SharedUntilContested` | cesium/internal/controller/controller.go:70-93 | until a holder's update is contested a gate is authorized under shared concurrency if and only if no gate of the region has a higher authority |
| `ControlRegion.TransfersNameResource` | cesium/internal/controller/controller.go:153-248 | every transfer over the life of a region names the resource the region was made for |
| `Controller.CompareMeaning` | cesium/internal/controller/controller.go:482-484 | the 64-bit difference orders two starts as they are if and only if the difference fits |
| `Controller.FindPlace` | cesium/internal/controller/controller.go:482-484 | the loop computes the place the wrapping binary search function gives |
| `Controller.PlaceFits` | cesium/internal/controller/controller.go:482-484 | when every range the search should look at has a comparable start, the place found lies between earlier and later starts |
| `Controller.PlaceMisses` | cesium/internal/controller/controller.go:482-484 | otherwise some range ends up on the wrong side of the place found |
| `Controller.InsertInOrderIff` | cesium/internal/controller/controller.go:472-487 | inserting a region keeps regions ordered by start if and only if every region that a search by true order looks at has a comparable start |
| `Controller.StepKeeps` | cesium/internal/controller/controller.go:349-498 | every open, absolute open, register, update and release keeps regions valid and pairwise found not to overlap, wherever the search puts a new one |
| `Controller.RunKeepsInvariant` | cesium/internal/controller/controller.go:349-498 | regions are valid and pairwise found not to overlap in every reachable state |
| `Controller.RunKeepsOrder` | cesium/internal/controller/controller.go:472-487 | regions are ordered by start in every state of a run whose regions held at the same time have comparable starts |
| `Controller.InOrderMeansFollowing` | cesium/internal/controller/controller.go:472-487 | regions in order with bounds in order end before the next begins |
| `Controller.RunKeepsDisjoint` | cesium/internal/controller/controller.go:362-447 | in every reachable state no two regions cover the same instant, unless one of their ranges is too long for the overlap test |
| `Controller.AtMostOneAuthorized` | cesium/internal/controller/controller.go:70-93 | so, under exclusive concurrency, no instant of a region has two open gates authorized for it; `Controller.SharedAuthorizedInRun` is about shared concurrency |
| `Controller.RunKeepsBest` | cesium/internal/controller/controller.go:153-248 | in every state of a run before a contested update the best gate of every region is in control |
| `Controller.SharedAuthorizedInRun` | cesium/internal/controller/controller.go:70-93 | in such states a gate is authorized under shared concurrency if and only if no gate of its region has a higher authority |
| `Controller.RegionNamed` | cesium/internal/controller/controller.go:349-487 | every region of a run has the time range and the resource that some earlier open or registration asked for |
| `Controller.FarApart` | cesium/internal/controller/controller.go:482-484 | for all two ranges with starts too far apart to compare, a run that leaves the later region first |
| `Controller.RegionsOutOfOrder` | cesium/internal/controller/controller.go:482-484 | two concrete ranges for which that happens |
| `Controller.TwoAuthorized` | cesium/internal/controller/controller.go:412-447 | a run with a long range after which two gates are authorized for one instant |
| `Controller.UnnoticedAuthorized` | cesium/internal/controller/controller.go:412-447 | for all two ranges that share an instant the overlap test does not notice, opening a gate on each leaves two gates authorized for it |
| `Controller.OpenOverTwo` | cesium/internal/controller/controller.go:420-436 | for all two ranges found not to overlap and a third that overlaps both, the run of three opens ends with the third gate open on the first region |
| `ControllerState.BestOf` | cesium/internal/controller/controller.go:214-225 | walking the remaining gates in any order finds the best one |
| `ControllerState.LiveRegion.Open` | cesium/internal/controller/controller.go:229-248 | refuses a subject that already has a gate, and otherwise adds the gate and returns the transfer |
| `ControllerState.LiveRegion.Update` | cesium/internal/controller/controller.go:153-192 | changes the authority in place and moves control as the update relation allows |
| `ControllerState.LiveRegion.Release` | cesium/internal/controller/controller.go:197-227 | removes the gate and passes control on as the release relation allows |
| `ControllerState.LiveController.InsertNewRegion` | cesium/internal/controller/controller.go:472-487 | puts the new region where the wrapping search says and keeps the controller valid |
| `ControllerState.LiveController.OpenGateAndMaybeRegister` | cesium/internal/controller/controller.go:412-447 | opens the gate on the overlapping region or on a new one, and returns each error exactly when it applies; a second overlap is an error that leaves the gate open on the first |
| `ControllerState.OpenTold` | cesium/internal/controller/controller.go:412-447 | an open returns a gate, or the error of a second overlap, if and only if its gate is left open |
| `ControllerState.OpenAbsoluteTold` | cesium/internal/controller/controller.go:349-407 | so does an open of the highest authority, which otherwise says that a gate controls the region, and then one does |
| `ControllerState.OpenTransferTold` | cesium/internal/controller/controller.go:229-248 | the transfer returned with a new gate occurs if and only if the gate takes control, and is to the state then in control |
| `ControllerState.SecondOverlapReportedIff` | cesium/internal/controller/controller.go:420-436 | a second overlap is reported if and only if the subject is new to the first region overlapped and another one overlaps after it |
| `ControllerState.LiveController.OpenOnOverlap` | cesium/internal/controller/controller.go:420-436 | scans the regions in order, opens on the first that overlaps unless refused, and reports a second one |
| `ControllerState.LiveController.OpenAbsoluteGateIfUncontrolled` | cesium/internal/controller/controller.go:349-407 | opens a gate of the highest authority on an overlapping region nobody controls or on a new one, and returns each error exactly when it applies; refused as controlled, it changes nothing |
| `ControllerState.LiveController.Register` | cesium/internal/controller/controller.go:459-470 | makes a region if and only if none overlaps it |
| `ControllerState.LiveController.SetAuthority` | cesium/internal/controller/controller.go:102-104 | updates a gate of one region and leaves the others alone |
| `ControllerState.LiveController.ReleaseGate` | cesium/internal/controller/controller.go:135-143 | releases a gate and removes the region it leaves without gates |
| `StreamWriter.ProcessKeeps` | cesium/writer_stream.go:136-168 | each request keeps the responses numbered and the writer guarded by its error |
| `StreamWriter.RunKeeps` | cesium/writer_stream.go:136-168 | responses carry the numbers 1, 2, 3 and on in order, and after a failure no write or commit is done until an Error request is answered |
| `StreamWriter.KeptUntilCleared` | cesium/writer_stream.go:136-168 | an error is kept if and only if some failing write, commit or change of authority has not been followed by an Error request |
| `StreamWriter.CommitAcknowledgedIff` | cesium/writer_stream.go:157-161 | a commit is done if and only if no failure is unresolved, acknowledged if and only if it is done without error, and carries its end if and only if it is done |
| `StreamWriter.WriteAnsweredIff` | cesium/writer_stream.go:152-167 | a write is done if and only if no failure is unresolved, and answered, negatively, if and only if it is not done or fails |
| `StreamWriter.ErrorAnswered` | cesium/writer_stream.go:140-151 | an Error request is answered with the error of the last failure and clears it; a change of authority is always acknowledged |
| `StreamWriter.LiveWriter.ProcessRequest` | cesium/writer_stream.go:136-228 | updates the sequence number, the kept error and the responses as the request loop specifies |
| `FrameValidation.EvenMeaning` | cesium/writer_stream.go:428-468 | the lengths compared during the scan agree if and only if all series of the group have the same length and the first of them a known density |
| `FrameValidation.AcceptsIff` | cesium/writer_stream.go:423-487 | a frame is accepted if and only if its series for the group have the same length, no channel occurs more often than its count lags, and none or as many series as channels are named |
| `FrameValidation.CountingMeansOnce` | cesium/writer_stream.go:470-487 | as many series as channels, none repeated, is every channel exactly once |
| `FrameValidation.InSyncAcceptsIff` | cesium/writer_stream.go:423-487 | with counts in step a frame is accepted if and only if its series for the group have the same length and it names no channel of the group or each exactly once |
| `FrameValidation.LagAcceptsDuplicate` | cesium/writer_stream.go:423-487 | a group with a channel lagging by two accepts a frame naming it twice and another not at all |
| `FrameValidation.SkipThenDuplicate` | cesium/writer_stream.go:350-487 | for every group of two or more, two calls from opening on: a frame that skips the group, and one accepted with a channel twice |
| `FrameValidation.DuplicatesCaughtIff` | cesium/writer_stream.go:423-487 | duplicates are always caught if and only if the group has at most one channel or all counts are in step |
| `FrameValidation.SyncStep` | cesium/writer_stream.go:350-386 | an accepted frame that names the group keeps the counts in step |
| `FrameValidation.NextFrameValidated` | cesium/writer_stream.go:350-487 | from opening until the first frame rejected or skipping the group, acceptance means series of the same length naming none or each channel exactly once |
| `FrameValidation.IdxWriter.ValidateWrite` | cesium/writer_stream.go:423-487 | counts the call, updates the counts in place and accepts as the scan specifies |
| `Channels.CreateKeeps` | cesium/channel.go:137-192 | creation, refused or not, keeps keys disjoint and true, every named index existing, and every channel attached to its index |
| `Channels.CreateExact` | cesium/channel.go:137-192 | a channel is created if and only if its key is free, its type fits its kind and it would be sound in the registry, and is then the only change; a refused one changes nothing, but for the directory a virtual index channel leaves |
| `Channels.RekeyKeepsIff` | cesium/channel.go:197-293 | rekeying keeps the registry whole if and only if it does not move an existing channel to key zero, refused only after its directory has moved |
| `Channels.RekeyExact` | cesium/channel.go:197-293 | rekeying succeeds if and only if the new key is free and the channel, if there is one, is closed and does not go to key zero; it then renames that key throughout, and otherwise leaves the channels alone |
| `Channels.RekeyAttachedIff` | cesium/channel.go:224-258 | rekeying keeps every channel attached to the index it names if and only if the moved channel is not indexed by another |
| `Channels.RekeyDetaches` | cesium/channel.go:224-260 | a registry in which rekeying a data channel leaves it without an index |
| `Channels.RekeyRoundTrip` | cesium/channel.go:197-293 | rekeying a channel and back restores the registry, dependents included |
| `Channels.RemoveKeeps` | cesium/delete.go:158-194 | removing a channel, refused or not, keeps the registry whole and the channel is gone when it succeeds |
| `Channels.DeleteExact` | cesium/delete.go:57-82 | deleting a channel, persisted or virtual, succeeds if and only if there is none, or it is closed and no other names it as its index; it and its directory are then all that is gone |
| `Channels.FirstPassExact` | cesium/delete.go:108-134 | the first pass succeeds if and only if no named data channel is open, and then removes exactly those |
| `Channels.SecondPassExact` | cesium/delete.go:136-151 | the second pass succeeds if and only if the index channels are distinct, closed and without dependents, and then removes exactly those |
| `Channels.DeleteManyExact` | cesium/delete.go:87-154 | bulk deletion succeeds if and only if nothing named is open, no index is named twice and every dependent of a named index is named, and then removes exactly the persisted channels named, in any order |
| `Channels.StepKeeps` | cesium/channel.go:137-293 | every create, rekey and delete that does not strand a channel keeps the registry whole |
| `Channels.RunKeepsIntegrity` | cesium/channel.go:137-293 | over every run that moves no channel to key zero, keys stay disjoint and true and every named index is an existing index channel |
| `Channels.ErrorFreeKeepsIntegrity` | cesium/channel.go:137-293 | an error-free run never strands a channel and keeps the registry whole |
| `Channels.DB.CreateChannel` | cesium/channel.go:137-192 | updates the maps as creation specifies |
| `Channels.DB.RekeyChannel` | cesium/channel.go:197-293 | moves the channel and rewrites its dependents as rekeying specifies |
| `Channels.DB.RemoveChannel` | cesium/delete.go:158-194 | refuses an index with dependents or an open channel, and otherwise removes it |
| `Channels.DB.DeleteChannel` | cesium/delete.go:57-82 | removes one channel and its directory, a missing directory not being an error |
| `Channels.DB.DeleteChannels` | cesium/delete.go:87-154 | runs the two passes, stopping at the first error |

## Left out

- DomainDelete.LookupsSound: the offset calculators come from the unary database; the lemma asks of them that the snapped stamp stays inside the domain on the right side of the request and that kept bytes come with a non-empty range, and 64-bit overflow of sample count times density is not modelled.
- DomainRun.RunRefinesReader: a deletion's planning and splice are one step, and one file is collected at a time; `DomainRun.StalePlanReached` and `DomainRun.ExtensionLostReached` show why the first matters. That the bytes a commit names are the writer's own, not yet named by others, is taken from the file controller.
- DomainSamples.DeleteRemovesSamples: asks that the calculators count the samples of a domain before a stamp and that every domain holds its samples; those of a rate channel do (`RateIndex.RateCountsIff`), those of an index channel, which search the index's own domains, are not modelled.
- RateIndex.RateCountsIff: the domain starts at a sample and ends at or right after one, as writers of a rate channel leave it; the period is a whole number of nanoseconds, in place of the floating-point quotient it is computed from, and sample counts do not overflow.
- GatedStore.RateCountsFromStartIff: the period is a whole number of nanoseconds, in place of the floating-point quotient it is computed from, and sample counts do not overflow.
- GatedStore.WritersKeepTheirDomains: deletions have sound calculators that count from the start of a domain (`GatedStore.RateCutsWriter` shows why), a deletion with its gate is one step, collections are not part of that machine, and writers that share a region, or open on the region of a deletion under way, are seen as one writer of the region.
- DomainStore.FindStart: asks that the first domain not start after the stamp, where the source would index with -1; `GatedStore.LaterCommitFindsDomain` shows that later commits meet it.
- DomainStore.DB.Update: asks for that too, and for a range with a duration that fits 64 bits.
- DomainStore.DB.Insert: asks for bounds in order with a distance that fits 64 bits; a commit checks only that its end follows its start.
- DomainStore.DB.GarbageCollectFile: the threshold is a number of bytes given by the caller, in place of the floating-point fraction of the file size; reopening and renaming files is one step that succeeds.
- DomainStore.DB.Delete: plans and carries out with nothing in between; `DomainStore.DB.FinishDelete` carries a plan out on an index that has changed since.
- DomainStore.DB.GarbageCollect: the loop counter does not wrap, so a file counter of 65535 is not modelled.
- IndexPersist.DurableIndex: a crash between the truncation and the write is not modelled.
- KvVersion.Convergence: asks that operations with equal version and leaseholder be the same change, which `KvCluster.LogCoherent` provides for every run.
- KvCluster.StepKeeps: filter and persist are one step and so are assign and persist; in the source they are pipeline stages that can interleave. Engine writes succeed, the set of nodes is fixed, and restarts are not modelled.
- KvReplicas.RecoversEvery: the recovery threshold is the same throughout the run, as configured.
- Controller.AtMostOneAuthorized: releasing the last gate and removing its region are one step; in the source they take two locks, and an open between the two is not modelled, nor are gates kept by a caller after their region is gone.
- StreamWriter.RunKeeps: what writes, commits and authority changes do to channels is given as their outcome.
- FrameValidation.NextFrameValidated: alignment, high-water marks, commits and the writing of series are not modelled.
- Channels.RekeyRoundTrip: asks that no stray directory has the new key; data files, names, concurrency settings and file-system failures are not modelled.
- Recovery of a restarted node (aspen/internal/kv/recovery.go): it applies operations without the filter and without writing digests, so it is outside the cluster's steps.
- LeadingState of the controller, which reads the first region.
- Unary and virtual databases, iterators, streamers, the file controller and the domain writer.
- Pledging, membership gossip and failure detection in Aspen.
- Transports, encoding of requests, configuration, instrumentation and contexts.
- The distribution layer, access control, the user interfaces, the C++ driver and the language clients.
