# Store verification

A Dafny 4.11 model of the hard parts of this store module and proofs about it: the optimistic
multi-version store that runs the transactions of a block speculatively and in parallel, the write-back
cache, the Merkle commitments and their ICS-23 proofs, the key/value pair codec, the pruning manager,
prefix stores, and the chunks, the index and the item stream of snapshots.

`dafny verify dfyconfig.toml` checks everything.

## What is modelled

**Multi-version store** (`VersionedItem`, `MultiVersion`, `Execution`, `Simulation`, `Replay`, `Serializability`,
`Schedules`, `EmptyValues`, `StillScan`, `StillExecution`, `Completeness`, `EstimatesMet`, `Aborts`; the imperative code
in `MultiVersionStore`, `VersionIndexedStore` and `Validation`). Each key holds one version per transaction index: a
value, a deletion or an ESTIMATE. A transaction is any deterministic program: a function from the answers it has had
so far to its next call (get, put, delete, open an iterator, Valid, Key, Value, Next, Close). A speculative execution
answers these calls from its writeset, its readset and the shared store, and records what it read and iterated. The
shared store may change between any two calls and during a call: a call carries its own answers, which need not all
come from one state. The protocol is a step machine whose actions (begin, one call, publish, publish estimates,
invalidate, clear the records) interleave freely.

The main theorem, `Serializable`, says: if at the end every transaction's latest publication is a regular one and
validates without conflicts, then flushing leaves exactly what running the transactions one after another leaves. It
holds for every block, every run, every number of re-executions and whatever answers the calls got, as long as no key
meets both nil and the empty value, which the readset comparison takes for each other. `SerializableIffApart` proves
this to be the exact condition on the values the keys may have, and `SerializableIffNoEmptyValues` that empty values
ruled out in the writes alone, or in the parent alone, are not enough. The rule that an empty new readset does not
replace a stored one is part of the model and sound: the stale readset can only reject more.

The converse, `LookingIsAccepted`, needs no condition on the values: every block whose transactions, run one after
another, commit and look at every iterator they open over a range that is not empty has an accepted run. So validation
never refuses an execution on a store that held still, but for iterators that nobody looked at. Where no key may be both
absent and empty these are all the blocks that can be accepted (`AcceptableIffLooks`), and only there
(`LooksDecidesIffApart`).

Validation of an iteration runs it again on the lazy merge iterator. An estimate on the way is taken for a deletion and
reported on a channel; the first of report and verdict to be received decides. `EstimatesMet` says exactly which
estimates a replay comes upon and which answers that allows. `Aborts` says the same of executions: for every call, exactly
when it aborts and which writer the abort names.

The classes follow the loops of the source, each proved equal to the function the theorems speak about.

**Write-back cache** (`MergeIterator`, `CacheKV`). The cache, the set of keys not yet in the sorted index, and the
index itself; iteration sorts lazily and merges with the parent, in both directions, and always shows the
plain overlay of the cache on the parent.

**Commitments** (`Merkle`, `MerkleMap`, `ProofSoundness`, `Bits`, `Varint`). The tree of section 2.1 of RFC 6962 and the
audit paths of section 2.1.1, converted to ICS-23 steps. The hash is a parameter; nothing is assumed of it but 32-byte
digests. Instead of assuming injectivity, methods compute a collision from two maps with one root, and from an accepted
proof that says something false of the map.

**Pair codec** (`Kv`, `KvCodec`, `KvParser`, `KvUnknown`, `KvRefused`). The backward-filling printer and the forward
parser of the Protocol Buffers wire format, with 64-bit arithmetic written out, on arbitrary bytes and on messages with
unknown and repeated fields. An independent description of messages as lists of fields says what the printer writes and what the
parser makes of messages that are whole, cut off or malformed.

**Pruning** (`Words`, `Pruning`, `PruningRuns`). Deliveries of finished snapshots in any order, repeated or not,
with crashes, reloads and option changes; 64-bit wrap-around is explicit.

**Prefixes** (`PrefixStore`), **snapshot chunks** (`ChunkStream`), **snapshot index** (`SnapshotStore`) and
**snapshot items** (`SnapshotStream`). `Bytes` and `Listing` hold what all of them share.

Findings, each with a lemma or a contract that states it:

- Serializability fails exactly when some key may be both absent and empty (`EmptyValues.SerializableIffApart`); empty
  values in the parent alone suffice for that, and so do written ones (`EmptyValues.SerializableIffNoEmptyValues`).
- A transaction that opens an iterator over a range with keys in it and commits without looking at it never validates,
  however often it is executed again: its record is an empty iteration without an early stop
  (`Completeness.UnlookedIteratorRejected`).
- An iteration with one estimate in its way may be accepted as if that key were deleted
  (`EstimatesMet.OneEstimateRaces`); `EstimatesMet.AnswersExact` says when, and past two estimates none is accepted
  (`EstimatesMet.TwoEstimatesRefused`). The replay may also come upon an estimate just beyond the early stop.
- An estimate on a key read is reported as a conflict but does not make the readset invalid
  (`MultiVersion.ReadsetFailsExact`, `MultiVersion.ConflictsExact`).
- A non-membership proof for the empty map has neither side, and proofs over a key with an empty value are refused by
  ICS-23, so neither kind verifies (`MerkleMap.EmptyMapHasNoProof`, `MerkleMap.BracketsProveAbsence`,
  `MerkleMap.ExistenceVerifies`).
- The slice-backed version item differs from the ordered map exactly on out-of-range updates
  (`VersionedItem.OutOfRangeUpdate`); the fixed size 10000 at multiversion/store.go:211 makes indices from
  10000 on such updates. A deletion of that kind is seen by earlier transactions than its own
  (`VersionedItem.ClampedUpdateSeen`).
- `cachekv/README.md` says that `Write` clears the cache and that `Get` caches what it reads; the code does neither,
  and the model follows the code.
- A cachekv iterator over an inverted range panics on a store never iterated before
  (`CacheKV.Store.Iterator` returns null exactly then).
- `KeepRecent` of 2^63 or more does not keep recent heights (`PruningRuns.KeepsRecentExactly`).
- A snapshot height delivered again is harmless only right below the head of the list (`PruningRuns.DeliveryExact`). One
  that is still in the list, the head included, stops pruning for good (`PruningRuns.RepeatStalls`), and one further
  below the head sets it back (`PruningRuns.RepeatBelowHead`).
- The snapshot with greatest height and greatest format is never listed nor pruned
  (`SnapshotStore.AllOnesSurvives`).
- `ChunkReader.Read` drops bytes that arrive together with the end of file (`ChunkStream.ReadAll`).
- An extension that leaves payloads unread ends a restore early and without an error, and one that never calls its
  reader makes the restore run forever (`SnapshotStream.StopsAt`).

## Model

| member | source | states |
|---|---|---|
| `Serializability.Serializable` | multiversion/store.go:357-473 | whatever answers the calls got and after any interleaving of executions, publications, estimates, invalidations and cleared records, if no key meets both nil and empty and every transaction is cleanly published and validates with no conflict, the flush equals the serial execution |
| `Serializability.StoreSerializable` | multiversion/store.go:357-473 | the same for every block whose values bytes.Equal tells apart, where each answer comes from some state the store has been in |
| `EmptyValues.SerializableIffApart` | multiversion/store.go:379-379 | for any set of values the keys may have that some parent meets: every accepted run of every block with these values is serializable if and only if no key may be both absent and empty |
| `EmptyValues.SerializableIffNoEmptyValues` | multiversion/store.go:379-379 | every accepted run of every block is serializable if and only if empty values are ruled out both in the writes and in the parent; each failing side is a concrete block and schedule |
| `Completeness.AcceptableIffLooks` | multiversion/store.go:284-423 | where no key may be both absent and empty, some run of a block is accepted if and only if its serial execution commits and looks at every iterator it opens over a non-empty range |
| `Completeness.LookingIsAccepted` | multiversion/store.go:284-423 | every block, whatever its values, whose serial execution commits and looks at every iterator it opens over a non-empty range has an accepted run, even with every call meeting one state of the store |
| `EmptyValues.LooksDecidesIffApart` | multiversion/store.go:379-379 | for any set of values the keys may have that some parent meets: the serial execution decides in this way which blocks can be accepted if and only if no key may be both absent and empty |
| `Completeness.RecordValidates` | multiversion/store.go:342-423 | a record of what the view holds validates without conflicts if and only if each of its iterators was looked at or had nothing to show |
| `Completeness.PassesIffShows` | multiversion/store.go:308-331 | the record of an iteration that met what the store holds passes the phantom check if and only if somebody looked or there was nothing |
| `Completeness.LookingExecutes` | multiversion/mvkv.go:147-198 | on a store that holds still, a transaction whose serial run commits and looks executes to its end in step with that run |
| `Completeness.UnlookedIteratorRejected` | multiversion/store.go:308-331 | a transaction that only opens an iterator leaves the store as it is when run alone, and is ever accepted if and only if the range is empty |
| `StillExecution.StillStep` | multiversion/mvkv.go:147-198 | with no estimate below and nothing changing, every call the serial run can make goes through without abort, answers as that run does, and the record goes on agreeing |
| `Serializability.EveryRunOk` | multiversion/mvkv.go:392-432 | invariant of every run, whatever answers its calls got: bookkeeping is exact, every running execution follows its program, every clean index holds exactly its finished execution's writes and records |
| `Serializability.ValidatedAgrees` | multiversion/store.go:357-423 | a published record that validates agrees with the view of its index, values and scans alike, even if its stored readset is an older one |
| `Serializability.AcceptedViews` | multiversion/store.go:414-423 | in an accepted state the serial result of the first n transactions is the view below index n |
| `Serializability.PublishHolds` | multiversion/mvkv.go:392-404 | a publication leaves exactly the execution's versions at its index, none an estimate, and its non-empty records |
| `Serializability.PublishKeeps` | multiversion/mvkv.go:392-404 | a publication keeps the bookkeeping invariant and changes no other index |
| `Serializability.PublishRecords` | multiversion/mvkv.go:392-404 | a non-empty readset or iterateset replaces the stored one, an empty one leaves it, and no other index changes |
| `Replay.EveryStepOk` | multiversion/mvkv.go:147-198 | for any values that bytes.Equal tells apart, each call keeps the execution invariant, only extends the record, and answers as a serial run on any store the record agrees with |
| `Replay.FinishedIsSerial` | multiversion/mvkv.go:147-198 | a finished execution whose record agrees with a store has the effect of running alone on that store |
| `Simulation.ReadOk` | multiversion/mvkv.go:147-198 | a read that does not abort returns a value the writeset or the recorded readset vouches for from then on |
| `Simulation.UpdateReadSetOk` | multiversion/mvkv.go:415-432 | recording a read forgets none, keeps the readset well formed and holds the value read |
| `Simulation.UpdateReadSetExact` | multiversion/mvkv.go:415-432 | recording a value changes no other key, appends at most that value, leaves one equal to it under bytes.Equal recorded, and never two equal ones of a key |
| `Simulation.SkipDeletesOk` | multiversion/mergeiterator.go:207-213 | the skip passes only keys before the limit, only extends the record, and without a limit stops at a key known to have a value |
| `StillScan.StillDrain` | multiversion/mergeiterator.go:67-263 | on a store that holds still, draining the merge iterator visits exactly the ordered keys of the overlay of parent, earlier versions and own writes |
| `StillScan.OpenedSeesReads` | multiversion/mvkv.go:294-334 | an iterator opened after reads, drained while the store answers in one way, visits exactly the keys of the range the execution sees a value for: its own, one read before or the store's |
| `StillScan.DrainedIsRemaining` | multiversion/mergeiterator.go:207-263 | skipping and advancing to the end visits exactly the keys of the two-way merge, none skipped or repeated |
| `MultiVersion.RunKeepsInv` | multiversion/store.go:119-216 | after every run of SetWriteset, SetEstimatedWriteset and InvalidateWriteset the keys holding a version at i are exactly the recorded keys of i, which are sorted, and each version carries its own index |
| `MultiVersion.ReplaceEffect` | multiversion/store.go:119-184 | replacing a writeset leaves exactly the new versions at that index and every other index untouched |
| `MultiVersion.SetWritesetEffect` | multiversion/store.go:149-184 | the versions at the index become exactly the written values and deletions, each under that index and incarnation and none an estimate; no other index and no record changes |
| `MultiVersion.SetEstimatedEffect` | multiversion/store.go:202-216 | exactly the keys of the writeset, deleted ones included, hold a version at the index, and each is an estimate; no other index and no record changes |
| `MultiVersion.InvalidateEffect` | multiversion/store.go:187-199 | invalidation turns exactly the versions at its index into estimates of the given incarnation, removes none, and changes no other index and no record |
| `MultiVersion.InvalidatedReadAborts` | multiversion/mvkv.go:173-183 | after InvalidateWriteset(i) a later transaction whose newest earlier writer of a key is i meets an estimate of i |
| `MultiVersion.EstimatedReadAborts` | multiversion/mvkv.go:173-183 | after an estimated publication at i the same holds of every key it writes or deletes |
| `MultiVersion.PublishedReadAnswers` | multiversion/mvkv.go:173-183 | after a regular publication at i that reader gets the value written, or none for a deletion |
| `Aborts.ReadAbortsExact` | multiversion/mvkv.go:147-198 | a read aborts naming w if and only if neither the writeset nor the readset has the key and w is the newest earlier writer of it and left an estimate |
| `Aborts.InvalidatedAbortsExact` | multiversion/mvkv.go:173-183 | after InvalidateWriteset(i) a read by j aborts naming i if and only if j neither wrote nor read the key and i is its newest earlier writer |
| `Aborts.EstimatedAbortsExact` | multiversion/mvkv.go:173-183 | the same after an estimated publication at i, for exactly the keys of its writeset |
| `Aborts.SkipAbortsExact` | multiversion/mergeiterator.go:207-263 | the skip aborts naming w if and only if the first merged key that is not known deleted is an estimate of w and the skip comes to it: no parent key lies before it, or it follows a deleted key that the parent has not |
| `Aborts.AbortsExact` | multiversion/mvkv.go:147-198 | for every call in every reachable execution: get, Valid, Key, Value and Next abort naming w if and only if an estimate of w is what they come upon first; no other call aborts |
| `MultiVersion.ViewReads` | multiversion/store.go:87-101 | with no estimates below, a read that misses the own sets returns the key's value in the overlay of all earlier versions on the parent |
| `MultiVersion.ReplayFindsVersions` | multiversion/store.go:265-282 | the collected keys are exactly those with an earlier version, so the validation iterator never meets a missing one |
| `MultiVersion.ReplaySeesView` | multiversion/memiterator.go:132-159 | the store the validation iterator replays equals the tracked writes over the view of the index |
| `MultiVersion.PhantomCheckExact` | multiversion/store.go:284-340 | the iterator check passes if and only if the keys a fresh ordered scan visits, up to and including the early-stop key, are exactly the tracked keys |
| `MultiVersion.ReadValidExact` | multiversion/store.go:357-411 | a single recorded value passes if and only if it equals the current one, with nil and empty taken for each other in exactly the two stated cases |
| `MultiVersion.ReadsetFailsExact` | multiversion/store.go:357-411 | a readset fails if and only if some key has other than one recorded value, or a newest earlier version that is no estimate and holds another value, or no earlier version and another value in the parent; an estimate fails nothing |
| `MultiVersion.ConflictsExact` | multiversion/store.go:357-411 | the conflicts reported are exactly the newest earlier writers of keys read that left an estimate or another value |
| `MultiVersion.FlushIsFinalView` | multiversion/store.go:437-473 | without estimates, the flush equals the view above all indices |
| `MultiVersion.FlushExact` | multiversion/store.go:437-473 | in every state, each key gets the value or deletion of its greatest version that is no estimate, and keeps what it had where there is none |
| `MultiVersionStore.Store.RemoveOldWriteset` | multiversion/store.go:119-145 | the loop removes the versions at the index of every recorded key not kept, and the record |
| `MultiVersionStore.Store.SetWriteset` | multiversion/store.go:149-184 | the new state is the one SetWritesetEffect describes |
| `MultiVersionStore.Store.SetEstimatedWriteset` | multiversion/store.go:202-216 | the new state is the one SetEstimatedEffect describes |
| `MultiVersionStore.Store.InvalidateWriteset` | multiversion/store.go:187-199 | the loop leaves the state InvalidateEffect describes |
| `MultiVersionStore.Store.CollectIteratorItems` | multiversion/store.go:265-282 | the loop collects exactly the keys recorded below the index |
| `MultiVersionStore.Store.ValidateIterator` | multiversion/store.go:284-340 | in every state, estimates or not, the answer is one the replay allows: the verdict where no estimate is met, either answer where one is, refusal where two are |
| `Validation.ReplayIsValidate` | multiversion/store.go:296-331 | the lazy replay over the validation iterator gives the verdict of the phantom check, with estimates taken for deletions |
| `Validation.AnswerIsVerdict` | multiversion/store.go:333-339 | where no estimate lies below the index the only possible answer is the verdict |
| `EstimatesMet.MetBounds` | multiversion/memiterator.go:132-159 | a replay reports no estimate outside its range and, where it accepts, every one at or before the early stop |
| `EstimatesMet.MetExact` | multiversion/mergeiterator.go:207-263 | an accepted replay comes upon exactly the estimates among the keys up to the early stop and the one key after it, if the merged key before that one is deleted and not in the parent |
| `EstimatesMet.AnswersExact` | multiversion/store.go:284-340 | in every state and for every tracker: acceptance is possible if and only if the check passes and at most one estimate is among the keys asked for, refusal if and only if the check fails or one is |
| `EstimatesMet.TwoEstimatesRefused` | multiversion/store.go:284-340 | an iteration that got past two estimates is never accepted |
| `EstimatesMet.OneEstimateRaces` | multiversion/store.go:333-339 | a run that records an iteration and then leaves one estimate in its way, after which both answers are possible |
| `Validation.Replay` | multiversion/store.go:296-331 | the goroutine's loop sends the specified verdict, with one report for each different estimate it came upon |
| `Validation.ReplayIterator.GetValue` | multiversion/memiterator.go:132-159 | own writes, then values fetched before, then the newest earlier version; an estimate is reported once and has no value |
| `Validation.ReplayIterator.SkipUntilExistsOrInvalid` | multiversion/mergeiterator.go:218-263 | settles where the specified skip settles, having fetched the same values |
| `Validation.ReplayIterator.Next` | multiversion/mergeiterator.go:67-94 | passes exactly the current key on both sides |
| `StillScan.SkipTwice` | multiversion/mergeiterator.go:207-263 | skipping again from where a skip has stopped changes nothing |
| `MultiVersionStore.Store.CheckIteratorAtIndex` | multiversion/store.go:342-355 | true only if every tracker may be accepted, false only if some tracker may be refused |
| `MultiVersionStore.Store.CheckReadsetAtIndex` | multiversion/store.go:357-411 | valid if and only if no key read fails in the sense of ReadsetFailsExact; the conflicts are exactly the newest earlier writers that left an estimate or another value, ascending |
| `MultiVersionStore.Store.ValidateTransactionState` | multiversion/store.go:414-423 | in every state, a true answer means that the record validates; with no estimate below the index the answer is exactly that; the conflicts are those of the readset check, ascending |
| `MultiVersionStore.Store.WriteLatestToStore` | multiversion/store.go:437-473 | flushing key by key leaves each key the value or deletion of its greatest version that is no estimate, and the others as they were |
| `VersionIndexedStore.View.Get` | multiversion/mvkv.go:147-198 | the answer and the readset are those of the specified read; it aborts naming w if and only if no own set has the key and w is its newest earlier writer and left an estimate, and then records nothing |
| `VersionIndexedStore.View.UpdateReadSet` | multiversion/mvkv.go:415-432 | the loop appends the value unless one equal under bytes.Equal is there |
| `VersionIndexedStore.View.OpenIterator` | multiversion/mvkv.go:294-334 | the new iterator stands before the merged items with an empty tracker that copies the writeset |
| `VersionIndexedStore.View.WriteToMultiVersionStore` | multiversion/mvkv.go:392-404 | the shared state becomes the specified publication, with empty records left alone |
| `VersionIndexedStore.View.WriteEstimatesToMultiVersionStore` | multiversion/mvkv.go:406-413 | the shared state becomes the one SetEstimatedEffect describes: an estimate for every key of the writeset and no new records |
| `VersionIndexedStore.TrackedIterator.IsValid` | multiversion/trackediterator.go:21-31 | a valid position is tracked as visited and early stop, the end clears the early stop |
| `VersionIndexedStore.TrackedIterator.GetKey` | multiversion/trackediterator.go:34-39 | the key shown is the current one of the merge and is tracked |
| `VersionIndexedStore.TrackedIterator.GetValue` | multiversion/trackediterator.go:42-48 | the value shown, what it records, when it aborts and when it is at its end are the specified ones |
| `VersionIndexedStore.TrackedIterator.Next` | multiversion/trackediterator.go:50-56 | advancing passes exactly the current key on both sides |
| `VersionIndexedStore.TrackedIterator.SkipCacheDeletes` | multiversion/mergeiterator.go:207-213 | the loop stops where the specified skip stops, with the same record or abort |
| `VersionIndexedStore.TrackedIterator.SkipUntilExistsOrInvalid` | multiversion/mergeiterator.go:218-263 | the nested loops settle where the specified skip settles, and terminate |
| `VersionedItem.LatestBeforeIsGreatest` | multiversion/data_structures.go:47-137 | the query returns the version with the greatest index below the bound, and none exactly when none is there |
| `VersionedItem.LatestAnyBound` | multiversion/data_structures.go:47-137 | the full-range queries do not depend on the bound used to state them |
| `VersionedItem.LatestExact` | multiversion/data_structures.go:47-137 | the latest version is the one with the greatest index, and none exactly when there is none |
| `VersionedItem.LatestFinalExact` | multiversion/data_structures.go:47-137 | the latest version that is no estimate is the greatest of those, estimates above it passed over, and none exactly when all are estimates |
| `VersionedItem.SlotsRefineMap` | multiversion/data_list.go:26-113 | over every history of in-range updates the slice holds exactly the versions of the ordered map |
| `VersionedItem.OutOfRangeUpdate` | multiversion/data_list.go:79-113 | one update keeps both forms equal exactly when its index is in range or the stated clamped removal changes nothing |
| `VersionedItem.ClampedUpdateSeen` | multiversion/data_list.go:46-113 | what later queries see of an update beyond the slice: a value or estimate only from beyond its own index, a deletion from anywhere beyond the slice, a removal never |
| `VersionedItem.ListItem.GetLatest` | multiversion/data_list.go:26-34 | the backward loop finds the greatest version |
| `VersionedItem.ListItem.GetLatestNonEstimate` | multiversion/data_list.go:36-44 | the backward loop finds the greatest version that is no estimate, none exactly when all are estimates |
| `VersionedItem.ListItem.GetLatestBeforeIndex` | multiversion/data_list.go:46-60 | below the length the newest earlier slot whose item says it is earlier, in in-range use the newest earlier version; not found at or beyond the length |
| `VersionedItem.ListItem.GetLatestBeforeIndexExpansion` | multiversion/data_list.go:62-77 | grows the slice by twice the missing length without changing a version, and answers likewise for any index |
| `VersionedItem.ListItem.Set` | multiversion/data_list.go:79-98 | stores the value in its slot, in the last slot when the index is out of range; in range the versions change at that index only |
| `VersionedItem.ListItem.SetEstimate` | multiversion/data_list.go:86-98 | stores an estimate likewise |
| `VersionedItem.ListItem.Delete` | multiversion/data_list.go:100-106 | stores a deletion, recorded under the clamped index |
| `VersionedItem.ListItem.Remove` | multiversion/data_list.go:108-113 | empties the slot; in range exactly that version goes |
| `MergeIterator.MergeIsOverlayScan` | cachekv/internal/mergeiterator.go:178-235 | merging the ordered parent and cache gives exactly the ordered entries of the overlay, both directions |
| `MergeIterator.RemainingElements` | cachekv/internal/mergeiterator.go:178-235 | an entry is emitted exactly when it is cached with a value, or in the parent and not cached |
| `MergeIterator.RemainingOrdered` | cachekv/internal/mergeiterator.go:50-74 | the emitted keys are strictly ordered, so nothing is repeated |
| `MergeIterator.CacheMergeIterator.Next` | cachekv/internal/mergeiterator.go:50-74 | drops exactly the first remaining entry |
| `MergeIterator.CacheMergeIterator.GetKey` | cachekv/internal/mergeiterator.go:77-104 | the key of the first remaining entry |
| `MergeIterator.CacheMergeIterator.GetValue` | cachekv/internal/mergeiterator.go:107-134 | the value of the first remaining entry |
| `MergeIterator.CacheMergeIterator.SkipCacheDeletes` | cachekv/internal/mergeiterator.go:178-184 | the loop changes no remaining entry and leaves no deletion before the limit |
| `MergeIterator.CacheMergeIterator.SkipUntilExistsOrInvalid` | cachekv/internal/mergeiterator.go:189-235 | terminates, changes no remaining entry, and reports whether one remains |
| `CacheKV.MemIteratorYields` | cachekv/internal/memiterator.go:26-106 | the step iterator over the tree yields exactly the items in range, in its direction, although it tests only the bound ahead |
| `CacheKV.MemIterator.constructor` | cachekv/internal/memiterator.go:26-62 | seeks to the first item of the range in its direction, or to none |
| `CacheKV.MemIterator.Next` | cachekv/internal/memiterator.go:84-106 | drops exactly the current item |
| `CacheKV.Store.Get` | cachekv/store.go:55-60 | the value in the overlay of the cache on the parent, caching nothing |
| `CacheKV.Store.SetCacheValue` | cachekv/store.go:311-325 | keeps the index invariant while listing a dirty key as unsorted |
| `CacheKV.Store.Set` | cachekv/store.go:70-75 | the view changes at that key only |
| `CacheKV.Store.Delete` | cachekv/store.go:84-91 | the view loses that key only |
| `CacheKV.Store.Write` | cachekv/store.go:101-126 | for any visiting order the parent becomes the former view, the view stays, and the cache is kept |
| `CacheKV.Store.DirtyItems` | cachekv/store.go:260-304 | brings every cached key of the range into the index and keeps the invariant |
| `CacheKV.Store.Iterator` | cachekv/store.go:151-175 | in either direction yields exactly the ordered entries of the view; null exactly for an inverted range on a store never iterated |
| `CacheKV.OverlayTwice` | cachekv/store.go:101-126 | writing again changes nothing |
| `CacheKV.WriteTopKeepsView` | cachekv/store.go:101-131 | writing the top cache moves its view to the store below |
| `CacheKV.WriteDownIsView` | cachekv/store.go:101-131 | writing a stack of nested caches from the top leaves the base equal to the top's former view |
| `Merkle.SplitIsLargestPower` | internal/proofs/convert.go:87-98 | the split point is the largest power of two below the length |
| `Merkle.RootOfHalves` | internal/tree/hash.go:20-68 | the root is that of section 2.1 of RFC 6962: the hash of nothing, of a marked leaf, or of the marked roots of the halves split at the largest power of two below the length |
| `Merkle.ConvertInnerOps` | internal/proofs/convert.go:45-67 | fails exactly on a length mismatch and otherwise turns each aunt into a prefix or a suffix by the path |
| `Merkle.ConvertedAreSteps` | internal/proofs/convert.go:45-85 | the built path is as long as the audit path of section 2.1.1 of RFC 6962, and the conversion gives the steps from the leaf to the root |
| `Merkle.ConvertedFoldToRoot` | internal/tree/hash.go:20-68 | for every non-empty list and index, folding the converted steps from the leaf hash gives the root |
| `Merkle.EndsExact` | internal/proofs/convert.go:72-85 | a path is all-left exactly for index 0 and all-right exactly for the last index |
| `Merkle.NeighboursExact` | internal/proofs/convert.go:72-85 | two paths are neighbours in the ICS-23 sense exactly when the indices are consecutive |
| `Merkle.SamePreimage` | internal/tree/hash.go:35-54 | leaves and inner nodes are domain-separated: different lists with equal preimages split into halves with equal roots |
| `Merkle.FindCollision` | internal/tree/hash.go:20-54 | from two different leaf lists with one root computes two different strings with one hash |
| `MerkleMap.KVBytesInjective` | internal/maps/maps.go:153-171 | no two pairs share an encoding |
| `MerkleMap.EncodePair` | internal/maps/maps.go:153-171 | the filled buffer is exactly the length-prefixed encoding |
| `MerkleMap.Builder.Sort` | internal/maps/maps.go:53-60 | the list becomes sorted and stays a permutation |
| `Kv.SortedUnique` | internal/kv/kv.go:8-28 | pairs have only one sorted order, by key and then by value |
| `MerkleMap.HashFromMap` | internal/maps/maps.go:175-182 | the root is the same function of the map for every order in which its entries are set |
| `MerkleMap.SameLeaves` | internal/maps/maps.go:64-71 | maps with equal leaf lists have the same keys, and values with equal hashes |
| `MerkleMap.FindMapCollision` | internal/maps/maps.go:175-182 | from two different maps with equal roots computes two different strings with one hash |
| `MerkleMap.LeafStepMatches` | internal/proofs/convert.go:33-43 | the converted leaf step hashes exactly the tree's leaf |
| `MerkleMap.ExistenceVerifies` | internal/proofs/create.go:85-103 | every generated existence proof leads to the map's root, in steps of the ICS-23 shape, and verifies if and only if its value is not empty |
| `MerkleMap.CreateExistenceProof` | internal/proofs/create.go:85-103 | fails exactly on an empty key in the data or a missing key, with the error for each, else is the proof of that key's position |
| `MerkleMap.CreateMembershipProof` | internal/proofs/create.go:21-35 | fails exactly on the stated inputs, with the error for each, else proves the key's value against the root, and verifies if and only if that value is not empty |
| `MerkleMap.BracketsProveAbsence` | internal/proofs/create.go:41-83 | the bracketing proofs of an absent key pass every ICS-23 check (a side present, both sides verified, order, neighbours, leftmost and rightmost ends) if and only if the map is not empty and the neighbours' values are not |
| `MerkleMap.CreateNonMembershipProof` | internal/proofs/create.go:41-83 | fails exactly on the stated inputs, with the error for each, else picks consecutive leaves around the key, and proves its absence if and only if the map is not empty and the neighbours' values are not |
| `MerkleMap.EmptyMapHasNoProof` | internal/proofs/create.go:41-83 | for the empty map the proof has neither side and is refused |
| `ProofSoundness.FindForgedMembership` | internal/proofs/create.go:21-35 | from any proof that verifies against a map's root and claims a pair the map does not hold, computes two different strings with one hash |
| `ProofSoundness.FindForgedAbsence` | internal/proofs/create.go:41-83 | from any proof accepted against a map's root that a key of the map is absent, computes two different strings with one hash |
| `MerkleMap.Search` | internal/proofs/create.go:50-51 | the first position whose key is not below the given one |
| `Varint.UvarintPrefixFree` | internal/maps/maps.go:153-171 | no varint is a prefix of another, so a number and what follows are determined |
| `Varint.UvarintSpells` | internal/kv/kv.pb.go:225-235 | the seven-bit groups spell the number, the high bit is set on all bytes but the last, and no group is too many |
| `Varint.SovIsLength` | internal/kv/kv.pb.go:268-270 | the size formula is the exact length of the varint |
| `KvCodec.Size` | internal/kv/kv.pb.go:236-266 | the size loop gives the exact number of bytes of the encoding |
| `KvCodec.FillVarint` | internal/kv/kv.pb.go:225-235 | writes exactly the varint before the offset and nothing else |
| `KvCodec.FillPair` | internal/kv/kv.pb.go:203-223 | writes exactly the pair's encoding before the offset and nothing else |
| `KvCodec.Marshal` | internal/kv/kv.pb.go:151-186 | filling from the back ends at offset 0 with exactly the encoding, which PrintsCanonically describes |
| `KvParser.DecodeVarint` | internal/kv/kv.pb.go:280-293 | at most ten groups, value modulo 2^64, overflow and end of input reported |
| `KvParser.SkipKv` | internal/kv/kv.pb.go:476-553 | terminates on all bytes and advances or fails as specified, groups included |
| `KvParser.UnmarshalPair` | internal/kv/kv.pb.go:358-475 | terminates on all bytes without reading out of bounds; last occurrence of a field wins |
| `KvParser.Unmarshal` | internal/kv/kv.pb.go:274-357 | terminates on all bytes without reading out of bounds; result or error are those the lemmas of KvUnknown and KvRefused describe |
| `KvParser.PairRoundTrip` | internal/kv/kv.pb.go:358-475 | parsing a printed pair gives the pair |
| `KvParser.RoundTrip` | internal/kv/kv.pb.go:151-357 | parsing what the printer wrote gives back the same pairs, for every list |
| `KvUnknown.SkipsOneField` | internal/kv/kv.pb.go:476-553 | skipKv returns the length of exactly one field of any wire type, groups of any nesting included |
| `KvUnknown.WalksShape` | internal/kv/kv.pb.go:480-552 | at every depth the loop goes on right after a field, whatever is nested in it |
| `KvUnknown.UnknownFieldsIgnored` | internal/kv/kv.pb.go:302-357 | unknown fields before, between, after and inside the entries change nothing and of repeated keys and values the last counts: exactly the entries are parsed, in order |
| `KvUnknown.PartsRead` | internal/kv/kv.pb.go:358-475 | an entry of any known fields, repeated or not, and unknown ones is parsed as the pair its parts amount to |
| `KvUnknown.LastWins` | internal/kv/kv.pb.go:386-454 | the parts amount to their last key and their last value |
| `KvUnknown.PrintsCanonically` | internal/kv/kv.pb.go:151-223 | what is printed is, field by field, the canonical message: one length-delimited field 1 for each entry, holding its key and value as fields 1 and 2 in this order, empty ones left out |
| `KvUnknown.CanonicalExists` | internal/kv/kv.pb.go:151-223 | every list of pairs is that of a canonical message |
| `KvRefused.CutExact` | internal/kv/kv.pb.go:274-357 | the beginning of a message is accepted if and only if it ends between two fields, and is then read as the entries before the cut; all others end unexpectedly |
| `KvRefused.BadFieldRefused` | internal/kv/kv.pb.go:295-357 | after any good fields, a field that ends a group, has number 0 or a wire type other than 2 as an entry, or has no such wire type, refuses the message with the error for it |
| `KvRefused.BadPartRefused` | internal/kv/kv.pb.go:379-475 | the same inside an entry, where keys and values must have wire type 2 |
| `KvRefused.IllegalNumberRefused` | internal/kv/kv.pb.go:295-302 | a tag whose number is 0 or negative once kept to 32 bits is refused, whatever its upper bits |
| `KvRefused.BadEntryRefused` | internal/kv/kv.pb.go:329-332 | an entry that is refused refuses the message with the same error |
| `KvRefused.TooLongRefused` | internal/kv/kv.pb.go:302-357 | a known or unknown field whose length goes past the end is refused: as an invalid length if and only if its end does not fit an int64 |
| `KvRefused.TooLongPartRefused` | internal/kv/kv.pb.go:386-475 | the same inside an entry |
| `KvRefused.VarintExact` | internal/kv/kv.pb.go:280-293 | after ten bytes with the high bit set an overflow, at the end of the data an early end, otherwise the number that the groups spell, modulo 2^64 |
| `KvRefused.FieldNumberExact` | internal/kv/kv.pb.go:294-295 | the field number is the tag's, congruent modulo 2^32 and within a signed 32-bit number |
| `KvRefused.LoneEndGroupRefused` | internal/kv/kv.pb.go:533-540 | an end-group tag with no group open is refused where fields are skipped |
| `Pruning.HeightsRoundTrip` | pruning/manager.go:159-191 | reading back a stored list gives the list, or reports its first negative height |
| `Pruning.StoredLayout` | pruning/manager.go:183-191 | the entry is one big-endian word of eight bytes for each height, in the order of the list |
| `Pruning.HeightsToBytes` | pruning/manager.go:183-191 | the loop writes eight big-endian bytes per height |
| `Pruning.HeightsFromBytes` | pruning/manager.go:159-181 | the loop decodes, stops at a negative height, and is out of range on a truncated entry |
| `Pruning.Manager.HandleSnapshotHeight` | pruning/manager.go:72-95 | appends, sorts, drops the leading consecutive run and persists; a no-op as stated |
| `Pruning.Manager.GetPruningHeight` | pruning/manager.go:103-137 | the pruning height of the current state in 64-bit arithmetic |
| `Pruning.Manager.LoadSnapshotHeights` | pruning/manager.go:140-157 | replaces the list only by a non-empty decoded one; fails exactly on an unreadable database or a bad entry, and then changes nothing |
| `PruningRuns.PruningIsSafe` | pruning/manager.go:103-137 | for every positive interval and every run of deliveries, crashes, reloads and option changes the pruning height is below every undelivered multiple of the interval |
| `PruningRuns.RunSound` | pruning/manager.go:72-157 | in every run the list in memory and on disk holds only delivered heights and one up to which all multiples were delivered |
| `PruningRuns.KeepsRecentExactly` | pruning/manager.go:103-137 | a positive pruning height is at most height-1-KeepRecent if and only if KeepRecent is below 2^63 |
| `PruningRuns.KeepRecentOverflows` | pruning/manager.go:111-116 | a concrete KeepRecent for which the current height may be pruned |
| `PruningRuns.RecoverIsInvisible` | pruning/manager.go:140-157 | a crash and the start-up sequence restore the list exactly |
| `PruningRuns.OrderlyWaits` | pruning/manager.go:72-95 | for distinct multiples in any order the list is the last complete height followed by exactly the later ones |
| `PruningRuns.Collapses` | pruning/manager.go:72-95 | the first n multiples, each delivered once in any order with any recoveries between, collapse the list to exactly [n*interval] |
| `PruningRuns.PrunesUpToNext` | pruning/manager.go:72-137 | then every due height prunes up to the last height before the next snapshot or before the recent heights, whichever is lower, and no other height prunes |
| `PruningRuns.NoSnapshotsPrunesAll` | pruning/manager.go:103-137 | with snapshot interval 0 and options below 2^63, in every state, exactly the due heights above KeepRecent prune, each up to height-1-KeepRecent |
| `PruningRuns.NoneTakenPrunesNothing` | pruning/manager.go:126-128 | with snapshots but none in the list no height prunes |
| `PruningRuns.NothingIdles` | pruning/manager.go:72-157 | with the strategy Nothing no delivery or reload changes anything and no height prunes |
| `PruningRuns.DeliveryExact` | pruning/manager.go:72-95 | a delivered multiple keeps the list in step with what was delivered if and only if it is the one right below the head, or above it and not in the list |
| `PruningRuns.RepeatBelowHead` | pruning/manager.go:72-137 | with [30] and interval 10, delivering 10 again lowers the pruning height at 100 from 39 to 19; delivering 20 again changes nothing |
| `PruningRuns.RepeatDoubles` | pruning/manager.go:72-95 | delivering a height that is still in the list again puts it there twice |
| `PruningRuns.RepeatStalls` | pruning/manager.go:72-95 | once a height is in the list twice no later delivery raises the pruning height past the next snapshot |
| `PrefixStore.PrefixEndBytes` | types/utils.go:23-46 | the shrinking loop computes the specified end |
| `PrefixStore.PrefixRangeExact` | types/utils.go:23-46 | the range from a prefix to its end, unbounded when nil, contains exactly the strings that start with the prefix |
| `PrefixStore.ParentRangeExact` | prefix/store.go:89-119 | the range asked of the parent holds exactly the prefixed keys of the caller's range |
| `PrefixStore.IterationIsView` | prefix/store.go:131-173 | iteration over any sub-range, both directions, is the ordered list of matching parent entries with the prefix stripped |
| `PrefixStore.ListsUnique` | prefix/store.go:131-173 | there is only one such list |
| `PrefixStore.PrefixIterator.Next` | prefix/store.go:152-161 | drops exactly the first remaining entry |
| `PrefixStore.PrefixIterator.GetKey` | prefix/store.go:164-173 | the first remaining key, prefix stripped |
| `PrefixStore.Store.Get` | prefix/store.go:65-68 | the value of the key in the view below the prefix |
| `PrefixStore.Store.Set` | prefix/store.go:76-80 | changes the view at that key only and no key outside the prefix |
| `PrefixStore.Store.Delete` | prefix/store.go:83-85 | removes that key from the view only and touches no key outside the prefix |
| `PrefixStore.Store.Iterator` | prefix/store.go:89-119 | the iterator lists the view within the range |
| `PrefixStore.NeighboursSuffice` | types/utils.go:56-65 | in sorted order some name is a prefix of another exactly when one is of its successor |
| `PrefixStore.HasCommonPrefix` | types/utils.go:56-65 | panics exactly when some name is a prefix of a name at another position |
| `ChunkStream.ChunkWriter.Write` | snapshots/chunk.go:73-105 | the chunks are those of everything written so far; a closed writer refuses and changes nothing |
| `ChunkStream.SplitIsWellCut` | snapshots/chunk.go:73-105 | every chunk but the last is full, none is empty, and they concatenate to the input |
| `ChunkStream.WellCutIsSplit` | snapshots/chunk.go:73-105 | there is only one such cutting |
| `ChunkStream.ChunksIgnoreWrites` | snapshots/chunk.go:73-105 | the chunks depend only on the concatenated bytes, not on how the writes are split |
| `ChunkStream.ChunkReader.Read` | snapshots/chunk.go:144-161 | loses nothing unless a chunk reports the end of file with its last bytes; ends exactly when the chunks do |
| `ChunkStream.ReadAll` | snapshots/chunk.go:119-161 | with any non-empty buffers the bytes read are all the bytes if and only if no chunk reports the end of file with its last bytes |
| `ChunkStream.WriteThenRead` | snapshots/chunk.go:73-161 | what is written in any pieces and read back with any buffers comes out as it went in if and only if no chunk reports the end of file with its last bytes |
| `SnapshotStore.KeyRoundTrip` | snapshots/store.go:350-369 | a key decodes to a snapshot if and only if it is that snapshot's encoding |
| `SnapshotStore.KeyOrder` | snapshots/store.go:363-369 | the byte order of keys is the order by height, then format |
| `SnapshotStore.VisitedExact` | snapshots/store.go:95-132 | the scanned range holds every snapshot key except the all-ones one |
| `SnapshotStore.FirstIsLatest` | snapshots/store.go:95-112 | the first key scanned belongs to the latest snapshot |
| `SnapshotStore.Store.GetLatest` | snapshots/store.go:95-112 | the entry under the first key scanned, none exactly when the scan is empty |
| `SnapshotStore.Store.List` | snapshots/store.go:115-132 | every entry scanned, newest first |
| `SnapshotStore.Store.PruneScan` | snapshots/store.go:185-222 | the loop deletes what the specified scan deletes and returns the count, or zero with the error |
| `SnapshotStore.Store.Prune` | snapshots/store.go:185-222 | the new index, the count and the error are those of the specified scan over all keys visited, newest first |
| `SnapshotStore.PruneExact` | snapshots/store.go:185-222 | pruning fails exactly when a doomed height is being saved; else it keeps exactly the heights with fewer than `retain` newer ones, and the count is the number removed |
| `SnapshotStore.PruneKeepsNewest` | snapshots/store.go:185-222 | with no save in progress and no all-ones key exactly the `retain` greatest distinct heights stay |
| `SnapshotStore.AllOnesSurvives` | snapshots/store.go:186-190 | the all-ones key survives every pruning |
| `SnapshotStream.SortedExtensionNames` | snapshots/manager.go:487-495 | the names of the registry, strictly sorted |
| `SnapshotStream.SortedNamesUnique` | snapshots/manager.go:487-495 | a registry has only one sorted list of names, so the stream is determined |
| `SnapshotStream.CreateSnapshot` | snapshots/manager.go:193-231 | the stream is the multistore's items, then for each name in order its announcement and payloads |
| `SnapshotStream.Restorer.PayloadReader` | snapshots/manager.go:354-364 | reads one item, shares it with the loop, and reports the end at a boundary |
| `SnapshotStream.Restorer.RestoreExtensions` | snapshots/manager.go:371-396 | for any number of rounds of the loop over announcements: it ends, fails or goes on as specified, and is still running exactly when the specification never ends or the rounds are too few |
| `SnapshotStream.RestoresExactly` | snapshots/manager.go:340-397 | every extension gets exactly its own payloads in sorted order if and only if each is known, accepts the format, does not fail, calls its reader and reads to the end, the last one at least all its payloads |
| `SnapshotStream.StopsAt` | snapshots/manager.go:371-396 | if extension i is the first not restored in full, those before it are, nothing after it is, and the error names it when it is unknown, refuses the format or fails, is missing when it stopped reading early, and the loop never ends when it made no call |
| `SnapshotStream.RestoresBefore` | snapshots/manager.go:371-396 | extensions restored in full leave what follows them to be restored as if it came alone |
| `SnapshotStream.StrayItemRefused` | snapshots/manager.go:371-379 | an item of the multistore after the extensions, or a payload in front of them, ends the restoration with an error and keeps what was restored before |
| `SnapshotStream.CreateThenRestore` | snapshots/manager.go:193-397 | creating and then restoring gives the multistore its items and the extensions theirs under exactly that condition, and is still running after enough rounds exactly when the loop never ends |

## Left out

- Writes inside the domain of an open iterator: the KVStore contract forbids them (types/store.go:276-290), so a step that makes one is not enabled.
- VersionIndexedStore.View.Get: a key whose version is an estimate aborts the execution; the panic and the abort channel are an outcome of the step.
- MultiVersionStore.Store.ValidateIterator: runs against one state of the store; concurrent changes during one validation are not modelled.
- MultiVersionStore.Store.CheckReadsetAtIndex: runs against one state of the store; concurrent changes during one validation are not modelled.
- ListStore, the sharded variant of the multi-version store, and `NewKey`: not the reference store.
- `VersionIndexedStore.ValidateReadset`: the store-level check is the one modelled.
- Slice-backed items inside the store: the store is modelled on ordered maps; the slice form is tied to them by refinement within its size.
- MerkleMap.EncodePair: requires the two length prefixes to fit the sixteen bytes the source reserves, true below 2^56 bytes each; beyond that the source panics.
- KvParser.RoundTrip: for encodings shorter than 2^63 bytes, the limit of a Go slice; a nil and an empty byte field are one value.
- KvUnknown.UnknownFieldsIgnored: likewise below 2^63 bytes.
- PrefixStore.Store.Iterator: for non-empty prefixes; with an empty one the parent is asked for an empty, non-nil start, which stores treat differently.
- SnapshotStore.Store.Prune: as PruneScan below.
- SnapshotStore.Store.PruneScan: removal of chunk files and directories and its errors, and iterator errors of the database.
- ChunkStream.ChunkWriter.Write: pipes deliver every write; errors of the pipe, `CloseWithError` and the closing errors of chunk readers are not modelled.
- SnapshotStream.CreateSnapshot: write errors and the framing of messages into bytes.
- Pruning.Manager.LoadSnapshotHeights: a truncated entry, on which the source indexes out of range, counts as a failure.
- The multistore's own restore, rootmulti and IAVL trees: an unseen library.
- Gas metering, tracing, listening, transient, memory and cachemulti stores, and the caches: thin wrappers.
- Maximum key and value lengths and the nil-value panics of the KVStore interface.
- SHA-256 itself, zlib, files, logging, telemetry and plugins.
- Aliasing from unsafe conversions between strings and bytes, and callers that change a key after passing it.
