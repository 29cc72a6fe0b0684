# Host client: verified models

Dafny models of the Shinzo host client, with proofs about its snapshot verification, its billing gate, its pruner,
its attestation handling, its query rewriting and its peer connections. Each file holds one module.

* **Snapshots.** `SnapshotMerkle` models the header checks and the Merkle root over block-signature roots. The hash is
  an arbitrary function with 32-byte results; nothing assumes that it has no collisions. Instead a proof that two lists
  agree hands over two colliding inputs otherwise.
* **Field collection.** `FieldCollection` models how the billing gate collects top-level fields through fragments,
  `CollectFieldsSpec` the CollectFields algorithm of the GraphQL specification (October 2021, section 6.3.2) and their
  agreement, `FieldConditions` when collection fails and when it loses a name. Directives and type conditions, which
  the code ignores, are absent.
* **Pruning.** `DocIdCodec` packs document IDs, `EventQueueModel` is the queue, `PruneRuns` the machine of pushes,
  prune cycles, purge failures and restarts, `PrunerModel` the pruner as a refinement of it, `PrunedDocIDs` the same
  conservation on texts, and `DefaultCollections` its instance for the default configuration.
* **Billing.** `BalanceGate` is the balance cache, `EpochClockModel` the coalesced epoch clock, `RecordSubmission` the
  bounded background submission with Drain, and `QueryGate` the order of the handler's decisions and the row count.
* **Attestation.** `BlockSignatureCacheModel` is the signature cache, `VerificationWorkers` the concurrent
  verification, `AttestationRecords` the merging and the repeated posts, and `ObservedAttestersModel` the set of
  attesters seen lately.
* **Query rewriting.** `QueryRewriter` is the code on texts, `RewriterLaws` what it keeps, `Selections` says
  which fields a selection set selects, `RewriterPromises` what is kept of it and when a field is selected twice,
  `OutermostSelections` and `NestedSelections` when the outermost and all other selection sets select both fields, and
  `WholeFields` when all other fields survive; `Texts` and `Braces` hold the string operations.
* **Peers.** `PeerNetwork` is the connection state machine, cut where the code gives up its lock,
  `NetworkHandlerModel` the handler and its shared peer objects on the heap, whose locked sections refine it, and
  `ConnectDelay` the 64-bit backoff delay.

An object whose methods update its fields is a class here, and each method states its new state through a function or
a step of a machine. A protocol is a machine over values: a step is what runs between two points at which another
goroutine can run, a run is any list of steps, and the theorems hold for every run. What the environment decides, such
as hub reads, purge outcomes, dial results, clocks and map iteration orders, is a parameter of a step or an arbitrary
choice.

`dafny verify dfyconfig.toml` checks the project.

## Where the code and its documentation differ

The models follow the code.

* The epoch clock promises at most one height read per interval. A failed read can be repeated at once
  (`EpochClockModel.FailedReadIsRepeatedAtOnce`), and a caller that looked before a commit can read after it
  (`EpochClockModel.SecondReadWithinInterval`); reads come too close exactly through these two kinds of callers
  (`EpochClockModel.ReadsAreSpacedExactly`, `EpochClockModel.CalmRunsAreSpaced`).
* The rewriter promises both fields in the outermost and in all nested selection sets, and no duplicates. It looks for
  their texts at any depth, so nested fields keep the outermost set from getting any
  (`OutermostSelections.UserFieldsSuppressOutermost`; exactly when, `OutermostSelections.AnswerSelectsBothExactly`). It
  adds nothing to a nested set and can delete a nested `_version` (`NestedSelections.NestedSetGainsNothing`,
  `NestedSelections.NestedVersionIsDeleted`; exactly when nested sets select both,
  `NestedSelections.AnswerNestedExactly`). Only the first main pair of braces is rewritten: later operations and
  fragments keep theirs (`NestedSelections.LaterSetGainsNothing`; all selection sets together,
  `NestedSelections.AnswerPromiseExactly`). It can select `_docID` or `_version` twice
  (`RewriterPromises.SecondDocID`, `RewriterPromises.SecondVersion`; exactly when,
  `RewriterPromises.AnswerDuplicatesExactly`).
* The rewriter looks for texts and not for fields: it tears a name that begins like one of the two
  (`WholeFields.TornName`; exactly when, `WholeFields.NamesKeptExactly`), and an alias of a removed field is left to the
  next one (`WholeFields.AliasPassesOn`).
* The Merkle tree has the shape of section 2.1 of RFC 6962 without its prefixes, so a 64-byte root can stand for two
  leaves (`SnapshotMerkle.PairPassesForOneRoot`); the root binds exactly when 64-byte roots are excluded
  (`SnapshotMerkle.BindsExactlyWithout64`).
* The signature cache evicts the least block only while no block number is negative
  (`BlockSignatureCacheModel.CacheIsTopKExactlyWhen`).
* A collection listed twice is requeued twice (`PruneRuns.ConservesExactlyWhenListedOnce`), and a queue file of another
  configuration can send the documents of one collection to another (`EventQueueModel.MergedExactly`).
* A StartNetwork call begun while another dials can start a second connect loop on a peer
  (`PeerNetwork.StartIsSafeExactlyAlone`), and the backoff delay overflows from attempt 34 on
  (`ConnectDelay.DefaultBaseIsCappedExactly`).
* A Drain can return while a submitted record still waits to be counted (`RecordSubmission.MissedExactlyWhenUncounted`).
* Overlapping snapshots of the attester set can hide an identity within the window
  (`ObservedAttestersModel.MissingExactlyWhenOvertaken`).

## Model

| member | source | states |
|---|---|---|
| `SnapshotMerkle.ComputeSnapshotMerkleRoot` | pkg/snapshot/importer.go:275-304 | for every list the level-by-level loop returns the recursive Merkle root of the leaf hashes, empty for the empty list, and takes exactly ceil(log2 n) rounds for n > 0 |
| `SnapshotMerkle.HashLevel` | pkg/snapshot/importer.go:285-301 | the inner loop through the shared 64-byte buffer hashes neighbours together and carries a last odd node over |
| `SnapshotMerkle.HashPair` | pkg/snapshot/importer.go:290-296 | after the two copies the buffer holds left then right and nothing else, whatever it held before |
| `SnapshotMerkle.CopyInto` | pkg/snapshot/importer.go:291-292 | a copy overwrites its 32 bytes and no others |
| `SnapshotMerkle.NextLevelKeepsRoot` | pkg/snapshot/importer.go:283-303 | replacing a level by the next one leaves the tree root unchanged |
| `SnapshotMerkle.SplitIsTheOnlyOne` | pkg/snapshot/importer.go:275-304 | the tree splits n leaves at the one power of two k with k < n <= 2k, the shape of section 2.1 of RFC 6962 |
| `SnapshotMerkle.SmallTrees` | pkg/snapshot/importer.go:275-304 | the roots of none, one, two and three leaves written out |
| `SnapshotMerkle.ExtractCollision` | pkg/snapshot/importer.go:139-152 | two different lists without 64-byte roots and with one Merkle root yield two different byte strings, both hashed on the way, with one hash |
| `SnapshotMerkle.PairPassesForOneRoot` | pkg/snapshot/importer.go:275-304 | under every hash the 64-byte root made of two leaf hashes has the Merkle root of the two leaves |
| `SnapshotMerkle.SixtyFourByteRootsForge` | pkg/snapshot/importer.go:139-152 | two different lists of 64-byte roots share a Merkle root without any collision |
| `SnapshotMerkle.BindsExactlyWithout64` | pkg/snapshot/importer.go:139-152 | over root lengths in a given set the Merkle root binds the list, up to a hash collision, if and only if the set excludes 64 |
| `SnapshotMerkle.DecodeRoots` | pkg/snapshot/importer.go:140-147 | all roots decode, or the first that does not is named |
| `SnapshotMerkle.FirstDifference` | pkg/snapshot/importer.go:163-168 | none exactly when the lists are equal; otherwise the first index at which they differ |
| `SnapshotMerkle.VerifyHeaderAgainstSig` | pkg/snapshot/importer.go:139-171 | no error exactly when every root decodes, the decoded list hashes to the signed root, and a non-empty signed list is the header list text for text; otherwise the first failing check is named, with the first root that does not decode or differs |
| `SnapshotMerkle.CheckSnapshot` | pkg/snapshot/importer.go:113-171 | a header passes exactly with the right magic, a non-empty root list and accepted signature data |
| `SnapshotMerkle.AcceptedHeadersAgree` | pkg/snapshot/importer.go:139-171 | two headers accepted under one signature without 64-byte roots have the same decoded roots, or the roots exhibit a hash collision |
| `SnapshotMerkle.ListedRootsAgree` | pkg/snapshot/importer.go:154-168 | with the signature carrying its own list, two accepted headers have the same decoded roots unconditionally |
| `FieldCollection.Collector.constructor` | pkg/acp/parser.go:85-91 | a collection starts with nothing seen and no fragment open |
| `FieldCollection.Collector.CollectTopLevelFields` | pkg/acp/parser.go:147-195 | succeeds or fails as the full fragment expansion does; returns the first field of each new response key, records exactly the keys met, and restores the set of open fragments on every outcome; terminates by remaining depth, then remaining selections |
| `FieldCollection.Collector.CollectSpread` | pkg/acp/parser.go:174-191 | a spread fails when its fragment is open or undeclared, and otherwise collects it with the fragment open meanwhile |
| `FieldCollection.TopLevelFields` | pkg/acp/parser.go:75-98 | without an operation name all operations are expanded, whatever their names, and with one exactly those of that name, in order, with one seen map and a fresh fragment path each; the empty query gives no fields and a syntax error is an error |
| `FieldCollection.EmptyNameSelectsAll` | pkg/acp/parser.go:87-90 | without an operation name every operation is expanded |
| `FieldCollection.NameSelectsThoseNamed` | pkg/acp/parser.go:87-90 | with one exactly the operations of that name are, in order |
| `FieldCollection.ExpandEachExactly` | pkg/acp/parser.go:86-97 | expanding operations succeeds if and only if expanding each does, and gives their fields one after another |
| `FieldCollection.ForNameIsFirst` | pkg/acp/parser.go:179-186 | a fragment name leads to its first declaration, and to none if and only if there is none |
| `FieldCollection.CollectionNames` | pkg/acp/parser.go:113-124 | the distinct field names in first-seen order |
| `FieldCollection.ResponseKeys` | pkg/acp/parser.go:128-136 | exactly the response keys of the fields with the given name, in order |
| `FieldCollection.KeysNamedAreKeys` | pkg/acp/parser.go:128-136 | a key is returned for a name if and only if the field with that key and name is collected |
| `FieldCollection.KeysNamedDistinct` | pkg/acp/parser.go:70-98 | of collected fields the response keys of one name are pairwise distinct |
| `CollectFieldsSpec.CollectFieldsHeads` | pkg/acp/parser.go:147-195 | CollectFields (section 6.3.2 of the GraphQL specification, October 2021) lists, in order, each response key with the first field it meets under it |
| `CollectFieldsSpec.ExpandIsIndependent` | pkg/acp/parser.go:168-192 | what a selection set expands to does not depend on the fragment path or the depth at which it is expanded |
| `CollectFieldsSpec.ExhaustedOnceExpanded` | pkg/acp/parser.go:175-192 | after one expansion of a fragment every key it can ever contribute is seen |
| `CollectFieldsSpec.VisitOnceAgrees` | pkg/acp/parser.go:147-195 | visiting each fragment once and visiting it once per path contribute the same first fields for the keys not yet seen |
| `CollectFieldsSpec.CollectorAgreesWithCollectFields` | pkg/acp/parser.go:147-195 | whenever collection succeeds its ordered response keys and first fields are those of CollectFields, although one keeps a visit-once set and the other a per-path set |
| `CollectFieldsSpec.RequestAgreesWithCollectFields` | pkg/acp/parser.go:75-98 | the same for a whole request that selects one operation |
| `FieldConditions.FailureHasWalk` | pkg/acp/parser.go:154-181 | a failing expansion has a walk through fragments that ends in an undeclared spread, a fragment already open on the walk, or a depth above 16 |
| `FieldConditions.WalkMeansFailure` | pkg/acp/parser.go:154-181 | any such walk makes the expansion fail |
| `FieldConditions.FailsExactlyOnBadWalk` | pkg/acp/parser.go:147-195 | collection of an operation fails if and only if such a walk exists |
| `FieldConditions.CollectedExactly` | pkg/acp/parser.go:147-195 | when collection succeeds, the fields collected are exactly those that some walk through inline fragments and spreads reaches |
| `FieldConditions.SixteenLevels` | pkg/acp/parser.go:28-28 | a field inside n fragments is collected for n up to 16 and refused from 17 on |
| `FieldConditions.NothingLostExactlyWhenMergeable` | pkg/acp/parser.go:161-166 | every selected field is collected if and only if fields with one response key have one name (section 5.3.2 of the GraphQL specification) |
| `FieldConditions.NamesCompleteExactly` | pkg/acp/parser.go:113-124 | the collected names are exactly all names selected if and only if each of them is the first name under some response key |
| `FieldConditions.NamesComplete` | pkg/acp/parser.go:113-124 | in particular whenever fields with one response key have one name |
| `FieldConditions.SecondNameUnderOneKeyIsLost` | pkg/acp/parser.go:161-166 | without it, a second name under a used response key is never looked up |
| `DocIdCodec.PrefixCapture.constructor` | pkg/pruner/docid_codec.go:18-21 | no prefix is captured at first |
| `DocIdCodec.PrefixCapture.ExtractUUID` | pkg/pruner/docid_codec.go:25-34 | the bytes after the first hyphen or the error, and the prefix of the first docID with a hyphen captured once and for all, even when the rest does not parse |
| `DocIdCodec.ParseOfFormat` | pkg/pruner/docid_codec.go:37-51 | parsing the text form of any 16 bytes gives them back |
| `DocIdCodec.ExtractOfRestore` | pkg/pruner/docid_codec.go:25-59 | unpacking a restored docID gives the bytes back for every prefix without a hyphen |
| `DocIdCodec.ParseOfCanonical` | pkg/pruner/docid_codec.go:37-51 | the lower-case 8-4-4-4-12 text (section 4 of RFC 9562) parses, and formatting gives it back |
| `DocIdCodec.RestoreOfExtract` | pkg/pruner/docid_codec.go:25-59 | restoring an unpacked docID gives it back if and only if it has the captured prefix and that text form |
| `DocIdCodec.ExtractsExactly` | pkg/pruner/docid_codec.go:25-51 | a docID is packed if and only if what follows its first hyphen is, without hyphens, 32 hexadecimal digits |
| `DocIdCodec.CapturesFirst` | pkg/pruner/docid_codec.go:25-34 | the prefix captured from a list is that of its first docID with a hyphen |
| `Hex.DecodeOfEncode` | pkg/pruner/docid_codec.go:43-49 | hexadecimal text decodes to the bytes it encodes |
| `Hex.EncodeInjective` | pkg/snapshot/importer.go:149-152 | equal hexadecimal texts mean equal bytes, so comparing texts compares roots |
| `Hex.EncodeOfDecode` | pkg/pruner/docid_codec.go:43-49 | lower-case hexadecimal that decodes is what its bytes encode to |
| `Hex.DecodesExactly` | pkg/pruner/docid_codec.go:43-49 | a text decodes if and only if it has an even number of characters, all hexadecimal digits |
| `Hex.DecodeIgnoresCase` | pkg/pruner/docid_codec.go:43-49 | upper and lower case decode alike |
| `EventQueueModel.RegistryConsistent` | pkg/pruner/event_queue.go:52-81 | every registered name has a tag that leads back to it, exactly the block collection and the known dependents are registered, and the two maps are inverse to each other if and only if the block collection is not a known dependent as well |
| `EventQueueModel.EventQueue.constructor` | pkg/pruner/event_queue.go:52-81 | an empty valid queue with those maps |
| `EventQueueModel.EventQueue.Push` | pkg/pruner/event_queue.go:84-104 | appends the packed entry of a registered collection, skips an invalid docID or unknown collection, and keeps the block count exact |
| `EventQueueModel.EventQueue.DrainDocs` | pkg/pruner/event_queue.go:107-151 | removes exactly the first min(count, length) entries, or nothing, and groups their restored docIDs by collection in queue order, dropping none |
| `EventQueueModel.EventQueue.DrainBlocks` | pkg/pruner/event_queue.go:156-206 | removes exactly the shortest prefix that holds count blocks, or returns nothing and changes nothing when there are fewer |
| `EventQueueModel.EventQueue.GroupDrained` | pkg/pruner/event_queue.go:136-148 | for every collection the group is the restored docIDs of its entries, in order |
| `EventQueueModel.EventQueue.Requeue` | pkg/pruner/event_queue.go:211-234 | puts the packed docIDs before everything queued and keeps the block count exact; an unregistered collection changes nothing |
| `EventQueueModel.EventQueue.Repack` | pkg/pruner/event_queue.go:217-228 | the loop packs the docIDs that parse, in order, and counts the blocks among them |
| `EventQueueModel.EventQueue.Save` | pkg/pruner/event_queue.go:290-308 | nothing without a path, removal of the file of an empty queue, and otherwise a snapshot that a queue of the same configuration can load |
| `EventQueueModel.EventQueue.Load` | pkg/pruner/event_queue.go:251-287 | the entries and count of the file replace the queue, its names are merged in, and a missing file changes nothing; the queue is valid afterwards if and only if the file is compatible with its tables, tags every entry and counts its blocks |
| `EventQueueModel.MergedExactly` | pkg/pruner/event_queue.go:271-276 | whatever the order of merging, the two name maps stay consistent if and only if every registered name whose tag the file reassigns is among the names of the file |
| `EventQueueModel.MisroutedPush` | pkg/pruner/event_queue.go:271-276 | otherwise a document pushed into such a collection is drained under another collection and not under its own |
| `EventQueueModel.SavedIsLoadable` | pkg/pruner/event_queue.go:290-308 | what a valid queue saves is compatible with a queue of the same configuration |
| `EventQueueModel.CountBlocksStep` | pkg/pruner/event_queue.go:126-133 | the block count of a queue is that of any prefix plus that of the rest |
| `EventQueueModel.UuidsExactly` | pkg/pruner/event_queue.go:136-148 | a collection groups all of its entries, in order, and none of another |
| `EventQueueModel.RepackedExactly` | pkg/pruner/event_queue.go:217-228 | all docIDs that parse are packed again, in order, and one that does not is skipped |
| `PrunerModel.Pruner.constructor` | pkg/host/host.go:478-494 | a pruner and a valid queue whose names come from its own collection configuration make a valid pruner with nothing counted |
| `PrunerModel.Pruner.PurgeFromDrainResult` | pkg/pruner/pruner.go:214-254 | the new purges are those of the dependent collections as listed and then that of the block collection; failing ones go to the front of the queue in that order, so the blocks come first; the documents purged are counted |
| `PrunerModel.Pruner.PurgeColumn` | pkg/pruner/pruner.go:219-241 | one collection of a cycle is one step of the machine: skipped when empty, purged, or requeued at the front |
| `PrunerModel.Pruner.RunEventQueuePrune` | pkg/pruner/pruner.go:188-209 | nothing happens at or below the maximum; above it exactly the oldest excess is drained, grouped, and purged or put back as a cycle does, and that is a run of the machine |
| `PrunerModel.PurgesInOrder` | pkg/pruner/pruner.go:219-231 | purges are made in the order of the list, each of the documents drained from its collection |
| `PrunerModel.PurgedCountOfMore` | pkg/pruner/pruner.go:226-241 | each purge counts as many documents as it lists |
| `PruneRuns.UnpackedRestored` | pkg/pruner/docid_codec.go:25-59 | packing the docIDs restored from a list of packed IDs gives that list back |
| `PruneRuns.StepKeeps` | pkg/pruner/pruner.go:188-241 | each push, measurement, drain, purge outcome and restart keeps the conservation of every collection |
| `PruneRuns.RunsConserve` | pkg/pruner/pruner.go:188-241 | in every run of pushes, cycles, arbitrary purge failures and restarts, what was accepted into a collection is, in order, what was purged, then what is in flight, then what is queued |
| `PruneRuns.BlocksArePurgedLast` | pkg/pruner/pruner.go:218-241 | in every run a purge or requeue is that of the block collection if and only if it ends its cycle, and otherwise that of the next dependent collection as listed |
| `PruneRuns.ListedTwiceDuplicates` | pkg/pruner/pruner.go:219-231 | for every maximum: with a registered collection listed twice, one document too many and a cycle of failures leave more documents queued than were accepted |
| `PruneRuns.ConservesExactlyWhenListedOnce` | pkg/pruner/pruner.go:188-241 | for every maximum: all runs conserve if and only if the pruner visits every registered collection once |
| `PrunedDocIDs.RunsConserveTexts` | pkg/pruner/pruner.go:188-241 | the same letter by letter: the docID texts pushed into a collection are those purged, then in flight, then queued, for canonical docIDs of one prefix |
| `DefaultCollections.DefaultRunsConserve` | pkg/pruner/config.go:27-40 | under the default collection configuration every run conserves documents |
| `BalanceGate.BalanceAuthorizer.constructor` | pkg/acp/balance.go:40-48 | an empty cache for epoch zero |
| `BalanceGate.BalanceAuthorizer.CachedFunded` | pkg/acp/balance.go:88-99 | another epoch, older or newer, empties the cache and misses; otherwise a hit is a cached payer |
| `BalanceGate.BalanceAuthorizer.StoreFunded` | pkg/acp/balance.go:70-81 | the balance is cached if and only if it is sufficient and the cache is still for the epoch the call observed; nothing else changes |
| `BalanceGate.BalanceAuthorizer.Authorize` | pkg/acp/balance.go:52-82 | read errors are errors and not denials, a hit allows, a miss answers what the hub balance says, and every allowed payer is cached for the epoch |
| `BalanceGate.EveryDecisionIsBacked` | pkg/acp/balance.go:52-99 | in every interleaving each allow, and each cached payer, is backed by a sufficient balance that a call which had observed that same epoch read |
| `BalanceGate.CachedExactly` | pkg/acp/balance.go:52-99 | in every interleaving a payer is cached if and only if a call with a sufficient balance ended under the epoch of the cache and no call has probed it for another epoch since |
| `BalanceGate.SecondCallReadsNothing` | pkg/acp/balance.go:58-60 | after a funded call a second one of that payer in that epoch is allowed without a hub read |
| `BalanceGate.CacheEpochGoesBack` | pkg/acp/balance.go:92-96 | a call that observed an older epoch takes the cache epoch back, so the epoch of the cache is not monotone |
| `EpochClockModel.EpochClock.constructor` | pkg/acp/epoch.go:42-49 | no epoch is known at first |
| `EpochClockModel.EpochClock.Peek` | pkg/acp/epoch.go:56-62 | the known epoch is served if and only if there is one and less than the interval has passed since its commit |
| `EpochClockModel.EpochClock.Commit` | pkg/acp/epoch.go:75-90 | a read height commits height / epochLength and the time; a failed read changes nothing and answers the last known epoch, or the error when none is known |
| `EpochClockModel.EpochNeverDecreases` | pkg/acp/epoch.go:55-90 | in every interleaving with non-decreasing heights a known epoch stays known and never decreases |
| `EpochClockModel.ReturnedEpochsAreRead` | pkg/acp/epoch.go:55-90 | every returned epoch is that of a height some successful read reported, and an error is returned only from a time before the first success |
| `EpochClockModel.ServedExactlyWithinInterval` | pkg/acp/epoch.go:55-62 | in every run a new call is answered at once if and only if the last commit was made less than an interval before, and then with the epoch of its height |
| `EpochClockModel.OtherwiseTheHubIsRead` | pkg/acp/epoch.go:64-90 | any other caller waits for the height read under way, or starts one and gets the epoch of the height the hub then has |
| `EpochClockModel.ReadsAreSpacedExactly` | pkg/acp/epoch.go:40-90 | in every run no two height reads start within an interval if and only if every caller that follows a failed read, or that looked at the clock before the last commit, joins at least an interval after the last read started |
| `EpochClockModel.EarlyReadsAreExcused` | pkg/acp/epoch.go:56-66 | in every run only a caller that follows a failed read, or that looked before the last commit, starts a read within an interval of the last one |
| `EpochClockModel.CalmRunsAreSpaced` | pkg/acp/epoch.go:40-90 | in every run without a failed read and without a commit between a caller's look and the read it starts, no two reads start within an interval |
| `EpochClockModel.SecondReadWithinInterval` | pkg/acp/epoch.go:40-41 | two callers that look before one commit read twice at the same instant |
| `EpochClockModel.FailedReadIsRepeatedAtOnce` | pkg/acp/epoch.go:75-85 | after a failed read the next caller, with no outdated look, reads at the same instant |
| `EpochClockModel.FailingHubIsReadAgain` | pkg/acp/epoch.go:75-85 | in every run: a read that fails while the clock is not fresh can be repeated at the same instant by any new caller |
| `EpochClockModel.BoundHoldsExactlyWithoutInterval` | pkg/acp/epoch.go:40-41 | the documented bound of one height read per interval holds in every run if and only if the interval is not positive |
| `RecordSubmission.AtMost64HoldSlots` | pkg/acp/middleware.go:220-237 | in every run at most 64 submissions hold a slot, and the slots taken and the wait-group counter equal the records they stand for |
| `RecordSubmission.ManyHold` | pkg/acp/middleware.go:224-224 | and every number up to 64 is reached by some run |
| `RecordSubmission.SlotIsFreeExactly` | pkg/acp/middleware.go:224-224 | in every run a waiting record gets a slot if and only if fewer than 64 hold one |
| `RecordSubmission.EveryRecordCanFinish` | pkg/acp/middleware.go:220-237 | after every run each submitted record can still be finished |
| `RecordSubmission.DrainLeavesNoneUnfinished` | pkg/acp/middleware.go:242-252 | a Drain that returned by completion leaves no record unfinished that had been counted when it began |
| `RecordSubmission.MissedExactlyWhenUncounted` | pkg/acp/middleware.go:220-252 | in every reachable state: a Drain beginning there can return while a submitted record is unfinished if and only if the record is unfinished and not yet counted, waiting for a slot or holding one |
| `QueryGate.ViewRows` | pkg/acp/capture.go:54-74 | when every key holds an array the rows are the sum of their lengths in 64 bits; served means that some key holds an array, empty or not; nothing for a body that is not JSON |
| `QueryGate.RowSumIsSumOfLengths` | pkg/acp/capture.go:61-72 | under keys whose values are arrays the rows are the sum of the lengths |
| `QueryGate.OnlyArraysCount` | pkg/acp/capture.go:63-70 | an absent key, null, any other value and an empty array add nothing |
| `QueryGate.LongerArrayAddsRows` | pkg/acp/capture.go:71-71 | making one of the arrays longer by m adds m rows |
| `QueryGate.RowSumBillsOnce` | pkg/acp/capture.go:61-72 | over distinct keys every array of the view is billed exactly once |
| `QueryGate.RepeatedKeyBillsTwice` | pkg/acp/capture.go:61-72 | a repeated key would be billed twice, so distinctness is what prevents it |
| `QueryGate.CaptureWriter.constructor` | pkg/acp/capture.go:21-23 | status 200 and an empty body |
| `QueryGate.CapturedExactly` | pkg/acp/capture.go:25-40 | after any header and write calls the writer holds the status of the last header, 200 without one, and exactly what was written before the first header of an event stream |
| `QueryGate.BeforeStreamExactly` | pkg/acp/capture.go:25-40 | what comes before the stream are all calls before the first header whose content type starts with text/event-stream |
| `QueryGate.LastStatusExactly` | pkg/acp/capture.go:25-26 | the status is that of a header behind which there is none, and 200 without any |
| `QueryGate.WrittenExactly` | pkg/acp/capture.go:35-40 | what is written is every text written, one after another |
| `QueryGate.ServeNext` | pkg/acp/middleware.go:198-199 | the wrapped handler leaves that status and body in the writer |
| `QueryGate.CollectViewLookups` | pkg/acp/middleware.go:280-294 | the registered views among the names, or a refusal exactly when one of them has no address |
| `QueryGate.ViewsAreMembers` | pkg/acp/middleware.go:280-294 | a view is looked up if and only if it is registered and among the names of the request |
| `QueryGate.HandleGraphQL` | pkg/acp/middleware.go:125-214 | every outcome and when it happens: 400 for a request that does not parse or whose fields cannot be collected, 503, pass-through, 400 for several views, 403, 503 and 402 in the order of the checks; a record is submitted once at most, exactly for an authorized request with one served view and a last status of 2xx, for the rows of that view in what was written before any event stream |
| `QueryGate.BilledRowsAreTheViewsRows` | pkg/acp/middleware.go:198-213 | for any collected fields the billed rows are the rows of all arrays under the response keys of the view, each once |
| `BlockSignatureCacheModel.BlockSignatureCache.constructor` | pkg/attestation/blockSignatureVerifier.go:35-43 | an empty cache; a size of zero or less means 10000 |
| `BlockSignatureCacheModel.BlockSignatureCache.Add` | pkg/attestation/blockSignatureVerifier.go:46-64 | the new signature replaces the one of its block, and an overfull cache loses the block its scan finds |
| `BlockSignatureCacheModel.BlockSignatureCache.ScanMinimum` | pkg/attestation/blockSignatureVerifier.go:54-59 | the scan over the map in an arbitrary order, with -1 as its start |
| `BlockSignatureCacheModel.ScanIsMinimum` | pkg/attestation/blockSignatureVerifier.go:54-59 | without negative blocks every iteration order finds the least block |
| `BlockSignatureCacheModel.TopSetIsLargest` | pkg/attestation/blockSignatureVerifier.go:46-64 | the set kept is the set of the maxSize largest blocks |
| `BlockSignatureCacheModel.RunKeepsTop` | pkg/attestation/blockSignatureVerifier.go:46-64 | every sequence of additions without negative blocks keeps that set, whatever the iteration orders |
| `BlockSignatureCacheModel.RunKeepsValues` | pkg/attestation/blockSignatureVerifier.go:46-64 | each block kept maps to the last signature added for it |
| `BlockSignatureCacheModel.CacheIsTopKExactlyWhen` | pkg/attestation/blockSignatureVerifier.go:46-72 | after any sequence of additions the cache is the maxSize largest distinct blocks with their newest signatures if and only if no block was negative or there were at most maxSize distinct ones |
| `BlockSignatureCacheModel.BlockSignatureCache.Get` | pkg/attestation/blockSignatureVerifier.go:67-72 | after any additions a signature returned is the last one added for its block, and while no block was negative or too many one is returned exactly for the maxSize largest blocks |
| `BlockSignatureCacheModel.LookupAfterRun` | pkg/attestation/blockSignatureVerifier.go:46-72 | the same of every sequence of additions and every choice of iteration orders |
| `BlockSignatureCacheModel.FoundExactly` | pkg/attestation/blockSignatureVerifier.go:46-72 | a block is found if and only if it was added and fewer than maxSize larger ones were, and then with a signature behind which none was added for it |
| `QueryRewriter.FindMainBracePos` | pkg/graphql/withReturnDocIdAndVersion.go:53-72 | the first opening brace with as many opening as closing parentheses before it |
| `QueryRewriter.FindMatchingCloseBrace` | pkg/graphql/withReturnDocIdAndVersion.go:207-226 | the brace that takes the nesting depth back to zero, or none |
| `QueryRewriter.RemoveVersionWithBraces` | pkg/graphql/withReturnDocIdAndVersion.go:165-193 | the field and its closed braces give way to a space; unclosed braces leave the content unchanged |
| `QueryRewriter.RemoveIncompleteVersion` | pkg/graphql/withReturnDocIdAndVersion.go:144-162 | the first _version goes, with its braces when it has any |
| `QueryRewriter.RemoveVersion` | pkg/graphql/withReturnDocIdAndVersion.go:124-141 | the removal cases in order |
| `QueryRewriter.BuildNewSelectionSetContent` | pkg/graphql/withReturnDocIdAndVersion.go:75-107 | the string built: _docID, a complete _version unless there is one, and the rest |
| `QueryRewriter.AddDocIDAndVersionToSelectionSets` | pkg/graphql/withReturnDocIdAndVersion.go:25-50 | the specification function of the rewriting, about which the laws below are proved |
| `QueryRewriter.WithReturnDocIDAndVersion` | pkg/graphql/withReturnDocIdAndVersion.go:10-22 | blank queries are errors; all others are trimmed and rewritten |
| `Braces.CloseIsAfterScan` | pkg/graphql/withReturnDocIdAndVersion.go:207-226 | a matching brace is found at a position if and only if the text before it returns to the starting depth |
| `Braces.CutBalanced` | pkg/graphql/withReturnDocIdAndVersion.go:183-192 | exchanging a balanced piece of a balanced text for another keeps it balanced |
| `Texts.TrimSpaceSplits` | pkg/graphql/withReturnDocIdAndVersion.go:16-16 | trimming removes a run of spaces at each end and nothing else |
| `RewriterLaws.RemoveVersionKeepsBalance` | pkg/graphql/withReturnDocIdAndVersion.go:124-204 | every way of removing a _version keeps balanced braces balanced |
| `RewriterLaws.NewContentIsBalanced` | pkg/graphql/withReturnDocIdAndVersion.go:75-141 | rewriting a balanced selection set gives a balanced one |
| `RewriterLaws.NewContentHasBoth` | pkg/graphql/withReturnDocIdAndVersion.go:75-107 | the new selection set holds the texts of _docID and of the complete _version, at whatever depth |
| `RewriterLaws.RewritesOneSelectionSet` | pkg/graphql/withReturnDocIdAndVersion.go:25-50 | the text outside the main braces is kept, and afterwards they hold a balanced selection set in which both texts occur, at whatever depth |
| `RewriterLaws.NoMainPairIsFixed` | pkg/graphql/withReturnDocIdAndVersion.go:26-34 | a query without a main pair of braces is unchanged |
| `RewriterLaws.RewrittenOfSplit` | pkg/graphql/withReturnDocIdAndVersion.go:36-49 | only the text between the main braces decides and changes |
| `RewriterLaws.RewritingIsIdempotent` | pkg/graphql/withReturnDocIdAndVersion.go:25-50 | a second rewriting changes nothing, for every text |
| `RewriterLaws.AnswerIsIdempotent` | pkg/graphql/withReturnDocIdAndVersion.go:10-22 | sending an answer back in returns it unchanged, for every query that has an answer |
| `RewriterLaws.AnswerHasBoth` | pkg/graphql/withReturnDocIdAndVersion.go:10-50 | in every answer to a query with a main pair of braces both texts occur between them, at whatever depth |
| `RewriterPromises.RemainingIsKept` | pkg/graphql/withReturnDocIdAndVersion.go:75-204 | what follows the new head is, trimmed, the old content past a leading _docID and with the first _version replaced by a space, or with none removed when one is complete |
| `RewriterPromises.DocIDTwiceExactly` | pkg/graphql/withReturnDocIdAndVersion.go:7-9 | the new selection set selects _docID twice if and only if that kept text selects it: at brace depth one, outside parentheses and as a whole name |
| `RewriterPromises.VersionTwiceExactly` | pkg/graphql/withReturnDocIdAndVersion.go:7-9 | it selects _version twice if and only if the kept text selects it, or selects it twice when a complete one is kept |
| `RewriterPromises.AnswerDuplicatesExactly` | pkg/graphql/withReturnDocIdAndVersion.go:7-50 | exactly which accepted queries are answered with an outermost selection set that selects _docID, or _version, twice |
| `RewriterPromises.SecondDocID` | pkg/graphql/withReturnDocIdAndVersion.go:7-50 | an accepted query that is answered with a second _docID, which the documentation excludes |
| `RewriterPromises.SecondVersion` | pkg/graphql/withReturnDocIdAndVersion.go:7-50 | an accepted query that is answered with a second _version |
| `OutermostSelections.OutermostExactly` | pkg/graphql/withReturnDocIdAndVersion.go:40-49 | outside nested braces and parentheses and as a whole name, the new selection set has _docID if and only if the old one had or lacked one of the two texts, and a complete _version if and only if the old one had or held none |
| `OutermostSelections.AnswerSelectsBothExactly` | pkg/graphql/withReturnDocIdAndVersion.go:7-50 | exactly which accepted queries are answered with an outermost selection set that selects both fields |
| `OutermostSelections.NestedFieldsSuppressOutermost` | pkg/graphql/withReturnDocIdAndVersion.go:40-46 | every query whose one nested selection set holds both texts is answered unchanged, with neither field in its outermost set |
| `OutermostSelections.UserFieldsSuppressOutermost` | pkg/graphql/withReturnDocIdAndVersion.go:7-9 | such a query, against the promise that both fields are returned |
| `NestedSelections.NestedPromiseExactly` | pkg/graphql/withReturnDocIdAndVersion.go:7-50 | the nested selection sets, outside parentheses, all select both fields after the rewriting if and only if nothing was rewritten and they did before, or the kept text has none |
| `NestedSelections.NestedSetsNeverGain` | pkg/graphql/withReturnDocIdAndVersion.go:24-50 | for every content they do so after the rewriting if and only if those of the kept text do, and, when whole fields are removed, if and only if those of the old selection set did |
| `NestedSelections.AnswerNestedExactly` | pkg/graphql/withReturnDocIdAndVersion.go:7-50 | exactly which accepted queries are answered with nested selection sets that all select both fields |
| `NestedSelections.NestedSetGainsNothing` | pkg/graphql/withReturnDocIdAndVersion.go:7-9 | an accepted query whose nested selection set gains neither field, against the documentation |
| `NestedSelections.NestedVersionIsDeleted` | pkg/graphql/withReturnDocIdAndVersion.go:144-162 | an accepted query whose nested incomplete _version is deleted |
| `NestedSelections.ArgumentObjectsAreNoSets` | pkg/graphql/withReturnDocIdAndVersion.go:40-46 | a query whose one nested selection set selects both fields keeps the promise and is answered unchanged, whatever objects stand in the arguments before it |
| `NestedSelections.AnswerPromiseExactly` | pkg/graphql/withReturnDocIdAndVersion.go:7-50 | exactly which accepted queries are answered with every selection set, outermost, nested and of later operations and fragments, selecting both fields |
| `NestedSelections.LaterSetGainsNothing` | pkg/graphql/withReturnDocIdAndVersion.go:24-50 | whatever the first selection set holds, a later one that names no _version is answered as it is and without it |
| `WholeFields.OtherFieldsSurvive` | pkg/graphql/withReturnDocIdAndVersion.go:75-204 | when the leading _docID and the removed _version are whole names with balanced parentheses, every other name is selected after the rewriting if and only if it was before |
| `WholeFields.KeptSelectsExactly` | pkg/graphql/withReturnDocIdAndVersion.go:75-204 | in that case the kept text selects a name if and only if the old selection set does outside the removed parts |
| `WholeFields.WholeFieldsTwiceExactly` | pkg/graphql/withReturnDocIdAndVersion.go:7-9 | in that case either field is selected twice if and only if the old selection set selects it outside the removed parts, for _version when none is complete |
| `WholeFields.NamesKeptExactly` | pkg/graphql/withReturnDocIdAndVersion.go:75-204 | the names of the new selection set are those of its head and of the two kept parts, in order, and no other name is torn or joined if and only if the leading _docID and the removed _version are whole names |
| `WholeFields.TornName` | pkg/graphql/withReturnDocIdAndVersion.go:110-121 | an accepted query whose field _docIDs becomes a field s |
| `WholeFields.AliasPassesOn` | pkg/graphql/withReturnDocIdAndVersion.go:144-162 | an accepted query in which the alias of the removed _version is left to the next field |
| `WholeFields.UserAnswer` | pkg/graphql/withReturnDocIdAndVersion.go:10-107 | the answer to a query for the names of users, letter by letter |
| `WholeFields.BothFieldsAnswer` | pkg/graphql/withReturnDocIdAndVersion.go:10-193 | the answer to a query with _docID and an incomplete _version, letter by letter |
| `ConnectDelay.DelayIsCappedExactly` | pkg/defradb/network_handler.go:205-205 | for a positive base the computed delay is min(base * 2^attempt, 30s) if and only if the product fits 64 bits or overflows into 30s or more |
| `ConnectDelay.DelaysAreCapped` | pkg/defradb/network_handler.go:180-205 | when the product of the last attempt fits, every attempt waits that long, and more than no time |
| `ConnectDelay.DefaultBaseOverflows` | pkg/defradb/network_handler.go:205-205 | with the default base attempt 34 is the first to overflow, and its delay is negative |
| `ConnectDelay.DefaultBaseIsCappedExactly` | pkg/defradb/network_handler.go:205-205 | with the default base the delay is min(base * 2^attempt, 30s) if and only if the attempt is at most 33 or one of 37, 41, 42, 45, 47, 50, 51 and 53 |
| `PeerNetwork.StepKeepsInv` | pkg/defradb/network_handler.go:168-427 | every step keeps: each connect loop runs on a connecting peer, each connecting peer has a loop, and no peer has two |
| `PeerNetwork.RunsKeepInv` | pkg/defradb/network_handler.go:38-427 | the same in every run from a new handler in which no StartNetwork call begins while another is under way |
| `PeerNetwork.OneLoopPerConnectingPeer` | pkg/defradb/network_handler.go:168-427 | in every such run, through ticks, lost peers, added and removed peers, a peer object has exactly one loop while connecting and none otherwise, is never seen reconnecting, and never counts more tries than the maximum |
| `PeerNetwork.EveryDelayIsCapped` | pkg/defradb/network_handler.go:180-205 | in every such run each waiting loop waits min(base * 2^attempt, 30s) when the last product fits |
| `PeerNetwork.LoopsRunDown` | pkg/defradb/network_handler.go:180-222 | each step of a connect loop brings it closer to its end, and no other step touches it |
| `PeerNetwork.ConnectedExactly` | pkg/defradb/network_handler.go:168-344 | in every run a peer object is connected if and only if a dial of one of its loops succeeded and since then no step found it lost and no StartNetwork call connected to it again |
| `PeerNetwork.LoopsDialExactly` | pkg/defradb/network_handler.go:180-222 | in every run a loop that ended dialed successfully once after fewer failures than there are retries, or failed exactly as often as there are |
| `PeerNetwork.LostPeerIsDialedAgain` | pkg/defradb/network_handler.go:287-395 | a connected peer that is found lost, and one that is disconnected or failed, is being dialed after the next tick and attempt |
| `PeerNetwork.StartIsSafeExactlyAlone` | pkg/defradb/network_handler.go:73-99 | while the network is inactive, a StartNetwork call leaves every continuation without two loops on one peer if and only if no other call is under way when it begins, with the lock held between the dials of a call, and whether the peer being connected is still listed or not |
| `NetworkHandlerModel.NetworkHandler.constructor` | pkg/defradb/network_handler.go:39-70 | a fresh peer object for each bootstrap address, all disconnected, nothing running; zero settings mean 5 retries and one second |
| `NetworkHandlerModel.NetworkHandler.AddPeer` | pkg/defradb/network_handler.go:398-415 | a new address gets a fresh disconnected peer object, and a reconnecting goroutine when active; a known address changes nothing |
| `NetworkHandlerModel.NetworkHandler.RemovePeer` | pkg/defradb/network_handler.go:418-427 | the address leaves the table while its peer object and loop live on; an unknown one changes nothing |
| `NetworkHandlerModel.NetworkHandler.BeginConnect` | pkg/defradb/network_handler.go:168-184 | of all peer objects only the given one changes: connecting with its first try counted, or failed at once without retries |
| `NetworkHandlerModel.NetworkHandler.FinishDial` | pkg/defradb/network_handler.go:186-210 | a goroutine that holds only its peer object and attempt takes the step of the machine for its loop, even after the peer was removed: a successful dial leaves the peer connected and ends the loop, a failed one leaves its state and waits the computed delay |
| `NetworkHandlerModel.NetworkHandler.FinishDelay` | pkg/defradb/network_handler.go:180-222 | the same for the end of a wait: while retries are left the next try on the same object, and otherwise the peer has failed and the loop has ended |
| `NetworkHandlerModel.NetworkHandler.AttemptReconnect` | pkg/defradb/network_handler.go:381-395 | connected, connecting and reconnecting peers are left alone; any other starts a loop, the Reconnecting mark being overwritten under the same lock |
| `NetworkHandlerModel.NetworkHandler.Redial` | pkg/defradb/network_handler.go:391-394 | the Reconnecting mark is overwritten by the start of the loop under the same lock |
| `NetworkHandlerModel.NetworkHandler.MarkLost` | pkg/defradb/network_handler.go:287-344 | of the listed connected peers exactly those not found alive are disconnected |
| `NetworkHandlerModel.NetworkHandler.ReconnectDisconnectedPeers` | pkg/defradb/network_handler.go:358-378 | one goroutine for each listed peer that is disconnected or failed |
| `NetworkHandlerModel.NetworkHandler.GetConnectionStats` | pkg/defradb/network_handler.go:464-485 | each counter is the number of listed peers in its states |
| `NetworkHandlerModel.StatsAddUp` | pkg/defradb/network_handler.go:464-485 | the four counters add up to the number of peers |
| `VerificationWorkers.StepKeepsInv` | pkg/attestation/attestationRecordService.go:45-66 | every step keeps the semaphore, wait-group and channel accounts exact and uses up a positive measure |
| `VerificationWorkers.EverySlotIsBounded` | pkg/attestation/attestationRecordService.go:38-56 | no schedule has more versions verifying at once than asked for, or than 50 when that is not positive |
| `VerificationWorkers.EverySlotIsUsed` | pkg/attestation/attestationRecordService.go:38-56 | some schedule has that many verifying at once, or all versions when there are fewer |
| `VerificationWorkers.EveryScheduleEnds` | pkg/attestation/attestationRecordService.go:45-66 | no schedule takes more than 7n + 2 steps for n versions |
| `VerificationWorkers.NeverStuck` | pkg/attestation/attestationRecordService.go:45-66 | until the collector has returned some step can be taken, in every schedule |
| `VerificationWorkers.SendsNeverBlock` | pkg/attestation/attestationRecordService.go:42-61 | no worker sends on the closed channel and none finds it full |
| `VerificationWorkers.ReturnsWhatVerifies` | pkg/attestation/attestationRecordService.go:45-74 | whatever the schedule, each CID is returned as often as there are versions of it that verify |
| `AttestationRecords.MergeStringListField` | pkg/attestation/attestationRecordService.go:146-189 | for every shape of the stored field the result is the stored list followed by the new values, each string at its first occurrence |
| `AttestationRecords.AppendOptions` | pkg/attestation/attestationRecordService.go:152-161 | the loop over optional strings skips the empty options |
| `AttestationRecords.AppendItems` | pkg/attestation/attestationRecordService.go:169-177 | the loop over untyped items skips those that are no strings |
| `AttestationRecords.OptionsExactly` | pkg/attestation/attestationRecordService.go:152-161 | of optional strings exactly those that are there count, in order |
| `AttestationRecords.ItemsExactly` | pkg/attestation/attestationRecordService.go:169-177 | of untyped items exactly the strings count, in order |
| `AttestationRecords.MergeAttestationRecords` | pkg/attestation/attestationRecordService.go:480-528 | records of different documents are refused; otherwise both lists are the deduplicated concatenations, and type and vote count are dropped |
| `AttestationRecords.MergeIsAssociative` | pkg/attestation/attestationRecordService.go:480-528 | merging is associative, order of the lists included |
| `AttestationRecords.MergeIsCommutativeAsSets` | pkg/attestation/attestationRecordService.go:480-528 | merging the other way round gives the same sets |
| `AttestationRecords.MergeAbsorbsRepeats` | pkg/attestation/attestationRecordService.go:480-528 | merging a part in again changes nothing |
| `AttestationRecords.MergeWithItselfIsIdentityExactly` | pkg/attestation/attestationRecordService.go:502-506 | merging a record with itself gives it back if and only if it lists nothing twice and has neither type nor vote count |
| `AttestationRecords.AttestationStore.constructor` | pkg/attestation/attestationRecordService.go:79-88 | nothing is stored at first |
| `AttestationRecords.AttestationStore.PostAttestationRecord` | pkg/attestation/attestationRecordService.go:79-142 | read, merge and write back, or create; a failing save stores nothing |
| `AttestationRecords.StoredAsExpected` | pkg/attestation/attestationRecordService.go:79-142 | after any run of posts the record of a document depends on the posts for it alone: the first as it is, later ones deduplicated into it, the first type and the last vote count |
| `AttestationRecords.StoredIsDeduplicatedExactly` | pkg/attestation/attestationRecordService.go:90-141 | the stored lists are the deduplication of everything posted, in order, if and only if there were two posts or the only one listed nothing twice |
| `Dedup.AppendNew` | pkg/attestation/attestationRecordService.go:162-168 | the accumulating loop adds the strings not seen yet, in order, and records exactly what it met |
| `Dedup.FirstPerKeyOfConcat` | pkg/attestation/attestationRecordService.go:150-186 | deduplicating two lists after each other against one set is deduplicating their concatenation |
| `Dedup.FirstPerKeyExactly` | pkg/attestation/attestationRecordService.go:150-186 | a deduplicated list holds exactly the elements at the first occurrence of their key |
| `Dedup.FirstPerKeyOfMore` | pkg/attestation/attestationRecordService.go:162-168 | one more element is kept if and only if no earlier one has its key |
| `ObservedAttestersModel.ObservedAttesters.constructor` | pkg/host/observedAttesters.go:30-36 | nobody is observed at first |
| `ObservedAttestersModel.ObservedAttesters.Observe` | pkg/host/observedAttesters.go:39-46 | the time of the last observation, an empty identity being ignored |
| `ObservedAttestersModel.ObservedAttesters.Snapshot` | pkg/host/observedAttesters.go:50-65 | exactly the identities not older than the cutoff are kept and returned, sorted |
| `ObservedAttestersModel.ObservedAttesters.DropAged` | pkg/host/observedAttesters.go:55-62 | deleting while iterating in any order keeps exactly those |
| `ObservedAttestersModel.SortStringsSorts` | pkg/host/observedAttesters.go:63-63 | the result is sorted and holds the same strings |
| `ObservedAttestersModel.AtMostIsLexicographic` | pkg/host/observedAttesters.go:63-63 | the order is that of a dictionary |
| `ObservedAttestersModel.SortedIsUnique` | pkg/host/observedAttesters.go:55-64 | there is one sorted list of given strings, so the iteration order of the map does not show |
| `ObservedAttestersModel.SetIsSurvivors` | pkg/host/observedAttesters.go:39-65 | after any history an identity is in the set if and only if its last observation is no older than any cutoff used since |
| `ObservedAttestersModel.NothingOlderThanCutoff` | pkg/host/observedAttesters.go:50-65 | no snapshot returns an identity last observed before its own cutoff |
| `ObservedAttestersModel.EverythingSinceLargestCutoff` | pkg/host/observedAttesters.go:50-65 | every identity observed at or after the largest cutoff so far is returned |
| `ObservedAttestersModel.PruningNeverShows` | pkg/host/observedAttesters.go:48-65 | with no larger cutoff used before, a snapshot returns exactly those last observed within the window in the full history |
| `ObservedAttestersModel.MissingExactlyWhenOvertaken` | pkg/host/observedAttesters.go:50-65 | an identity within the window is missing if and only if a snapshot after its last observation used a cutoff beyond it |
| `ObservedAttestersModel.OvertakenSnapshot` | pkg/host/observedAttesters.go:51-52 | two overlapping snapshots for which that happens |

## Left out

- DefraDB, libp2p, gob, gzip, JSON and file access, HTTP transport and WebSocket reads: their results are parameters; saving and loading a queue is the identity on the snapshot value.
- Cryptography, CID decoding and signature verification: an arbitrary hash with 32-byte results and arbitrary verdicts.
- Filter-based and startup pruning (pkg/pruner/pruner.go:256-387): they rest on database queries.
- totalBlocksPruned: it is increased also when the block purge fails and is requeued, so it counts nothing exactly.
- PrunerModel.Pruner.PurgeFromDrainResult: purgeByDocIDs drops the docIDs that the database client rejects (pkg/pruner/pruner.go:472-478) and counts only the others; here a purge that succeeds has purged its whole list.
- PruneRuns.RunsConserve: a restart is an orderly stop and start between two cycles; the queue is saved only then, so a crash at any time loses every push since the last orderly stop, and what is in flight, and loads a stale file.
- EpochClockModel.ReturnedEpochsAreRead: singleflight is modelled as one refresh at a time whose outcome every waiting caller receives.
- PeerNetwork.RunsKeepInv: StopNetwork and cancelled contexts are not steps of the machine; the matching of peer IDs inside multiaddresses is the set of addresses found alive, and a StartNetwork call may connect to its peers in any order and number; in the runs that double a loop each call comes to an address once at most and returns only when none is listed.
- NetworkHandlerModel.NetworkHandler.BeginConnect: a method that drops its lock is cut into one method for each locked section, the loops and goroutines under way are ghost fields, and timestamps and stored error values are absent.
- VerificationWorkers.ReturnsWhatVerifies: the goroutines are a state machine and not a method; an empty version list, which the code answers without workers, gives the same empty result.
- AttestationRecords.AttestationStore.PostAttestationRecord: posts for one document follow each other; overlapping read-modify-write cycles, which depend on the database's transactions, and the batch variant are not modelled.
- QueryRewriter.WithReturnDocIDAndVersion: texts are sequences of Unicode characters, as valid UTF-8 is; the two loops that match braces share one method.
- QueryGate.HandleGraphQL: request parsing, freshness and signature verification are reported by a parameter for each check.
- RecordSubmission.DrainLeavesNoneUnfinished: a Drain that returns because its context ends promises nothing; a panic in a record is its end, as the code recovers it.
- ObservedAttestersModel.ObservedAttesters.Snapshot: sort.Strings is an insertion sort on characters, which orders valid UTF-8 as its bytes do.
- OutermostSelections.OutermostExactly: names in strings and comments outside parentheses count as names, as nothing in the code reads them otherwise.
- WholeFields.NamesKeptExactly: alias, arguments and directives of a removed field are other tokens than its name; that they stay behind is shown for an alias only.
- AddBlockNumberFilter and WithBlockNumberFilter: they insert a fixed text at a place found by a regular expression.
- The replication filter, findCoveringSnapshots and provenance decisions: tests of single conditions on one document or snapshot.
- Configuration, metrics, health pages, playground, signer, logging, view registration and the WASM registry: plumbing around the parts above.
- ProcessingPipeline: nothing feeds its job queue.
