# A Dafny model of mainstack-search

mainstack-search is a single-node search server with a subset of the OpenSearch API.
This project models its state-keeping parts and proves what they promise.

* **The durable store.** `Catalog` holds the database, its mutations and their validation;
  `Effects` says what each mutation changes, `Costs` what it does to the memory estimate and
  `Admission` exactly when it is accepted;
  `SizeCache` the incremental byte counter and the predictor that must agree with it;
  `CatalogInvariant` what every reachable database satisfies; `MutationLog` the log, its
  replay and its compaction; `Writes` the prepared writes and the two batch paths;
  `Operations` exactly when a write is accepted there and what is stored afterwards;
  `Durability` a machine of commits, snapshots, crashes and restarts over disk files;
  `Recovery` what a load finds after every run of it; `TornTail` the runs that go on after
  a record was cut short, and `LogText` where its bytes may be cut; `AtomicFile` one file
  write, call by call;
  `Store` the object whose methods take those steps; `Repair` the renaming of
  percent-encoded ids on opening; `SyncThread` the delayed sync of the log;
  `Counterexamples` whole runs that break what one would expect.
* **Reading.** `Search` collects, sorts and pages; `SortedSearch` says what a page holds and
  in what order, in terms of the request, `JsonText` when two sort values tie; `Paging`
  crawls with `search_after`;
  `Projection` filters sources by paths; `Glob` matches star patterns.
* **Contexts.** `ScrollRuntime` holds scroll cursors and points in time, and
  `ScrollDelivery` follows them over whole runs.
* **By query.** `ByQuery` plans deletes, updates and reindexes and counts their outcomes.
* **Snapshot repositories.** `Repository` writes generations and content-named blobs,
  `RepositoryIntegrity` crashes it between any two file operations, `SnapshotContents` says
  what a snapshot holds.
* `Prelude` and `Json` hold options, ordered keys, sums over maps and JSON values.

Code that changes state in place is a class (`Catalog.LiveDatabase`, `Store.Store`,
`ScrollRuntime.RuntimeState`, `Repository.SnapshotRepository`), and loops are methods with
loops; each is tied to a specification function, and the theorems are about those
functions: what they keep over every run, and, without calling them, what they give.
A disk operation completes, or fails, or the process stops, so that a crash may fall
between any two of them; a record or a temporary file being written may be cut.
Clock readings, generated ids, directory listings and the outcome of I/O are inputs;
transaction ids are taken to be fresh.

Where the code does not do what one would expect, the code is modelled as it is, and the
exact condition is a theorem:

* An index created for a bulk operation that is then refused stays in memory and never
  reaches the log, unless the batch logs nothing (`Writes.LeavesStrayExactlyWhen`,
  `Writes.BulkMemoryIsItsLogExactlyWhen`, `Counterexamples.BulkCanDiverge`); later writes
  to it are logged and lost (`Writes.DivergedBatchLosesWrites`).
* A rename ignores a tombstone under its new id, and a later delete counts it twice
  (`SizeCache.ExactAfterExactlyWhen`).
* A snapshot attempt that fails without a crash after its metadata was written gives its
  generation number away again. By itself that costs nothing, but the next attempt
  overwrites the file the metadata names, and until it has written new metadata a crash
  makes recovery apply transactions twice (`Durability.NextSnapshotOverwritesExactlyWhenLate`,
  `Recovery.RecoversExactlyWhatWasCommitted`, `Recovery.SpoiledDiskLoadsAgain`,
  `Counterexamples.RecoveryCanRepeatAWrite`).
* A record cut inside a character beyond ASCII makes the whole log unreadable: the store
  does not open, and a process that goes on can no longer cut its log
  (`LogText.CutRecordRecoversExactlyAtBoundary`, `MutationLog.UndecodableFails`).
* An append after a torn line makes the store unloadable, from that append to the next
  snapshot metadata (`MutationLog.AppendStaysReadableExactlyWhenNotTorn`,
  `TornTail.UnloadableExactlyWhen`).
* A commit whose newline could not be written is reported failed, and comes back after a
  crash; one that was recovered so goes again when the next record tears onto it
  (`TornTail.FailedCommitReturns`, `TornTail.SwallowedCommitIsLost`).
* The documentation says that `search_after` no longer skips hits with equal sort values;
  a sort on `_id` alone over several indexes still does (`Paging.IdSortLosesHits`,
  `Paging.RequestDeliversExactlyWhen`). Sort values are in an order unless numbers
  stand beside strings (`Search.OrdersExactlyWhen`).
* The greedy matcher refuses some matches of patterns like `a*b`
  (`Glob.GreedyDecidesExactlyWhen`).
* A template pattern whose front and back overlap also covers names in which they do, as
  `aba*aba` covers `aba` (`Operations.TemplatePatternDecidesExactlyWhen`).
* A sort part `{"price": "desc"}` sorts upwards, because only an object's `order` is read
  (`SortedSearch.ParsedExactlyWhen`).
* A snapshot request knows no aliases: one by an alias is refused
  (`SnapshotContents.SelectedIndices`).
* A blob whose 64-bit hash is taken is not written, whatever its bytes
  (`RepositoryIntegrity.SnapshotHoldsItsDatabaseExactlyWhen`).
* The drop of the log syncer can wait forever for a thread that missed its only
  notification (`SyncThread.DropCanGetStuckExactlyWhen`, `SyncThread.LostWakeup`).

`dafny verify dfyconfig.toml` checks the whole project.

## Model

| member | source | states |
|---|---|---|
| `Catalog.EstimateDatabaseBytes` | src/storage/mod.rs:1557-1579 | The memory estimate is 128 plus the cached index sizes and the weights of templates, aliases and registries, whatever the iteration order. |
| `Catalog.LiveDatabase.Apply` | src/storage/mod.rs:1769-1986 | The mutable database after one mutation, all five fields, is the specification function `Applied` of the old one, every branch and every silent no-op included; what that function gives, kind by kind, is stated in `Effects`. |
| `Catalog.LiveDatabase.ApplyToCatalog` | src/storage/mod.rs:1771-1802 | Index creation and deletion (with the aliases that point at the index) and templates. |
| `Catalog.LiveDatabase.ApplyToRegistries` | src/storage/mod.rs:1803-1820 | Registry objects; a namespace that loses its last object disappears. |
| `Catalog.LiveDatabase.ApplyToIndexHeader` | src/storage/mod.rs:1821-1853 | Mappings, settings and aliases, with the index size recounted. |
| `Catalog.LiveDatabase.ApplyToDocuments` | src/storage/mod.rs:1854-1984 | Document mutations: the counter advances for all but renames, even when nothing else changes. |
| `Catalog.LiveDatabase.ChangeDocuments` | src/storage/mod.rs:1854-1984 | Updating the cached size step by step, with saturating subtraction, gives the index of the specification. |
| `Catalog.LiveDatabase.RecomputeStoreSizes` | src/storage/mod.rs:1487-1512 | Every cached size becomes the size counted from scratch; nothing else changes. |
| `Effects.StoringStores` | src/storage/mod.rs:1854-1956 | Indexing, creating and updating leave one document with what was sent, or for an update each field the patch has as in the patch and every other as before, from an empty object when there was no document, and the patch itself when one of the two is no object; its version is one above the old one, its number the next, its tombstone gone, every other id and index as before. |
| `Effects.DeletingRemoves` | src/storage/mod.rs:1957-1968 | A delete takes the document away, leaves a tombstone under the next number, and touches nothing else. |
| `Effects.RenamingMoves` | src/storage/mod.rs:1969-1984 | A rename moves a document with all it has but its id, and takes no number. |
| `Effects.OtherwiseNothing` | src/storage/mod.rs:1854-1984 | A document mutation that finds nothing to do changes nothing but the counter, and a rename not even that. |
| `Effects.HeaderMerges` | src/storage/mod.rs:1821-1832 | New settings or mappings: each field the patch has is as in the patch, every other as before; the documents and every other index stay. |
| `Effects.AliasesChange` | src/storage/mod.rs:1833-1853 | An alias is entered with its index and listed there, or struck out of both. |
| `Effects.CreatingCreates` | src/storage/mod.rs:1771-1779 | A new index is empty and has the settings and mappings it was created with; one that is there stays as it is. |
| `Effects.DeletingIndexDeletes` | src/storage/mod.rs:1780-1786 | An index goes with exactly the aliases that point at it. |
| `Effects.TemplatesChange` | src/storage/mod.rs:1787-1802 | A template is put as sent or taken away, every other stays. |
| `Effects.RegistriesChange` | src/storage/mod.rs:1803-1820 | The object of one namespace and name is put or taken away, every other stays. |
| `Effects.NoEmptyNamespaces` | src/storage/mod.rs:1803-1820 | A namespace that loses its last object disappears. |
| `Costs.StoringCosts` | src/storage/mod.rs:1662-1679 | Storing a document raises the memory estimate by its id, its source and 64 bytes, less what its id held before, document or tombstone. |
| `Costs.DeletingCosts` | src/storage/mod.rs:1957-1968 | A delete lowers the estimate by 48 bytes and the source: 64 go with the document, 16 come with the tombstone. |
| `Costs.CreatingCosts` | src/storage/mod.rs:1653-1660 | A new index costs its name, its settings and its mappings. |
| `Costs.HeaderCosts` | src/storage/mod.rs:1821-1832 | New settings or mappings cost the difference in weight. |
| `Costs.RenamingCosts` | src/storage/mod.rs:1969-1984 | A rename costs the difference of the two ids. |
| `Costs.AliasCosts` | src/storage/mod.rs:1557-1579 | An alias costs its name twice, in its entry and in its index, and the index name and body. |
| `Costs.TemplateCosts` | src/storage/mod.rs:1557-1579 | A template costs its name and its body. |
| `Costs.RegistryCosts` | src/storage/mod.rs:1557-1579 | A registry object costs its name and its body, and the first of a namespace the namespace too. |
| `Costs.EmptySums` | src/storage/mod.rs:1557-1579 | An empty database weighs 128 bytes. |
| `Admission.DocumentsAreCounted` | src/storage/mod.rs:1725-1733 | The count that the document limit is about is the number of documents stored, over all indexes. |
| `Admission.AdmittedExactlyWhen` | src/storage/mod.rs:1184-1419 | For each kind of mutation the exact condition on names, documents there, counts and the memory estimate afterwards under which it is admitted; it is then applied. |
| `Admission.BatchAdmittedExactlyWhen` | src/storage/mod.rs:591-624 | Of several mutations, that condition for each where its turn comes. |
| `Admission.RefusedWith` | src/storage/mod.rs:1184-1419 | What refuses it: 404 for what is not there, 409 for a document in the way, 400 for a name, 429 for a limit, and which of these when several apply. |
| `SizeCache.StoringKeepsSlack` | src/storage/mod.rs:1854-1956 | Storing a document subtracts no more than is there, so no subtraction saturates, and leaves the distance between cached and exact size as it was. |
| `SizeCache.DeletingAddsOverwrittenTombstone` | src/storage/mod.rs:1957-1968 | A delete raises that distance by exactly the tombstone it overwrites. |
| `SizeCache.ExactAfterExactlyWhen` | src/storage/mod.rs:1854-1984 | An exact cache stays exact under a mutation if and only if the mutation is not the delete of a document whose id is also tombstoned. |
| `SizeCache.MutationKeepsCovered` | src/storage/mod.rs:1769-1986 | No mutation makes a cached size smaller than the size counted from scratch. |
| `SizeCache.CacheNeverUndercounts` | src/storage/mod.rs:1509-1511 | In every run the cached size is at least the exact one. |
| `SizeCache.CacheIsExact` | src/storage/mod.rs:1681-1705 | In every run that renames no document onto a tombstoned id, the two are equal; the step-wise if-and-only-if is `ExactAfterExactlyWhen`. |
| `SizeCache.RenameOntoTombstoneOvercounts` | src/storage/mod.rs:1969-1984 | A concrete run (delete, rename onto the dead id, delete) after which the cache is too high. |
| `SizeCache.FastCheckOfDocumentMutation` | src/storage/mod.rs:1587-1660 | The predicted size change of a document mutation is the change applying it makes. |
| `SizeCache.FastCheckIsExact` | src/storage/mod.rs:1408-1419 | Whenever the prediction answers, it is the estimate of the database with the mutation applied. |
| `SizeCache.SameContentNormalizes` | src/storage/mod.rs:1487-1493 | Databases that differ only in cached sizes are equal once the sizes are recounted. |
| `CatalogInvariant.NamesStayAgreed` | src/storage/mod.rs:1769-1986 | Map keys stay equal to the stored names and ids, versions stay at least 1. |
| `CatalogInvariant.AliasesKeepTargets` | src/storage/mod.rs:1780-1853 | Every alias keeps an existing target index that lists it. |
| `CatalogInvariant.SeqNosStayDistinct` | src/storage/mod.rs:1854-1984 | The sequence numbers of all documents and tombstones, across all indexes, stay pairwise distinct and at most the counter. |
| `CatalogInvariant.LimitsStayKept` | src/storage/mod.rs:1184-1401 | A validated mutation keeps the index and document counts within their limits. |
| `CatalogInvariant.ValidatedMutationKeepsSound` | src/storage/mod.rs:1184-1401 | Every validated mutation keeps the whole invariant, and the limits if they held. |
| `CatalogInvariant.ReachableIsSound` | src/storage/mod.rs:1184-1401 | From an empty store, every database reached by validated mutations satisfies all of it. |
| `MutationLog.ReplayFrom` | src/storage/mutation_log.rs:218-280 | The replay loop computes the fold of the log lines: pending transactions, the high-water search, torn tails, the memory check after each transaction, and the failure on a line whose bytes are no UTF-8, wherever it stands. |
| `MutationLog.LoadInto` | src/storage/mutation_log.rs:282-320 | Loading the mutations of one transaction, with the limit checked after each. |
| `MutationLog.CommitLine` | src/storage/mutation_log.rs:323-336 | The first line that commits an id, or none. |
| `MutationLog.CompactAfter` | src/storage/mutation_log.rs:184-216 | The log is cut behind the first commit of the high-water id, with a marker in front, if there is such a commit, and otherwise left alone; it fails exactly when a line before that commit cannot be read. |
| `MutationLog.ReplayAfterMark` | src/storage/mutation_log.rs:172-182 | Replay after a high-water mark is replay from the beginning of what follows it. |
| `MutationLog.CompactionPreservesReplay` | src/storage/mutation_log.rs:184-216 | Replay after the mark on the uncut log, replay after the mark on the cut log, and replay of the cut log from its beginning agree, errors included. |
| `MutationLog.CompactionComposes` | src/storage/mutation_log.rs:357-389 | Cutting at one mark and later at a second leaves what cutting at the second leaves. |
| `MutationLog.ReplaySplits` | src/storage/mutation_log.rs:218-280 | A log replays as its first part and then its second, when no transaction straddles the cut. |
| `MutationLog.ReplayLoadsTail` | src/storage/mutation_log.rs:218-280 | What a replay from any start gives is the starting database with the committed transactions behind the mark applied in order, and it fails exactly when these do not fit the limit; for a log whose every line is whole. |
| `MutationLog.StraddlingTransactionIsLost` | src/storage/mutation_log.rs:218-280 | Without that condition it fails: a straddling transaction is in the whole log and in neither part. |
| `MutationLog.TornRecordIsIgnoredExactlyWhenDecodable` | src/storage/mutation_log.rs:218-280 | A half-written last record changes nothing, whatever the log and the start, if its bytes can be read, and makes the replay fail if they cannot. |
| `MutationLog.UndecodableFails` | src/storage/mutation_log.rs:233-238 | A line that cannot be read makes every load fail, from any start and wherever it stands. |
| `MutationLog.AppendStaysReadableExactlyWhenNotTorn` | src/storage/mutation_log.rs:131-150 | From any start, a log that loads still loads after the next record, of any kind, if and only if it did not end in a torn line and the record itself fits the limit; a begin record always fits. |
| `Writes.PreparedWriteResolves` | src/storage/mod.rs:184-197 | Once the prepared mutations are admitted, resolving the outcome never gives the internal error, and the version is 1 exactly when the document was not there before. |
| `Writes.PreparedShape` | src/storage/mod.rs:861-986 | A prepared write is one document mutation, or an index creation followed by one, for the index the name resolves to. |
| `Writes.AtomicBatchIsItsMutations` | src/storage/mod.rs:688-740 | The atomic path ends where applying its logged mutations ends, and they are all admitted. |
| `Writes.BulkStepKeepsOrStrays` | src/storage/mod.rs:643-653 | One bulk operation either logs all it applied or leaves exactly its created index behind. |
| `Writes.BulkMemoryIsItsLogExactlyWhen` | src/storage/mod.rs:626-686 | The database installed after a bulk batch is what replaying the logged mutations gives if and only if nothing was logged or no operation was refused after creating its index; a batch that logs nothing leaves memory as it was. |
| `Writes.LeavesStrayExactlyWhen` | src/storage/mod.rs:643-653 | An operation leaves such an index behind if and only if it comes with an index creation that is admitted and its document then finds the document limit used up or the memory too small. |
| `Writes.BulkIsAdmitted` | src/storage/mod.rs:626-686 | A bulk batch without such an operation is one admitted run of mutations. |
| `Writes.FullStoreStrays` | src/storage/mod.rs:643-653 | One case of it: an index or create operation on a new name whose creation is admitted, while the document limit is used up. |
| `Writes.FullStoreDiverges` | src/storage/mod.rs:643-653 | A logged rewrite followed by such an operation: the installed database holds an index the log has never heard of. |
| `Writes.StrayWriteIsLost` | src/storage/mod.rs:1854-1984 | A write to an index that memory has and the replay lacks is admitted and stored in memory, and its replay changes no index. |
| `Writes.DivergedBatchLosesWrites` | src/storage/mod.rs:626-686 | After a batch that left a stray, such a write is in memory and in the log, and not in what the log replays to. |
| `Writes.BulkKeepsLimits` | src/storage/mod.rs:626-686 | Strays included, a bulk batch keeps the index and document limits. |
| `Operations.ResolvesExactlyWhen` | src/storage/mod.rs:1453-1457 | A name leads to the index of that name, or else to the one its alias entry names, or nowhere. |
| `Operations.PatternMatchesExactlyWhen` | src/storage/mod.rs:1533-1556 | A template pattern covers exactly the name it is, or the names with its front at the front and its back at the end, around its first star. |
| `Operations.TemplatePatternDecidesExactlyWhen` | src/storage/mod.rs:1533-1556 | With one star that decides the language of the pattern if and only if no end of the front is a front of the back. |
| `Operations.TemplateDecides` | src/storage/mod.rs:1514-1531 | A new index gets settings and mappings from the first template, by name, with a pattern that covers it, and empty objects from none. |
| `Operations.PreparedBecomes` | src/storage/mod.rs:861-986 | What each operation becomes: which document mutation, in which index, with what source, behind which index creation. |
| `Operations.BecomesIsPrepared` | src/storage/mod.rs:861-986 | And whatever it can become, it does become. |
| `Operations.UnpreparedIs404` | src/storage/mod.rs:861-986 | What cannot become anything is a 404: of the index when the name leads nowhere, else of the document. |
| `Operations.AtomicStepExactlyWhen` | src/storage/mod.rs:688-740 | An operation of an atomic batch goes through exactly when everything it becomes is acceptable where its turn comes. |
| `Operations.BulkStepExactlyWhen` | src/storage/mod.rs:643-653 | An operation of a bulk batch is answered with success exactly then. |
| `Operations.AtomicBatchExactlyWhen` | src/storage/mod.rs:688-740 | An atomic batch goes through exactly when every operation is accepted after those before it. |
| `Operations.BulkBatchExactlyWhen` | src/storage/mod.rs:626-686 | A bulk batch answers each operation so. |
| `Operations.AcceptedOperationStores` | src/storage/mod.rs:688-740 | An operation that goes through leaves under its id what it is for: what was sent, the old source with the sent fields over it, the upsert document, or nothing after a delete; every other id of every index is as before. |
| `Operations.AcceptedOperationAnswers` | src/storage/mod.rs:184-197 | Its answer is the document as it is then stored, or for a delete whether there was one. |
| `Operations.BulkStepStores` | src/storage/mod.rs:643-653 | In a bulk batch an accepted operation does the same, and a refused one leaves every stored document as it was. |
| `Durability.BeginKeepsInv` | src/storage/mod.rs:742-770 | The begin record, before or after a crash, leaves the recovery invariant. |
| `Durability.CommitKeepsInv` | src/storage/mod.rs:742-770 | So does the commit record, which adds exactly its transaction to what is recovered. |
| `Durability.WriteFileKeepsInv` | src/storage/mod.rs:824-836 | A snapshot file written under a new generation number is not yet visible to recovery. That one write may be taken as one step is `AtomicFile.OnlyRenameShows`. |
| `Durability.WriteMetadataKeepsInv` | src/storage/mod.rs:824-859 | Switching the metadata to the new file, with the log still uncut, recovers the same state. |
| `Durability.CompactLogKeepsInv` | src/storage/mod.rs:824-859 | Cutting the log while the metadata still says it is uncut recovers the same state. |
| `Durability.WriteCompactedMetadataKeepsInv` | src/storage/mod.rs:824-859 | So does recording that the log is cut. |
| `Durability.RestartKeepsInv` | src/storage/mod.rs:519-571 | Opening after a crash succeeds, unless the recovered database is empty and the limit is below the 128 bytes of an empty estimate, and starts from the recovered state. |
| `Durability.StepKeepsInv` | src/storage/mod.rs:742-859 | Every step of commits, snapshots, crashes and restarts keeps the invariant, but for a snapshot failure between its metadata and its end, which `Recovery` takes up. |
| `Durability.TornWriteRecoversExactlyWhenDecodable` | src/storage/mod.rs:742-770 | In a state that has the invariant, after a crash in the middle of writing a record the load succeeds if and only if what was written can be read, and then half a record and a begin without its newline change nothing and a whole commit without its newline commits. |
| `Durability.NextSnapshotOverwritesExactlyWhenLate` | src/storage/mod.rs:808-821 | After a snapshot attempt that failed without a crash, the next one overwrites the file the metadata names if and only if the failure came after the metadata was written. |
| `Durability.DirtyWritesCountCommitted` | src/storage/mod.rs:778-807 | The counter that decides on a snapshot counts the mutations committed since the last one or the start. |
| `Recovery.LateFailureCaughtUp` | src/storage/mod.rs:808-821 | After a late snapshot failure the invariant would hold had the attempt counted its generation: only the counter is behind. |
| `Recovery.RenewalKeepsInv` | src/storage/mod.rs:824-859 | New metadata restores the invariant in full, even after the file the old metadata named was overwritten. |
| `Recovery.RecoversExactlyWhatWasCommitted` | src/storage/mod.rs:341-404 | For every run of commits, snapshots, failures at any step, crashes and restarts in which no process starts from a spoiled disk (one whose metadata names a file overwritten since): memory is the fold, in commit order, of the transactions whose commit record was written, a sound database within its limits; and unless the disk is spoiled now, loading gives that fold: equal up to cached sizes always, fully equal when no rename hit a tombstoned id. |
| `Recovery.SpoiledDiskLoadsAgain` | src/storage/mod.rs:808-859 | And what a load gives while the disk is spoiled: the committed mutations up to some point k, and on top of them those from an earlier point j on, so that at least one is applied twice and the sequence counter runs ahead by exactly as much as those between j and k took. |
| `Recovery.SpoiledDiskDoesNotRecover` | src/storage/mod.rs:808-859 | So a spoiled disk does not load what was committed, unless none of the repeated mutations takes a sequence number. |
| `Recovery.CounterCounts` | src/storage/mod.rs:1769-1986 | The counter of any run of mutations is the start plus one for each that takes a number. |
| `Recovery.RecoveredIsSound` | src/storage/mod.rs:519-571 | From every reachable disk that is not spoiled, what is loaded is a sound database within its limits that covers its sizes. |
| `Recovery.TornWriteIsRecoveredExactlyWhenDecodable` | src/storage/mod.rs:742-770 | The same in every run on a disk that is not spoiled. |
| `LogText.CutIsDecodableExactlyAtBoundary` | src/storage/mutation_log.rs:233-238 | The first bytes of a UTF-8 text are UTF-8 if and only if the cut falls between two characters. |
| `LogText.CutInsideCharacter` | src/storage/mutation_log.rs:139-149 | Every text with a character beyond ASCII has a cut that does not. |
| `LogText.CutRecordRecoversExactlyAtBoundary` | src/storage/mutation_log.rs:139-149 | A record cut short by a crash after any of its bytes leaves a log that loads if and only if the cut falls between two characters, in every run on a disk that is not spoiled; it then loads what was committed, with the transaction only if the record is a whole commit. |
| `TornTail.UnloadableFails` | src/storage/mutation_log.rs:218-280 | A disk does not load when a line cannot be read, or is broken and the mark the replay waits for does not stand behind it. |
| `TornTail.LoadFollows` | src/storage/mutation_log.rs:218-280 | Otherwise a disk whose log holds broken lines loads what a clean log in their place would. |
| `TornTail.RunFollows` | src/storage/mutation_log.rs:139-149 | Every run in which appends are cut short, in a process that goes on or stops, and later records run into what they left, is followed by a clean run that ends in the same state but for the log. |
| `TornTail.RecoversExactlyWhenLoadable` | src/storage/mod.rs:742-770 | After every such run, the disk loads everything committed if and only if no line blocks it as in `UnloadableFails`, where no process starts from a spoiled disk or one that lost a commit to a later record; memory is that of the clean run always. |
| `TornTail.UnloadableExactlyWhen` | src/storage/mod.rs:742-859 | Event by event: a disk turns unloadable with an append onto a line that lacks its newline or with bytes that cannot be read, loadable again with new snapshot metadata unless there are such bytes, and in no other way. |
| `TornTail.FailedCommitReturns` | src/storage/mod.rs:758-768 | A transaction whose commit append failed after its last character was reported failed, and a load brings it back. |
| `TornTail.SwallowedCommitIsLost` | src/storage/mod.rs:742-770 | A commit without its newline counts at the next start, and a record that tears onto it takes it away again. |
| `AtomicFile.StepKeepsInv` | src/storage/snapshot.rs:78-96 | Every system call of a write, a stop after any of them and a loss of power keep it: under each directory state a power loss may bring back, the target is whole and flushed, no older than the last write that returned, and not the file being filled. |
| `AtomicFile.TargetIsWhole` | src/storage/snapshot.rs:78-96 | Wherever a run of writes is cut, the target is absent or holds the whole bytes of one of them, and once a write has returned it is there; under every directory state a power loss may bring back. |
| `AtomicFile.OnlyRenameShows` | src/storage/snapshot.rs:78-96 | To its readers a write is one step: of its calls only the rename changes what the target shows, and then it shows the whole payload. |
| `AtomicFile.ReturnedWriteSurvives` | src/storage/snapshot.rs:91-94 | A write that returned stays until the next rename, whatever writes stop, processes crash or power fails meanwhile. |
| `Counterexamples.RecoveryCanRepeatAWrite` | src/storage/mod.rs:808-821 | A whole run from an empty directory, with its limits and without any restart, after which loading holds one write more than was committed. |
| `Counterexamples.BulkCanDiverge` | src/storage/mod.rs:643-653 | A store reached from nothing by two admitted mutations, and a bulk batch after which memory is not the replay of the log. |
| `Store.Store.constructor` | src/storage/mod.rs:519-571 | A new store has the initial machine state, reachable, sound and within its limits. |
| `Store.Store.Create` | src/storage/mod.rs:519-571 | An empty data directory opens, unless not even an empty database fits the memory limit; a store in memory only always does. |
| `Store.Store.Recover` | src/storage/mod.rs:519-571 | From what a load found on a reachable disk that is not spoiled, opening is the restart step of the machine, gives a valid store and keeps it reachable. |
| `Store.Store.LoadDurableState` | src/storage/mod.rs:341-404 | The loader, with snapshot file choice, size recount, memory check and replay start, computes the load function recovery is proved about. |
| `Store.Store.OpenDirectory` | src/storage/mod.rs:341-571 | Loading, checking the limit and repairing: opening fails only when the load does not fit or the log cannot be written, and otherwise the store is a restart followed by a run of the machine, with every encoded id repaired that is owed it. |
| `Store.Store.RepairEncodedIds` | src/storage/mod.rs:406-433 | The repair on opening logs one transaction that renames exactly the ids owed a rename, or nothing; it fails only when the log cannot be written, and then memory is unchanged. |
| `Store.Store.AppendCommittedTransaction` | src/storage/mod.rs:742-770 | Begin record, memory swap, commit record; a failed commit puts memory back and the log then holds only a begin without effect. |
| `Store.Store.WriteSnapshotGeneration` | src/storage/mod.rs:824-859 | The five file writes, in order, up to the first that fails, leave the disk that the snapshot steps of the machine leave, and the answer says whether all were made. |
| `Store.Store.AfterCommittedTransaction` | src/storage/mod.rs:778-822 | A snapshot is attempted exactly when it is due; after success or failure at any write, the whole state is what the machine says. |
| `Store.Store.CommitMutations` | src/storage/mod.rs:591-624 | All mutations are admitted, applied and logged as one transaction, or nothing changes in memory, disk or history; success exactly when each is acceptable where its turn comes and both records are written. |
| `Store.Store.ApplyDynamicWriteOperationsAtomic` | src/storage/mod.rs:688-740 | The batch built from the current database is applied whole or not at all; it can be planned exactly when the builder answers and every operation is accepted after those before it, the outcomes are those of the specification, what the builder says besides is handed through, and every call is a run of the machine. |
| `Store.Store.ApplyWriteOperations` | src/storage/mod.rs:626-686 | The bulk path computes the specified batch result, answers each operation with success exactly when it is accepted, logs exactly the accepted mutations, and is a run of the machine when nothing was logged or nothing strayed. |
| `Store.Store.ValidateMemoryAfterMutation` | src/storage/mod.rs:1408-1419 | The fast check gives the verdict of the simple one. |
| `Store.LoggedIsRun` | src/storage/mod.rs:742-859 | A logged commit is a run of the machine, whether both records are written, only the begin, or neither; so it may crash wherever the machine may. |
| `Store.AttemptPerforms` | src/storage/mod.rs:824-859 | A snapshot attempt, complete or failed at any write, is a run of the machine, step by step, each step a point where a crash may strike. |
| `Store.FinishedSnapshotLeaves` | src/storage/mod.rs:824-859 | An attempt that goes through leaves the database in the file of the next generation and in the plain one, metadata that name that file and the last transaction, and the log cut behind the first commit of that transaction exactly when it is in it, as the metadata then say; no other file changes. |
| `Store.PerformingStaysReached` | src/storage/mod.rs:742-859 | What a method performs from a reachable state ends in a reachable state, so every recovery theorem applies after any sequence of calls. |
| `Store.RepairFits` | src/storage/mod.rs:406-433 | The repair on opening is admitted and loads within the limit. |
| `Repair.PlanIndex` | src/storage/mod.rs:435-462 | The plan for one index: distinct old ids that are there, distinct new ids that are not, each the decoded form of its old id; an id is planned if and only if it is the first by order to decode to a free saved-object id. |
| `Repair.PlanRepairs` | src/storage/mod.rs:435-462 | The plan over all indexes renames exactly the ids so chosen in dashboards indexes, and nothing else. |
| `Repair.RepairMovesExactly` | src/storage/mod.rs:435-462 | Under that plan a document moves if and only if it is owed a rename, and then to its decoded id. |
| `Repair.RenameMeets` | src/storage/mod.rs:1969-1984 | Each planned rename, where its turn comes, finds its old id present and its new id absent. |
| `Repair.PlanConserves` | src/storage/mod.rs:406-433 | Applied in order, the plan passes validation step by step and keeps every document of every index exactly once, with its source, version and sequence number, under its new id; unplanned documents and everything else are untouched. |
| `Repair.RepairIsAdmitted` | src/storage/mod.rs:406-433 | When decoding never lengthens an id, the memory limit cannot refuse the repair. |
| `Repair.DashboardsIndexesAre` | src/storage/mod.rs:464-471 | The dashboards indexes are `.kibana` and `.opensearch_dashboards`, alone or followed by a dash or an underscore and anything. |
| `Repair.SavedObjectIdsAre` | src/storage/mod.rs:473-477 | A saved-object id is a type without a colon, a colon and something, neither empty. |
| `Glob.WildcardMatches` | src/api/mod.rs:4042-4066 | The loop over the star-separated parts computes the greedy matcher. |
| `Glob.LanguageByParts` | src/search/evaluator.rs:527-553 | The language of a pattern, defined character by character, is: first part in front, last part behind, the rest in order between. |
| `Glob.LeftmostIsBest` | src/search/evaluator.rs:527-553 | If the parts fit anywhere, taking each leftmost succeeds and ends no later. |
| `Glob.GreedyIsSound` | src/search/evaluator.rs:527-553 | A match is in the language of the pattern. |
| `Glob.GreedyMisses` | src/api/mod.rs:4042-4066 | For a pattern with a star and something after its last star there is a value in the language that the matcher refuses. |
| `Glob.GreedyDecidesExactlyWhen` | src/api/mod.rs:4042-4066 | The matcher decides the language of its pattern if and only if the pattern has no star or ends in one. |
| `ByQuery.ResolveIndexPatterns` | src/api/mod.rs:3992-4024 | The names a request selects, ascending and each once: every index when the request is empty or holds `_all` or `*`; otherwise an index exactly when a plain name is it, or is no index but an alias it lists, or one no index lists whose entry names it, or a star pattern matches it. It fails exactly when a plain name selects nothing. |
| `ByQuery.ResolvedAreSelected` | src/storage/mod.rs:1459-1478 | That of one plain name. |
| `ByQuery.SelectedExactlyWhen` | src/api/mod.rs:3992-4024 | That of a whole request, and when it is refused with 404. |
| `ByQuery.MatchedOkExactlyWhen` | src/api/mod.rs:3191-3215 | Matching goes through exactly when every part of the request selects something and the query answers for every document selected. |
| `ByQuery.MatchedExactlyWhenAsked` | src/api/mod.rs:3191-3215 | A document is among the matches exactly when its index is selected and the query says yes to it. |
| `ByQuery.MatchedInAddressOrder` | src/api/mod.rs:3191-3215 | The matches come index by index and id by id. |
| `ByQuery.MatchingDocuments` | src/api/mod.rs:3191-3215 | The loops compute the specified list of matches, or the first error. |
| `ByQuery.MatchedIsEvery` | src/api/mod.rs:3191-3215 | That list holds every document of the selected indexes, said by membership, that the query matches, each once, and no other. |
| `ByQuery.CountOutcomes` | src/api/mod.rs:3217-3246 | The counters of a response are the tally of the write outcomes, in one loop. |
| `ByQuery.TallyCounts` | src/api/mod.rs:3217-3246 | The tally: how many outcomes are documents of version 1, documents of a later version, and deletes that found something. |
| `ByQuery.TouchedOnce` | src/storage/mod.rs:688-740 | Writes planned for distinct documents that are there all report what they found, each leaves stored what it asks, and nothing else changes. |
| `ByQuery.PlanDelete` | src/api/mod.rs:2713-2758 | One delete for each match. |
| `ByQuery.DeleteByQueryConserves` | src/api/mod.rs:2713-2758 | deleted = total, and nothing created or updated. |
| `ByQuery.DeleteByQueryRemovesExactly` | src/api/mod.rs:2713-2758 | Every match is gone afterwards, and every other id of every index has what it had. |
| `ByQuery.DeletesGoThroughExactlyWhen` | src/storage/mod.rs:1408-1419 | The deletes of distinct stored documents all go through exactly when the estimate after the first is within the limit: no more than 48 bytes and its source above it before. |
| `ByQuery.TargetsGoThroughExactlyWhen` | src/storage/mod.rs:688-740 | Deletes and rewrites of distinct stored documents go through exactly when each fits the memory limit after those before it. |
| `ByQuery.DeleteByQuery` | src/api/mod.rs:2713-2758 | The request on the store, from matching to response: a document is deleted exactly when its index is selected and the query matches it, deleted = total = their number, nothing else changes; or nothing changes at all. Success exactly when names and query resolve, the first delete fits and the log is written. |
| `ByQuery.RemoveListValueAnswers` | src/api/mod.rs:3365-3400 | The list script fails exactly on what is no object or has something else than a list there; it leaves a document alone exactly when the value is not listed, deletes it exactly when nothing would be left, and otherwise removes exactly that value, the others keeping their order and number. |
| `ByQuery.PlanUpdate` | src/api/mod.rs:2760-2832 | The loop computes the plan: one write for each match that the script changes, in order, and a count of those it does not. |
| `ByQuery.UpdateByQueryConserves` | src/api/mod.rs:2760-2832 | updated + deleted + noops = total, and nothing created. |
| `ByQuery.UpdateByQueryStoresAnswers` | src/api/mod.rs:2760-2832 | Afterwards every match has what the script answered for it, deletion included, and every other id has what it had. |
| `ByQuery.UpdateByQuery` | src/api/mod.rs:2760-2832 | The request on the store: updated + deleted + noops = total = the number of matches, these hold the answers of the script and nothing else changed, or nothing changed. Success exactly when names, query and script answer, each write fits after those before it, and the log is written if there is anything to write. |
| `ByQuery.UpdatePlanExactlyWhen` | src/api/mod.rs:2760-2832 | The plan fails exactly when the script fails on some match. |
| `ByQuery.PlanReindex` | src/api/mod.rs:2834-2948 | The loop, with its set of planned ids, computes the plan that asks of each document whether the destination or an earlier document has its id. |
| `ByQuery.ReindexPlanIsTheDocuments` | src/api/mod.rs:2834-2948 | Every write of that plan carries the new id and the source of one document, every document whose id is not taken has its write, writes and conflicts add up to the documents, and conflicts are counted only on request. |
| `ByQuery.ReindexIndexConserves` | src/api/mod.rs:2834-2948 | With op_type index: created + updated = total. |
| `ByQuery.PlannedCreatesNeverConflict` | src/api/mod.rs:2834-2948 | No planned create is refused with a version conflict when the batch is applied. |
| `ByQuery.ReindexCreateConserves` | src/api/mod.rs:2834-2948 | With op_type create and conflicts passed over: created + version_conflicts = total. |
| `ByQuery.LastWritesAreStored` | src/storage/mod.rs:688-740 | Writes of whole documents to one name leave the last one for each id in the index the name leads to, created if need be, and change no other id and no other index. |
| `ByQuery.ReindexStoresDecidingDocuments` | src/api/mod.rs:2834-2948 | Afterwards each id asked for holds the last document that asked for it (op_type index) or the first, if the destination did not have it (create); everything else is as before. |
| `ByQuery.Reindex` | src/api/mod.rs:2834-2948 | The request on the store: created + updated + version_conflicts = total = the number of matches, the database is the planned batch applied and the destination holds the deciding documents, or nothing changed. Success exactly when names and query resolve, every new id can be made and is free where it must be, each write is accepted after those before it, and the log is written if there is anything to write. |
| `ByQuery.ReindexPlanExactlyWhen` | src/api/mod.rs:2834-2948 | The plan fails exactly when some new id cannot be made, or a create meets a taken id and conflicts are not passed over. |
| `Search.TieBreakerExactlyWhen` | src/search/evaluator.rs:1093-1120 | A request sorts on the document address if and only if it is a point-in-time request, or it sorts, and not on the id without the address; the requested clauses come first. |
| `Search.MixedTypesCycle` | src/search/evaluator.rs:1233-1256 | Numbers beside strings are in no order: 10, the string 5 and 9 are each below the next. |
| `Search.ValueOrder` | src/search/evaluator.rs:1233-1256 | Where no number stands beside a string the comparison is a total preorder; numbers beside booleans, arrays and objects included. |
| `Search.OrdersExactlyWhen` | src/search/evaluator.rs:1233-1256 | All values of a set of kinds are totally preordered if and only if the set does not hold both numbers and strings. |
| `Search.NumbersComeFirst` | src/search/evaluator.rs:1233-1256 | A number is below every boolean, array and object, by the first character of what is printed. |
| `Search.KeyOrder` | src/search/evaluator.rs:1151-1168 | So is the comparison clause by clause, ascending or descending. |
| `Search.SortHitsSorts` | src/search/evaluator.rs:1144-1149 | Sorting returns the same hits in order. |
| `Search.SortHitsIsStable` | src/search/evaluator.rs:1144-1149 | Hits that compare the same keep their order. |
| `Search.IsAfterMeansAbove` | src/search/evaluator.rs:1190-1213 | The cursor test holds exactly when the hit compares above the cursor. |
| `Search.ExpandIndices` | src/search/evaluator.rs:102-126 | The searched names, ascending and each once: by membership what a by-query request would select, but that star patterns match after case folding and that names nobody has are passed over. |
| `Search.Search` | src/search/evaluator.rs:18-93 | The search loops compute: all matches counted, sorted, those up to the cursor dropped, the window cut; the first query error wins, a malformed cursor before it. |
| `Search.SearchIndex` | src/search/evaluator.rs:39-51 | The inner loop over one index, with the page that is kept when nothing needs sorting. |
| `Search.FastPathIsExact` | src/search/evaluator.rs:32-55 | Without sort and aggregation, the page collected on the way is the page cut from all matches. |
| `Search.SearchedExactlyWhen` | src/search/evaluator.rs:102-126 | That of a whole request. |
| `JsonText.TextReads` | src/search/evaluator.rs:1248-1256 | The compact text of a value, escapes and nesting included, is read back by a reader written without it, whatever follows. |
| `JsonText.TextTellsApart` | src/search/evaluator.rs:1248-1256 | So two values print the same only if they are the same. |
| `JsonText.TiesExactlyWhen` | src/search/evaluator.rs:1233-1256 | Two sort values tie if and only if they are numbers of the same value, or otherwise the same value, or one is a string that spells the other. |
| `SortedSearch.ParsedExactlyWhen` | src/search/evaluator.rs:1123-1142 | What one part of a sort asks for: a name sorts upwards, `_score` downwards; an object names its first field, downwards exactly when its `order` is the text desc, or it gives none and the field is the score; anything else asks for nothing. |
| `SortedSearch.PathReads` | src/search/evaluator.rs:1170-1188 | The value sorted by: key by key along the dots, from the stored source. |
| `SortedSearch.FindsExactlyTheWanted` | src/search/evaluator.rs:18-55 | The matches are the stored documents of the searched indexes to which the query says yes, each once. |
| `SortedSearch.TotalCountsTheWanted` | src/search/evaluator.rs:18-93 | The total is their number, whatever part is shown. |
| `SortedSearch.PageIsInOrder` | src/search/evaluator.rs:18-93 | For any sort in a request: without a cursor, the page is the slice asked for of a list of all of them, each once, in which every hit stands before the later ones in each part of the sort that the earlier parts leave open, by values read from the stored source; with a cursor it is cut from those past it. Where no number stands beside a string. |
| `SortedSearch.FindsInAddressOrder` | src/search/evaluator.rs:18-55 | The matches are found index by index and id by id. |
| `SortedSearch.UnsortedPageIsInAddressOrder` | src/search/evaluator.rs:18-93 | Without a sort a page is a slice of all of them in that order. |
| `SortedSearch.RefusedExactlyWhen` | src/search/evaluator.rs:18-93 | A search fails exactly when its cursor has not as many values as the sort has parts, the address included, or the query fails on a stored document of a searched index. |
| `SortedSearch.OneFieldSorts` | src/search/evaluator.rs:1123-1168 | Sorted on one field, by name, by object or by either in an array: ascending values with nulls first, or descending with nulls last. |
| `Paging.PastMeansBelow` | src/search/evaluator.rs:1190-1213 | In sorted hits, one is past the cursor of another exactly when that one compares below it. |
| `Paging.CursorResumesExactlyWhen` | src/search/evaluator.rs:53-60 | The cursor of a hit continues right behind it if and only if the next hit does not tie with it. |
| `Paging.CrawlDeliversExactlyWhen` | src/search/evaluator.rs:53-60 | Page after page, a crawl delivers the sorted list in order if and only if no two hits across a page boundary tie. |
| `Paging.RequestDeliversExactlyWhen` | src/search/evaluator.rs:1093-1246 | The same of real requests against a database: their pages deliver the sorted matches in order if and only if no two of them across a page boundary tie. |
| `Paging.IdSortLosesHits` | src/search/evaluator.rs:1112-1120 | A request sorted on the id alone gets no tiebreaker: over two indexes that hold the same id both documents match, and however often the client asks on, it gets only one. |
| `Paging.AddressIsUnique` | src/search/evaluator.rs:1222-1231 | The address joined by U+001F tells index and id apart, for index names without that character. |
| `Paging.TieMeansSameAddress` | src/search/evaluator.rs:1222-1231 | With the address among the clauses only the same document ties. |
| `Paging.CandidatesAreDistinct` | src/search/evaluator.rs:39-51 | A search considers each document once. |
| `Paging.SearchAfterIsComplete` | src/search/evaluator.rs:1093-1246 | With the address among the clauses, repeated searches after the last hit return the consecutive slices of the whole sorted match list, each match exactly once, and empty pages from then on. |
| `Projection.IncludeFields` | src/search/evaluator.rs:1306-1314 | The inclusion loop computes the specified inclusion. |
| `Projection.ExcludeFields` | src/search/evaluator.rs:1335-1339 | The exclusion loop computes the specified exclusion. |
| `Projection.FilterSource` | src/search/evaluator.rs:1258-1304 | Each form of the filter parameter. |
| `Projection.InsertedAt` | src/search/evaluator.rs:1316-1333 | At every path: the inserted value at and under its own path, on the way the old object or a new one with the rest inserted, elsewhere the old tree. |
| `Projection.IncludedShowsExactly` | src/search/evaluator.rs:1306-1314 | At every path: the source where a requested field covers it, an object on the way to one, nothing anywhere else; whatever the order or overlap. |
| `Projection.PlainAgrees` | src/search/evaluator.rs:1341-1386 | Removal without stars and removal with stars do the same on a path without stars. |
| `Projection.RemovedAt` | src/search/evaluator.rs:1362-1386 | What one removal, stars included, leaves at every path. |
| `Projection.ExcludedLeavesExactly` | src/search/evaluator.rs:1335-1386 | Exactly the paths some exclusion names are gone; values that are no objects, and paths no exclusion reaches, are unchanged. |
| `Projection.FilterShowsExactly` | src/search/evaluator.rs:1258-1304 | Includes and excludes together: the filtered source has exactly the paths the source has that are selected and not hidden. |
| `Projection.FilterShowsWhatItSays` | src/search/evaluator.rs:1258-1304 | Every form of filter (none, true, false, a name, a list, an object with includes or include, excludes or exclude) shows below the root exactly the paths of the source it asks for. |
| `ScrollRuntime.NextIdIsFresh` | src/runtime.rs:334-337 | The next id was never given out before. |
| `ScrollRuntime.Oldest` | src/runtime.rs:394-401 | The cursor evicted next is a least recently used one. |
| `ScrollRuntime.EvictionMakesRoom` | src/runtime.rs:389-404 | After eviction a cursor that fits the budget alone fits beside the rest. |
| `ScrollRuntime.EvictionTakesOldest` | src/runtime.rs:389-404 | Nothing evicted was used later than anything kept. |
| `ScrollRuntime.EvictionIsMinimal` | src/runtime.rs:389-404 | Giving back the last cursor evicted makes 32 beside the new one, or breaks the byte budget. |
| `ScrollRuntime.NothingIsEvictedExactlyWhen` | src/runtime.rs:389-404 | Nothing is evicted if and only if fewer than 32 cursors live and the new bytes fit beside theirs. |
| `ScrollRuntime.RuntimeState.EvictScrollsForBudget` | src/runtime.rs:389-404 | The eviction loop ends, in the specified state. |
| `ScrollRuntime.RuntimeState.CreateScroll` | src/runtime.rs:96-144 | Refused exactly when the cursor alone is over the budget, so the second rejection is unreachable; otherwise the first hits, at most a batch of them, are returned with the total and the best score, and the state is the specified one. |
| `ScrollRuntime.RuntimeState.NextScroll` | src/runtime.rs:153-189 | The next page, or the terminal empty page and the end of the cursor. |
| `ScrollRuntime.RuntimeState.ClearScrolls` | src/runtime.rs:191-198 | Removes the named cursors and counts those that were there. |
| `ScrollRuntime.RuntimeState.CreatePit` | src/runtime.rs:200-247 | Accepted exactly when fewer than 16 contexts live and the bytes fit beside theirs, within the limit given and within 64 MiB. |
| `ScrollRuntime.RuntimeState.ListPits` | src/runtime.rs:249-261 | The live contexts in order of id. |
| `ScrollRuntime.RuntimeState.DeletePits` | src/runtime.rs:263-276 | Every id is answered as deleted, whether it was there or not. |
| `ScrollRuntime.RuntimeState.DeleteAllPits` | src/runtime.rs:278-292 | One answer for each live context, and none left. |
| `ScrollRuntime.RuntimeState.PitDatabase` | src/runtime.rs:294-308 | The stored database of a live context, its life extended on request. |
| `ScrollRuntime.ScrollsLiveFifteenMinutes` | src/runtime.rs:374-387 | A scroll answers exactly while less than 900000 ms have passed since its last use, and a purge keeps exactly such scrolls. |
| `ScrollRuntime.PitsLiveUntilTheyExpire` | src/runtime.rs:294-308 | A point in time lives exactly until it expires; a use with a new life sets that and nothing else. |
| `ScrollRuntime.CursorWeighs` | src/runtime.rs:96-144 | A cursor weighs its hits, its total and its best score. |
| `ScrollDelivery.StepKeepsBudgets` | src/runtime.rs:96-308 | Every operation keeps both budgets and counts, the well-formed cursors and the issued ids. |
| `ScrollDelivery.ReachableKeepsBudgets` | src/runtime.rs:14-17 | In every state reachable from an empty runtime: at most 32 scrolls and 16 points in time, within their bytes, the latter within 64 MiB. |
| `ScrollDelivery.BatchesAreTheList` | src/runtime.rs:438-441 | The pages of a list join to the list; only the last is empty, none exceeds the batch, all but the last two are full. |
| `ScrollDelivery.CursorDelivers` | src/runtime.rs:153-189 | Successive requests to one cursor are answered with those pages, and the cursor ends with the empty one. |
| `ScrollDelivery.RunOnCursor` | src/runtime.rs:96-189 | Other requests in between, evictions of other cursors included, do not change that. |
| `ScrollDelivery.ScrollDelivers` | src/runtime.rs:96-189 | For a scroll that is not expired, evicted or cleared: the first page and all later pages join to the original hits, exactly one empty page ends them, and then the id is gone. |
| `ScrollDelivery.PromptIsUndisturbed` | src/runtime.rs:153-189 | A client that only asks on, each time within fifteen minutes, is never disturbed. |
| `ScrollDelivery.PitIsFrozen` | src/runtime.rs:294-308 | A point in time shows the database it was taken from as long as it lasts, and never comes back. |
| `Repository.Fnv1a64` | src/snapshots/service.rs:623-630 | The hash loop computes the left fold of xor and multiplication modulo 2^64. |
| `Repository.SnapshotRepository.WriteNextGeneration` | src/snapshots/service.rs:344-367 | The catalogue file first, then `index.latest`. |
| `Repository.SnapshotRepository.PutRepository` | src/snapshots/service.rs:68-96 | A new repository, or the old one with type and settings replaced and its snapshots kept. |
| `Repository.SnapshotRepository.CreateSnapshot` | src/snapshots/service.rs:185-246 | The blob unless one of its name is there, then the catalogue with the new manifest, then `index.latest`; missing repositories and taken names are refused. What blob and manifest hold is `SnapshotContents.CreatedSnapshotHoldsWhatWasChosen`. |
| `Repository.SnapshotRepository.DeleteSnapshot` | src/snapshots/service.rs:266-279 | A new generation without the named snapshots; an unknown name changes nothing. |
| `Repository.SnapshotRepository.CleanupRepository` | src/snapshots/service.rs:148-183 | Removes each unreferenced entry of the listing, in its order, and reports their number and bytes. |
| `RepositoryIntegrity.PlanIsHarmless` | src/snapshots/service.rs:68-279 | Each file operation of each request is harmless where its turn comes. |
| `RepositoryIntegrity.EventKeepsIntegrity` | src/snapshots/service.rs:344-367 | Completed or crashed anywhere, a request leaves the repository intact and its generation no lower. |
| `RepositoryIntegrity.RunKeepsIntegrity` | src/snapshots/service.rs:301-342 | Over all runs: a snapshot no request deletes stays listed with its manifest, and its blob keeps its bytes. |
| `RepositoryIntegrity.ReachableIsIntact` | src/snapshots/service.rs:301-367 | In every reachable state `index.latest` names a catalogue that is there, every manifest a blob that is there, and every blob hashes to its name. |
| `RepositoryIntegrity.CompletedMovesOn` | src/snapshots/service.rs:344-367 | A completed put, create or delete raises the generation by exactly one, a cleanup not at all. |
| `RepositoryIntegrity.SnapshotHoldsItsDatabaseExactlyWhen` | src/snapshots/service.rs:192-217 | The blob of a new snapshot holds the selected database if and only if no different blob with the same hash was there. |
| `RepositoryIntegrity.CleanupRemovesExactly` | src/snapshots/service.rs:148-183 | A cleanup leaves the referenced blobs, all of them, and nothing else. |
| `RepositoryIntegrity.SubsetIsSound` | src/snapshots/service.rs:584-592 | The part of a database put into a snapshot satisfies the catalogue invariant and the limits. |
| `SnapshotContents.SelectedIndices` | src/snapshots/service.rs:536-582 | The indexes a snapshot is asked for, ascending and each once: an index exactly when some part is `_all`, `all`, `*`, a pattern that covers it, or its name; it fails exactly when a plain part is no index, an alias included. |
| `SnapshotContents.CreatedSnapshotHoldsWhatWasChosen` | src/snapshots/service.rs:185-246 | A snapshot is accepted exactly when there is a repository and the name is free. Its blob then encodes a database that has an index exactly when it was chosen and is there, unchanged, an alias exactly when its index is kept, and the templates, registries and counter as they were; the manifest names the chosen indexes and counts them and their documents; every other snapshot is as before. |
| `SnapshotContents.PutChanges` | src/snapshots/service.rs:68-96 | Putting a repository never fails on an intact one: the type and settings are those sent, name, creation time and snapshots the old ones if there was one. |
| `SnapshotContents.DeleteChanges` | src/snapshots/service.rs:266-279 | A deletion is accepted exactly when it names snapshots and all are there; exactly these go. |
| `SnapshotContents.MissingIsRefused` | src/snapshots/service.rs:301-342 | Without a repository only a new one is taken, and the rest is a 404; where `index.latest` names no catalogue everything is refused. |
| `SnapshotContents.RequestRefusedWith` | src/snapshots/service.rs:185-279 | A taken snapshot name is a 409, no name at all a 400, an unknown one a 404. |
| `SnapshotContents.CleanupConserves` | src/snapshots/service.rs:148-183 | What a cleanup reports as deleted is what the directory has lost, in entries and in bytes. |
| `SnapshotContents.KnownHashes` | src/snapshots/service.rs:623-630 | The hash has the two published values of FNV-1a for nothing and for the letter a. |
| `SnapshotContents.BlobsAreNamedAfterTheirHash` | src/snapshots/service.rs:623-630 | A blob name is sixteen hexadecimal digits that stand for the hash, between `database-` and `.json`. |
| `SyncThread.StepKeepsInv` | src/storage/mod.rs:235-302 | Every step of writers, sync thread and drop keeps the account of what was marked. |
| `SyncThread.QuietMeansSynced` | src/storage/mod.rs:258-302 | In every interleaving, flag down and no sync under way means every marked append is on disk; failed delayed syncs included. |
| `SyncThread.DropLeavesNothing` | src/storage/mod.rs:245-256 | When the drop has returned and its own sync did not fail, every marked append is on disk. |
| `SyncThread.MarkedIsSynced` | src/storage/mod.rs:258-302 | From every state an interleaving reaches with the thread running and the store open: after eight steps of the thread in which the delay passes and no sync fails, between whatever else appends and marks, all that was marked before is on disk, and until then the thread can step. |
| `SyncThread.DropCanGetStuckExactlyWhen` | src/storage/mod.rs:245-280 | Called in any state, the drop can get stuck if and only if the thread, holding the lock, has at that moment decided to wait and does not wait yet. |
| `SyncThread.LostWakeup` | src/storage/mod.rs:245-273 | That interleaving exists: the drop sets and notifies without the lock. |

## Left out

- RecoversExactlyWhatWasCommitted: assumes that no process starts from a spoiled disk; what such a disk loads is `SpoiledDiskLoadsAgain`, but what later runs do to a store started from it is not followed.
- CompactionPreservesReplay: assumes that no marker for the same id stands before the commit that is cut at, as in every log the store writes.
- CacheIsExact: gives a condition on the run that is sufficient; the if-and-only-if is stated for one mutation (`ExactAfterExactlyWhen`).
- ApplyWriteOperations: that the batch is a run of the recovery machine is promised when nothing was logged or nothing strayed, because otherwise memory and log disagree.
- OpenDirectory: opens neither a spoiled disk nor one whose log ends in a torn line; what those load is `SpoiledDiskLoadsAgain` and `RecoversExactlyWhenLoadable`.
- AppendCommittedTransaction: a record is written whole or not at all; records cut short are followed by the machine of `TornTail` and not by the class.
- RecoversExactlyWhenLoadable: assumes that no process starts from a disk that is spoiled or has lost a commit to a later record; what the latter loads is `SwallowedCommitIsLost`.
- Changed limits: the index, document and memory limits stay the same over the restarts of a run, though a configuration may change them.
- RepairIsAdmitted: takes the percent-decoding of ids as any function that never lengthens one in bytes; the decoder itself is not part of this model.
- SearchAfterIsComplete: assumes that no number stands beside a string in a sort field and that index names hold no U+001F, because it fails otherwise.
- Search: for hits without an order (a number beside a string in a sort field) it fixes the order of an insertion sort, where the sort of the source promises none and may panic.
- ReachableKeepsBudgets: the budgets are fixed over a run, as they are between changes of the configuration.
- DropCanGetStuckExactlyWhen: wakeups nobody asked for, which the platform permits but does not promise, do not count as progress.
- PageIsInOrder: assumes, as `SearchAfterIsComplete` does, that no number stands beside a string in a part of the sort.
- HeaderCosts: with `RenamingCosts` and `AliasCosts`, for an index whose cached size is exact, because these recount it; by `CacheIsExact` that is every index unless a rename hit a tombstoned id.
- RefusedWith: for databases whose indexes all have a name that is not blank, as every admitted creation gives them; otherwise a write is also refused for that name.
- TiesExactlyWhen: for values whose numbers stand beside their own numerals, read by any function.
- MarkedIsSynced: for a thread that is running and a store that is open; what the drop does then is `DropLeavesNothing` and `DropCanGetStuckExactlyWhen`.
- Byte sizes: outside `LogText`, the lengths of UTF-8 strings and of serialised values and databases are abstract functions, so every size result holds for any of them; the bytes of a serialised database likewise.
- 64-bit counters: sequence numbers, generations, versions and byte sums are unbounded; only the blob hash wraps.
- Numbers: JSON numbers are reals beside their text; rounding and NaN in comparisons are left out.
- Errors: status and error type are modelled, message text is not.
- JSON text of log lines and files: a line is a record, blank, unparsable or no UTF-8; parsing what was written gives it back, and no proper part of a record parses.
- Power loss: what was written survives a process crash; only `SyncThread` and `AtomicFile` distinguish written from flushed, so a rename undone because its directory could not be flushed is not a step of `Durability`.
- Poisoned locks, file permissions, the data directory lock and directory creation.
- The statistics fields of snapshot metadata and of snapshot manifests beyond index and document counts.
- Query evaluation, aggregations and scoring: a query is any function from documents to yes, no or an error; the score is the constant the source returns.
- Case folding in the evaluator's matcher is any function on strings.
- The mutable cursor that walks a JSON tree when a path is inserted or removed is a recursion on values; sorting in place is a function on sequences.
- Parsing of names, scripts and repository settings in requests, and the response bodies.
- Removing a whole repository directory is one step, and the listing of several repositories is left out.
- Completed tasks kept in memory: stored once and read back.
- HTTP, TLS, authentication, configuration, route tables and the cat, stats and cluster endpoints.
