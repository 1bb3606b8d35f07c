/** Runs that start from nothing and break what one would expect, for any sizes of the
    values involved: the premises of the negative results can be met. */
module Counterexamples {
  import opened Prelude
  import opened Json
  import opened Catalog
  import opened CatalogInvariant
  import opened MutationLog
  import opened SizeCache
  import opened Writes
  import opened Durability
  import opened Recovery

  const NEW_LOGS := CreateIndex("logs", Null, Null)
  const ONE_ENTRY := IndexDocument("logs", "1", Null)

  function WithIndex(): Database { Applied(EMPTY_DATABASE, NEW_LOGS) }
  function WithEntry(): Database { Applied(WithIndex(), ONE_ENTRY) }
  function WithSecondVersion(): Database { Applied(WithEntry(), ONE_ENTRY) }

  /** Room for two indexes, one document, and every database named above. */
  function Limits(more: nat): StoreLimits {
    StoreLimits(2, 1,
      DatabaseBytes(WithIndex()) + DatabaseBytes(WithEntry()) + DatabaseBytes(WithSecondVersion()) + more)
  }

  lemma Admits(limits: StoreLimits, db: Database, m: Mutation)
    requires ValidateMutation(limits, db, m).Ok? && DatabaseBytes(Applied(db, m)) <= limits.memoryLimitBytes
    ensures AdmitOne(limits, db, m) == Ok(Applied(db, m))
  {
    hide ValidateMutation, DatabaseBytes, Applied;
  }

  lemma NotBlank()
    ensures !IsBlank("logs") && !IsBlank("other")
  {
    assert !IsWhitespace("logs"[0]) && !IsWhitespace("other"[0]);
  }

  lemma IndexIsThere()
    ensures WithIndex().indexes == map["logs" := NewIndex("logs", Null, Null)] && DocumentCount(WithIndex()) == 0
  {
    hide MapSum, NewIndex;
    CreatedIndexAddsNoDocuments(EMPTY_DATABASE, NEW_LOGS);
    EmptyCounts();
  }

  lemma EmptyCounts()
    ensures DocumentCount(EMPTY_DATABASE) == 0
  {
  }

  lemma IndexIsAdmitted(more: nat)
    ensures AdmitOne(Limits(more), EMPTY_DATABASE, NEW_LOGS) == Ok(WithIndex())
  {
    hide DatabaseBytes, Applied, IsBlank;
    NotBlank();
    Admits(Limits(more), EMPTY_DATABASE, NEW_LOGS);
  }

  lemma EntryIsAdmitted(more: nat)
    ensures AdmitOne(Limits(more), WithIndex(), ONE_ENTRY) == Ok(WithEntry())
  {
    hide DatabaseBytes, Applied, IsBlank, DocumentCount, WithIndex, IndexBytes;
    NotBlank();
    IndexIsThere();
    Admits(Limits(more), WithIndex(), ONE_ENTRY);
  }

  lemma OneDocument(indexes: map<string, IndexMetadata>, name: string)
    requires indexes.Keys == {name} && indexes[name].documents.Keys == {"1"}
    ensures MapSum(indexes, DocumentsIn) == 1
  {
    MapSumRemove(indexes, name, DocumentsIn);
    assert indexes - {name} == map[];
    assert |indexes[name].documents| == |indexes[name].documents.Keys|;
  }

  lemma EntryIsThere()
    ensures WithEntry().indexes.Keys == {"logs"} && WithEntry().indexes["logs"].name == "logs"
    ensures HasDocument(WithEntry(), "logs", "1") && DocumentCount(WithEntry()) == 1 && WithEntry().aliases == map[]
  {
    hide MapSum, IndexBytes, WithIndex, SaturatingSub, LiveBytes, DeadBytes, DocumentBytes, TemplatesAfter,
      RegistriesAfter;
    IndexIsThere();
    EntryAliases();
    OneDocument(WithEntry().indexes, "logs");
  }

  lemma EntryAliases()
    ensures WithEntry().aliases == map[]
  {
    hide IndexesAfter, TemplatesAfter, RegistriesAfter;
  }

  lemma SecondVersionIsAdmitted(more: nat)
    ensures AdmitOne(Limits(more), WithEntry(), ONE_ENTRY) == Ok(WithSecondVersion())
  {
    hide DatabaseBytes, Applied, IsBlank, DocumentCount, WithIndex, WithEntry, IndexBytes;
    NotBlank();
    EntryIsThere();
    Admits(Limits(more), WithEntry(), ONE_ENTRY);
  }

  // ----- Recovery after a late snapshot failure -----

  ghost predicate Diverged(limits: StoreLimits, m: Machine) {
    var loaded := Load(limits.memoryLimitBytes, m.disk);
    loaded.Ok? && Normalized(loaded.value) != Normalized(ApplyAll(EMPTY_DATABASE, m.committed))
  }

  /** One way for recovery to go wrong: a write, its snapshot file and a crash later, the load
      applies the write a second time on top of a snapshot that already holds it. */
  lemma LateFailureReplaysTwice(limits: StoreLimits, m: Machine, id: string, ms: seq<Mutation>)
    requires Inv(limits, m) && m.phase == Snapshotting(CompactLog)
    requires id !in m.usedIds && ms != [] && Admit(limits, m.memory, ms).Ok?
    requires Admit(limits, ApplyAll(m.memory, ms), ms).Ok?
    ensures
      var es := [SnapshotFails, BeginTransaction(id, ms), CommitTransaction(true), SnapshotWrite, Crash];
      Run(limits, m, es).Some?
      && var end := Run(limits, m, es).value;
         end.committed == m.committed + ms
         && Load(limits.memoryLimitBytes, end.disk) == Ok(ApplyAll(Normalized(ApplyAll(m.memory, ms)), ms))
  {
    hide ReplayLines, Covered, LoadSnapshot, DatabaseBytes, SmallerCache, Normalized, ApplyAll, Admit, LoadMutations,
      NextState;
    var limit := limits.memoryLimitBytes;
    var mark := m.flush.lastTransactionId.value;
    var lines := Lines(m.disk);
    var begin, commit := Line(Parsed(Begin(id, ms)), true), Line(Parsed(Commit(id)), true);
    var m1 := Step(limits, m, SnapshotFails).value;
    var m2 := Step(limits, m1, BeginTransaction(id, ms)).value;
    var m3 := Step(limits, m2, CommitTransaction(true)).value;
    var m4 := Step(limits, m3, SnapshotWrite).value;
    var m5 := Step(limits, m4, Crash).value;
    RunFive(limits, m, m1, m2, m3, m4, m5, id, ms);
    var db := ApplyAll(m.memory, ms);
    var base := Normalized(db);
    var end := lines + [begin] + [commit];
    assert Lines(m5.disk) == end;
    SmallerThanItself(m.memory);
    AdmittedLoads(limits, m.memory, m.memory, ms);
    SmallerCacheRun(m.memory, m.memory, ms);
    NormalizingShrinks(db);
    SmallerCacheWeighsLess(base, db);
    AdmittedLoads(limits, base, db, ms);
    NamedSnapshotLoads(limit, m5.disk.metadata.value, m5.disk.files, db);
    LoadsIsReadable(limit, m.disk);
    ReplayAfterMark(limit, mark, base, end, |lines| - 1);
    assert end[|lines|..] == [begin] + [commit];
    ReplayOneMore(limit, Beginning, base, [begin], commit);
    ReplayOneMore(limit, Beginning, base, [], begin);
    assert [] + [begin] == [begin];
    BeginThenCommit(limit, base, begin, commit, id, ms);
  }

  lemma NamedSnapshotLoads(limit: nat, metadata: Metadata, files: map<FileName, Database>, db: Database)
    requires metadata.snapshotFile.Some? && metadata.snapshotFile.value in files
    requires files[metadata.snapshotFile.value] == db && DatabaseBytes(Normalized(db)) <= limit
    ensures LoadSnapshot(limit, Some(metadata), files) == Ok(Normalized(db))
  {
    hide Normalized, DatabaseBytes;
  }

  lemma BeginThenCommit(limit: nat, base: Database, begin: Line, commit: Line, id: string, ms: seq<Mutation>)
    requires begin == Line(Parsed(Begin(id, ms)), true) && commit == Line(Parsed(Commit(id)), true)
    requires LoadMutations(limit, base, ms) == Loading(ApplyAll(base, ms), true)
    ensures
      var st := ReplayState(base, map[id := ms], false);
      NextState(limit, Beginning, StartState(Beginning, base), begin) == Ok(st)
      && NextState(limit, Beginning, st, commit) == Ok(ReplayState(ApplyAll(base, ms), map[], false))
      && ReplayLines(limit, Beginning, base, []) == Ok(StartState(Beginning, base))
  {
    hide LoadMutations, ApplyAll;
    assert map[id := ms] - {id} == map[];
  }

  lemma RunFive(limits: StoreLimits, m: Machine, m1: Machine, m2: Machine, m3: Machine, m4: Machine, m5: Machine,
                id: string, ms: seq<Mutation>)
    requires Step(limits, m, SnapshotFails) == Some(m1)
    requires Step(limits, m1, BeginTransaction(id, ms)) == Some(m2)
    requires Step(limits, m2, CommitTransaction(true)) == Some(m3)
    requires Step(limits, m3, SnapshotWrite) == Some(m4)
    requires Step(limits, m4, Crash) == Some(m5)
    ensures Run(limits, m, [SnapshotFails, BeginTransaction(id, ms), CommitTransaction(true), SnapshotWrite, Crash])
      == Some(m5)
  {
    hide Step;
    var e1, e2, e3, e4, e5 := SnapshotFails, BeginTransaction(id, ms), CommitTransaction(true), SnapshotWrite, Crash;
    assert [e1][..0] == [];
    assert Run(limits, m, [e1]) == Some(m1);
    assert [e1, e2][..1] == [e1];
    assert Run(limits, m, [e1, e2]) == Some(m2);
    assert [e1, e2, e3][..2] == [e1, e2];
    assert Run(limits, m, [e1, e2, e3]) == Some(m3);
    assert [e1, e2, e3, e4][..3] == [e1, e2, e3];
    assert Run(limits, m, [e1, e2, e3, e4]) == Some(m4);
    assert [e1, e2, e3, e4, e5][..4] == [e1, e2, e3, e4];
  }

  /** One commit and the first two writes of its snapshot. */
  function FirstSnapshotHalf(): seq<Event> {
    [BeginTransaction("a", [NEW_LOGS]), CommitTransaction(true), SnapshotWrite, SnapshotWrite]
  }

  lemma OneMoreStep(limits: StoreLimits, es: seq<Event>, m: Machine, e: Event, next: Machine)
    requires Run(limits, INITIAL_MACHINE, es) == Some(m) && Inv(limits, m)
    requires Step(limits, m, e) == Some(next) && !LateFailure(m, e)
    ensures Run(limits, INITIAL_MACHINE, es + [e]) == Some(next) && Inv(limits, next)
  {
    hide Run, Step, Inv;
    Then(limits, INITIAL_MACHINE, es, m, e, next);
    StepKeepsInv(limits, m, e);
  }

  lemma FirstCommit(limits: StoreLimits)
    requires AdmitOne(limits, EMPTY_DATABASE, NEW_LOGS) == Ok(WithIndex())
    ensures var m := Run(limits, INITIAL_MACHINE, [BeginTransaction("a", [NEW_LOGS]), CommitTransaction(true)]);
            m.Some? && Inv(limits, m.value) && m.value.phase == Snapshotting(WriteFile) && m.value.memory == WithIndex()
            && m.value.committed == [NEW_LOGS] && m.value.usedIds == {"a"}
  {
    hide Admit, AdmitOne, ApplyAll, WithIndex, Inv, WithRecord, Run;
    var begin, commit := BeginTransaction("a", [NEW_LOGS]), CommitTransaction(true);
    AdmitOneOrTwo(limits, EMPTY_DATABASE, [NEW_LOGS]);
    ApplyUpToTwo(EMPTY_DATABASE, [NEW_LOGS]);
    IndexIsApplied();
    InitialInv(limits);
    NothingRun(limits, INITIAL_MACHINE);
    var m1 := Step(limits, INITIAL_MACHINE, begin).value;
    OneMoreStep(limits, [], INITIAL_MACHINE, begin, m1);
    assert [] + [begin] == [begin] && [begin] + [commit] == [begin, commit];
    OneMoreStep(limits, [begin], m1, commit, Step(limits, m1, commit).value);
  }

  lemma FirstHalfRuns(limits: StoreLimits)
    requires AdmitOne(limits, EMPTY_DATABASE, NEW_LOGS) == Ok(WithIndex())
    ensures var m := Run(limits, INITIAL_MACHINE, FirstSnapshotHalf());
            m.Some? && Inv(limits, m.value) && m.value.phase == Snapshotting(CompactLog)
            && m.value.memory == WithIndex()
            && m.value.committed == [NEW_LOGS] && m.value.usedIds == {"a"}
  {
    hide AdmitOne, WithIndex, Inv, Run;
    FirstCommit(limits);
    var es := [BeginTransaction("a", [NEW_LOGS]), CommitTransaction(true)];
    var m2 := Run(limits, INITIAL_MACHINE, es).value;
    var m3 := Step(limits, m2, SnapshotWrite).value;
    OneMoreStep(limits, es, m2, SnapshotWrite, m3);
    OneMoreStep(limits, es + [SnapshotWrite], m3, SnapshotWrite, Step(limits, m3, SnapshotWrite).value);
    assert es + [SnapshotWrite] + [SnapshotWrite] == FirstSnapshotHalf();
  }

  lemma IndexIsApplied()
    ensures Applied(EMPTY_DATABASE, NEW_LOGS) == WithIndex()
  {
  }

  lemma NormalizedKeepsCounter(db: Database)
    ensures Normalized(db).seqNo == db.seqNo
  {
  }

  /** Starting from an empty directory: an index, the first half of a snapshot, an I/O
      failure, an entry, the next snapshot's file, a crash. Loading counts the entry twice. */
  lemma RecoveryCanRepeatAWrite()
    ensures exists limits: StoreLimits, es: seq<Event> ::
      Run(limits, INITIAL_MACHINE, es).Some? && NoSpoiledRestart(limits, es)
      && Diverged(limits, Run(limits, INITIAL_MACHINE, es).value)
  {
    hide Run, Step, Inv, Admit, AdmitOne, ApplyAll, Applied, Normalized, Load, WithIndex, DatabaseBytes;
    var limits := Limits(0);
    IndexIsAdmitted(0);
    EntryIsAdmitted(0);
    SecondVersionIsAdmitted(0);
    FirstHalfRuns(limits);
    var m := Run(limits, INITIAL_MACHINE, FirstSnapshotHalf()).value;
    AdmitOneOrTwo(limits, WithIndex(), [ONE_ENTRY]);
    AdmitOneOrTwo(limits, WithEntry(), [ONE_ENTRY]);
    ApplyUpToTwo(WithIndex(), [ONE_ENTRY]);
    LateFailureReplaysTwice(limits, m, "b", [ONE_ENTRY]);
    var late := [SnapshotFails, BeginTransaction("b", [ONE_ENTRY]), CommitTransaction(true), SnapshotWrite, Crash];
    var es := FirstSnapshotHalf() + late;
    RunAppend(limits, INITIAL_MACHINE, FirstSnapshotHalf(), late);
    var end := Run(limits, INITIAL_MACHINE, es).value;
    CounterCounts(WithIndex(), [ONE_ENTRY]);
    NormalizedKeepsCounter(ApplyAll(WithIndex(), [ONE_ENTRY]));
    CounterCounts(Normalized(ApplyAll(WithIndex(), [ONE_ENTRY])), [ONE_ENTRY]);
    assert [ONE_ENTRY][..0] == [] && Takes([ONE_ENTRY]) == 1;
    ApplyAllAppend(EMPTY_DATABASE, [NEW_LOGS], [ONE_ENTRY]);
    ApplyUpToTwo(EMPTY_DATABASE, [NEW_LOGS]);
    IndexIsApplied();
    NormalizedKeepsCounter(Load(limits.memoryLimitBytes, end.disk).value);
    NormalizedKeepsCounter(ApplyAll(EMPTY_DATABASE, end.committed));
    assert Diverged(limits, end);
    assert NoSpoiledRestart(limits, es);
  }

  // ----- A stray index -----

  lemma SecondVersionIsAlone()
    ensures WithSecondVersion().indexes.Keys == {"logs"} && WithSecondVersion().aliases == map[]
    ensures DocumentCount(WithSecondVersion()) == 1
  {
    hide MapSum, IndexBytes, WithEntry, SaturatingSub, LiveBytes, DeadBytes, DocumentBytes, TemplatesAfter,
      RegistriesAfter, DocumentCount;
    EntryIsThere();
    SingleDocument(WithEntry(), ONE_ENTRY);
  }

  /** Rewriting the only document of the only index leaves it the only one. */
  lemma SingleDocument(db: Database, m: Mutation)
    requires m.IndexDocument? && m.id == "1" && db.indexes.Keys == {m.index} && HasDocument(db, m.index, "1")
    requires DocumentCount(db) == 1
    ensures DocumentCount(Applied(db, m)) == 1
  {
    hide MapSum, IndexBytes, UpdatedSource, SaturatingSub, LiveBytes, DeadBytes, DocumentBytes;
    var after := Applied(db, m).indexes;
    MapSumInsert(db.indexes, m.index, after[m.index], DocumentsIn);
    StoringCounts(db.indexes[m.index], "1", m.source, db.seqNo + 1);
  }

  lemma OtherIndexIsAdmitted(limits: StoreLimits, create: Mutation)
    requires create.CreateIndex? && create.name == "other" && limits.maxIndexes == 2
    requires DatabaseBytes(Applied(WithSecondVersion(), create)) <= limits.memoryLimitBytes
    ensures AdmitOne(limits, WithSecondVersion(), create) == Ok(Applied(WithSecondVersion(), create))
  {
    hide DatabaseBytes, Applied, IsBlank, DocumentCount, WithSecondVersion;
    NotBlank();
    SecondVersionIsAlone();
    assert |WithSecondVersion().indexes| == |WithSecondVersion().indexes.Keys| == 1;
    Admits(limits, WithSecondVersion(), create);
  }

  lemma EntryIsSound(more: nat)
    ensures Sound(WithEntry())
  {
    hide Sound, AdmitOne, ValidateMutation, DatabaseBytes, Applied;
    EmptyIsSound(Limits(more));
    IndexIsAdmitted(more);
    EntryIsAdmitted(more);
    AdmittedOneIsApplied(Limits(more), EMPTY_DATABASE, NEW_LOGS);
    AdmittedOneIsApplied(Limits(more), WithIndex(), ONE_ENTRY);
    ValidatedMutationKeepsSound(Limits(more), EMPTY_DATABASE, NEW_LOGS);
    ValidatedMutationKeepsSound(Limits(more), WithIndex(), ONE_ENTRY);
  }

  lemma SecondVersionIsSound(more: nat)
    ensures Sound(WithSecondVersion())
  {
    hide Sound, AdmitOne, ValidateMutation, DatabaseBytes, Applied, WithEntry;
    EntryIsSound(more);
    SecondVersionIsAdmitted(more);
    AdmittedOneIsApplied(Limits(more), WithEntry(), ONE_ENTRY);
    ValidatedMutationKeepsSound(Limits(more), WithEntry(), ONE_ENTRY);
  }

  lemma OtherIsNew()
    ensures ResolveIndex(WithSecondVersion(), "other") == None
    ensures var created := ResolveOrCreate(WithSecondVersion(), "other").1;
            |created| == 1 && created[0].CreateIndex? && created[0].name == "other"
  {
    hide WithSecondVersion, TemplateConfig, TemplatesInOrder;
    SecondVersionIsAlone();
  }

  ghost predicate Strayed(limits: StoreLimits, db: Database, ops: seq<WriteOperation>) {
    var st := RunBulk(limits, db, ops);
    Sound(db) && Installed(db, st) != ApplyAll(db, st.mutations)
  }

  /** A store that is full, reached from nothing by two admitted mutations; the batch
      rewrites its document and then names a new index. */
  lemma BulkCanDiverge()
    ensures exists limits: StoreLimits, ops: seq<WriteOperation> ::
      Strayed(limits, WithEntry(), ops)
      && AdmitOne(limits, EMPTY_DATABASE, NEW_LOGS) == Ok(WithIndex())
      && AdmitOne(limits, WithIndex(), ONE_ENTRY) == Ok(WithEntry())
  {
    hide AdmitOne, ApplyAll, RunBulk, Sound, WithEntry, WithIndex, DatabaseBytes, Applied, DocumentCount, LeavesStray;
    OtherIsNew();
    var op := IndexOp("other", "1", Null);
    var create := ResolveOrCreate(WithSecondVersion(), "other").1[0];
    var more := DatabaseBytes(Applied(WithSecondVersion(), create));
    var limits := Limits(more);
    IndexIsAdmitted(more);
    EntryIsAdmitted(more);
    SecondVersionIsAdmitted(more);
    EntryIsSound(more);
    EntryIsThere();
    SecondVersionIsAlone();
    OtherIndexIsAdmitted(limits, create);
    SecondVersionIsSound(more);
    FullStoreStrays(limits, WithSecondVersion(), op);
    FullStoreDiverges(limits, WithEntry(), "logs", "1", Null, op);
    assert Strayed(limits, WithEntry(), [IndexOp("logs", "1", Null), op]);
  }
}
