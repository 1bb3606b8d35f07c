/** Crash safety of the durable store: a machine whose every step is one file write, a
    crash or a restart, and the database a load finds in each state it can reach. */
module Durability {
  import opened Prelude
  import opened Catalog
  import opened CatalogInvariant
  import opened SizeCache
  import opened MutationLog
  import opened Writes

  datatype FileName = BaseSnapshot | GenerationSnapshot(generation: nat)

  datatype Metadata = Metadata(
    generation: nat, snapshotFile: Option<FileName>, lastTransactionId: Option<string>, logCompacted: bool)

  /** What survives a crash. */
  datatype Disk = Disk(log: Option<seq<Line>>, metadata: Option<Metadata>, files: map<FileName, Database>)

  datatype FlushState = FlushState(dirtyWrites: nat, generation: nat, lastTransactionId: Option<string>)

  // ----- Loading -----

  function StartOf(metadata: Option<Metadata>): ReplayStart {
    if metadata.None? || metadata.value.logCompacted || metadata.value.lastTransactionId.None? then Beginning
    else After(metadata.value.lastTransactionId.value)
  }

  /** The database a load starts from: the named snapshot with its sizes counted afresh. */
  function LoadSnapshot(limit: nat, metadata: Option<Metadata>, files: map<FileName, Database>): Result<Database> {
    if metadata.None? then Ok(EMPTY_DATABASE) else
    var named := metadata.value.snapshotFile;
    var file := if named.Some? then named.value else BaseSnapshot;
    if file !in files then Err(InvalidData()) else
    var db := Normalized(files[file]);
    if DatabaseBytes(db) > limit then Err(InvalidData()) else Ok(db)
  }

  function Load(limit: nat, disk: Disk): Result<Database> {
    var snapshot := LoadSnapshot(limit, disk.metadata, disk.files);
    if snapshot.Err? then snapshot else Replay(limit, StartOf(disk.metadata), snapshot.value, disk.log)
  }

  function LoadedFlushState(disk: Disk): FlushState {
    match disk.metadata
    case None => FlushState(0, 0, None)
    case Some(md) => FlushState(0, md.generation, md.lastTransactionId)
  }

  /** Opening the store: a load, and one more look at the memory limit. */
  function Open(limit: nat, disk: Disk): Result<Database> {
    var r := Load(limit, disk);
    if r.Ok? && DatabaseBytes(r.value) > limit then Err(InvalidData()) else r
  }

  // ----- The machine -----

  datatype SnapshotStep = WriteFile | WriteMetadata | CompactLog | WriteCompactedMetadata | WriteBase

  datatype Phase =
    | Idle
    | Committing(id: string, mutations: seq<Mutation>)
    | Snapshotting(step: SnapshotStep)
    | Down

  /** `committed` lists, in commit order, the mutations whose commit record was written;
      `usedIds` the transaction ids taken so far. */
  datatype Machine = Machine(
    disk: Disk, memory: Database, flush: FlushState, phase: Phase, committed: seq<Mutation>, usedIds: set<string>)

  datatype Event =
    | BeginTransaction(id: string, mutations: seq<Mutation>)
    | CommitTransaction(snapshotDue: bool)
    | CommitFails
    | SnapshotWrite
    | SnapshotFails
    | Crash
    | Restart

  const INITIAL_MACHINE :=
    Machine(Disk(None, None, map[]), EMPTY_DATABASE, FlushState(0, 0, None), Idle, [], {})

  function Lines(disk: Disk): seq<Line> {
    if disk.log.None? then [] else disk.log.value
  }

  function WithRecord(disk: Disk, record: Record): Disk {
    disk.(log := Some(Lines(disk) + [Line(Parsed(record), true)]))
  }

  function SnapshotMetadata(flush: FlushState, compacted: bool): Metadata {
    Metadata(flush.generation + 1, Some(GenerationSnapshot(flush.generation + 1)), flush.lastTransactionId, compacted)
  }

  /** The log cannot be cut: it holds bytes that cannot be read. */
  predicate CannotCompact(disk: Disk, flush: FlushState) {
    flush.lastTransactionId.Some? && disk.log.Some? && ScanFails(disk.log.value, flush.lastTransactionId.value)
  }

  /** One file write of a snapshot, and the step that follows it. */
  function SnapshotWritten(disk: Disk, memory: Database, flush: FlushState, step: SnapshotStep): (Disk, SnapshotStep) {
    match step
    case WriteFile =>
      (disk.(files := disk.files[GenerationSnapshot(flush.generation + 1) := memory]), WriteMetadata)
    case WriteMetadata => (disk.(metadata := Some(SnapshotMetadata(flush, false))), CompactLog)
    case CompactLog =>
      if flush.lastTransactionId.Some? && disk.log.Some?
         && Compacted(disk.log.value, flush.lastTransactionId.value).Some? then
        (disk.(log := Compacted(disk.log.value, flush.lastTransactionId.value)), WriteCompactedMetadata)
      else (disk, WriteBase)
    case WriteCompactedMetadata => (disk.(metadata := Some(SnapshotMetadata(flush, true))), WriteBase)
    case WriteBase => (disk.(files := disk.files[BaseSnapshot := memory]), WriteBase)
  }

  function Step(limits: StoreLimits, m: Machine, e: Event): Option<Machine> {
    match e
    case BeginTransaction(id, ms) =>
      if m.phase.Idle? && id !in m.usedIds && ms != [] && Admit(limits, m.memory, ms).Ok? then
        Some(m.(disk := WithRecord(m.disk, Begin(id, ms)), phase := Committing(id, ms), usedIds := m.usedIds + {id}))
      else None
    case CommitTransaction(snapshotDue) =>
      if !m.phase.Committing? then None else
      var ms := m.phase.mutations;
      Some(m.(disk := WithRecord(m.disk, Commit(m.phase.id)), memory := ApplyAll(m.memory, ms),
              flush := FlushState(m.flush.dirtyWrites + |ms|, m.flush.generation, Some(m.phase.id)),
              phase := if snapshotDue then Snapshotting(WriteFile) else Idle, committed := m.committed + ms))
    case CommitFails => if m.phase.Committing? then Some(m.(phase := Idle)) else None
    case SnapshotWrite =>
      if !m.phase.Snapshotting? || (m.phase.step.CompactLog? && CannotCompact(m.disk, m.flush)) then None else
      var (disk, next) := SnapshotWritten(m.disk, m.memory, m.flush, m.phase.step);
      if m.phase.step.WriteBase? then
        Some(m.(disk := disk, phase := Idle, flush := FlushState(0, m.flush.generation + 1, m.flush.lastTransactionId)))
      else Some(m.(disk := disk, phase := Snapshotting(next)))
    case SnapshotFails => if m.phase.Snapshotting? then Some(m.(phase := Idle)) else None
    case Crash => Some(m.(phase := Down))
    case Restart =>
      if m.phase.Down? && Open(limits.memoryLimitBytes, m.disk).Ok? then
        var loaded := Open(limits.memoryLimitBytes, m.disk).value;
        Some(m.(memory := loaded, flush := LoadedFlushState(m.disk), phase := Idle))
      else None
  }

  function Run(limits: StoreLimits, m: Machine, es: seq<Event>): Option<Machine> {
    if es == [] then Some(m) else
    var before := Run(limits, m, es[..|es| - 1]);
    if before.None? then None else Step(limits, before.value, es[|es| - 1])
  }

  // ----- The invariant -----

  /** The disk loads, and the log's high-water mark, if one is needed, is there. */
  ghost predicate Loads(limit: nat, disk: Disk) {
    LoadSnapshot(limit, disk.metadata, disk.files).Ok? && (disk.log.None? ==> StartOf(disk.metadata).Beginning?)
    && var r := ReplayLines(limit, StartOf(disk.metadata), LoadSnapshot(limit, disk.metadata, disk.files).value,
      Lines(disk));
       r.Ok? && !r.value.waiting
  }

  ghost function LoadState(limit: nat, disk: Disk): ReplayState
    requires Loads(limit, disk)
  {
    ReplayLines(limit, StartOf(disk.metadata), LoadSnapshot(limit, disk.metadata, disk.files).value, Lines(disk)).value
  }

  lemma LoadsIsLoad(limit: nat, disk: Disk)
    requires Loads(limit, disk)
    ensures Load(limit, disk) == Ok(LoadState(limit, disk).db)
  {
  }

  ghost predicate Mentions(line: Line, id: string) {
    line.content.Parsed? && var r := line.content.record;
    (r.Begin? || r.Commit? || r.CompactedAfter?) && r.id == id
  }

  /** Every transaction id on disk has been used. */
  ghost predicate IdsAreUsed(m: Machine) {
    forall i, id :: 0 <= i < |Lines(m.disk)| && Mentions(Lines(m.disk)[i], id) ==> id in m.usedIds
  }

  /** No step of an attempt has yet advanced the metadata past the counter. */
  predicate BeforeNewMetadata(phase: Phase) {
    phase.Idle? || phase.Committing? || (phase.Snapshotting? && (phase.step.WriteFile? || phase.step.WriteMetadata?))
  }

  /** Before the new metadata is written, it is the last snapshot's; after, it is this one's. */
  ghost predicate GenerationsAgree(m: Machine) {
    (m.disk.metadata.Some? ==>
      m.disk.metadata.value.snapshotFile == Some(GenerationSnapshot(m.disk.metadata.value.generation)))
    && (BeforeNewMetadata(m.phase) ==>
      m.disk.metadata.Some? ==> m.flush.generation == m.disk.metadata.value.generation)
  }

  /** The mark is the last line, and the only one for its id. */
  ghost predicate EndsWithMark(disk: Disk, id: string) {
    var lines := Lines(disk);
    lines != [] && IsHighWater(lines[|lines| - 1], id)
    && forall i :: 0 <= i < |lines| - 1 ==> !IsHighWater(lines[i], id)
  }

  ghost predicate PhaseHolds(limits: StoreLimits, m: Machine)
    requires Loads(limits.memoryLimitBytes, m.disk)
  {
    match m.phase
    case Committing(id, ms) =>
      id in m.usedIds && ms != [] && Admit(limits, m.memory, ms).Ok?
      && LoadState(limits.memoryLimitBytes, m.disk).pending
        == LoadState(limits.memoryLimitBytes, m.disk).pending[id := ms]
      && forall i :: 0 <= i < |Lines(m.disk)| ==> !IsHighWater(Lines(m.disk)[i], id)
    case Snapshotting(step) =>
      DatabaseBytes(m.memory) <= limits.memoryLimitBytes && m.disk.log.Some?
      && m.flush.lastTransactionId.Some? && EndsWithMark(m.disk, m.flush.lastTransactionId.value)
      && (step.WriteFile? || step.WriteMetadata? || step.CompactLog? ==>
            IsCommitOf(Lines(m.disk)[|Lines(m.disk)| - 1], m.flush.lastTransactionId.value))
      && (step.WriteMetadata? ==>
            GenerationSnapshot(m.flush.generation + 1) in m.disk.files
            && m.disk.files[GenerationSnapshot(m.flush.generation + 1)] == m.memory)
      && (step.CompactLog? || step.WriteCompactedMetadata? ==>
            m.disk.metadata == Some(SnapshotMetadata(m.flush, false))
            && GenerationSnapshot(m.flush.generation + 1) in m.disk.files
            && m.disk.files[GenerationSnapshot(m.flush.generation + 1)] == m.memory)
      && (step.WriteCompactedMetadata? ==>
            Lines(m.disk) == [Line(Parsed(CompactedAfter(m.flush.lastTransactionId.value)), true)])
      && (step.WriteBase? ==> m.disk.metadata.Some? && m.disk.metadata.value.generation == m.flush.generation + 1)
    case _ => true
  }

  /** What a load finds is what was committed; memory agrees while the process is up. */
  ghost predicate Agrees(limits: StoreLimits, m: Machine)
    requires Loads(limits.memoryLimitBytes, m.disk)
  {
    var loaded := LoadState(limits.memoryLimitBytes, m.disk).db;
    (loaded == EMPTY_DATABASE || DatabaseBytes(loaded) <= limits.memoryLimitBytes)
    && Covered(loaded) && SmallerCache(loaded, ApplyAll(EMPTY_DATABASE, m.committed))
    && (!m.phase.Down? ==>
          Covered(m.memory) && SmallerCache(loaded, m.memory)
          && SmallerCache(m.memory, ApplyAll(EMPTY_DATABASE, m.committed)))
  }

  ghost predicate Inv(limits: StoreLimits, m: Machine) {
    Loads(limits.memoryLimitBytes, m.disk) && Agrees(limits, m) && IdsAreUsed(m) && GenerationsAgree(m)
    && PhaseHolds(limits, m)
  }

  lemma LoadsIsReadable(limit: nat, disk: Disk)
    requires Loads(limit, disk)
    ensures Readable(Lines(disk))
  {
    hide LoadSnapshot, ReplayLines;
    var base := LoadSnapshot(limit, disk.metadata, disk.files).value;
    LoadedIsReadable(limit, StartOf(disk.metadata), base, Lines(disk));
  }

  // ----- One step at a time -----

  lemma AppendedRecordLoads(limit: nat, disk: Disk, record: Record)
    requires Loads(limit, disk) && ReplayRecord(limit, LoadState(limit, disk), record).ok
    ensures Loads(limit, WithRecord(disk, record))
    ensures LoadState(limit, WithRecord(disk, record)) == ReplayRecord(limit, LoadState(limit, disk), record).state
  {
    hide LoadSnapshot, ReplayRecord, ReplayLines;
    var base := LoadSnapshot(limit, disk.metadata, disk.files).value;
    ReplayOneMore(limit, StartOf(disk.metadata), base, Lines(disk), Line(Parsed(record), true));
    ReplayRecordKeepsWaiting(limit, LoadState(limit, disk), record);
  }

  lemma ReplayRecordKeepsWaiting(limit: nat, st: ReplayState, record: Record)
    ensures ReplayRecord(limit, st, record).state.waiting == st.waiting
  {
    hide LoadMutations;
  }

  lemma MentionsAfterAppend(m: Machine, record: Record, used: set<string>)
    requires IdsAreUsed(m) && m.usedIds <= used
    requires forall id :: Mentions(Line(Parsed(record), true), id) ==> id in used
    ensures var lines := Lines(WithRecord(m.disk, record));
            forall i, id :: 0 <= i < |lines| && Mentions(lines[i], id) ==> id in used
  {
  }

  /** A begin record adds nothing to what a load finds. */
  lemma BeginKeepsInv(limits: StoreLimits, m: Machine, id: string, ms: seq<Mutation>)
    requires Inv(limits, m) && Step(limits, m, BeginTransaction(id, ms)).Some?
    ensures Inv(limits, Step(limits, m, BeginTransaction(id, ms)).value)
  {
    hide LoadSnapshot, ReplayLines, Admit, ApplyAll, Covered, SmallerCache, LoadMutations;
    var limit := limits.memoryLimitBytes;
    AppendedRecordLoads(limit, m.disk, Begin(id, ms));
    MentionsAfterAppend(m, Begin(id, ms), m.usedIds + {id});
    forall i | 0 <= i < |Lines(m.disk)| ensures !IsHighWater(Lines(m.disk)[i], id) {
      assert !Mentions(Lines(m.disk)[i], id);
    }
  }

  /** What memory admitted, a load of a smaller cache passes. */
  lemma {:induction false} AdmittedLoads(limits: StoreLimits, loaded: Database, memory: Database, ms: seq<Mutation>)
    requires SmallerCache(loaded, memory) && Covered(loaded) && Admit(limits, memory, ms).Ok?
    ensures LoadMutations(limits.memoryLimitBytes, loaded, ms) == Loading(ApplyAll(loaded, ms), true)
    ensures Admit(limits, memory, ms).value == ApplyAll(memory, ms)
    ensures ms != [] ==>
      DatabaseBytes(ApplyAll(loaded, ms)) <= DatabaseBytes(ApplyAll(memory, ms)) <= limits.memoryLimitBytes
  {
    hide SmallerCache, Covered, Applied, DatabaseBytes, ValidateMutation;
    if ms != [] {
      var n := |ms| - 1;
      AdmittedLoads(limits, loaded, memory, ms[..n]);
      SmallerCacheRun(loaded, memory, ms);
      SmallerCacheWeighsLess(ApplyAll(loaded, ms), ApplyAll(memory, ms));
    }
  }

  /** A commit record adds exactly its transaction. */
  lemma CommitKeepsInv(limits: StoreLimits, m: Machine, snapshotDue: bool)
    requires Inv(limits, m) && Step(limits, m, CommitTransaction(snapshotDue)).Some?
    ensures Inv(limits, Step(limits, m, CommitTransaction(snapshotDue)).value)
  {
    hide LoadSnapshot, ReplayLines, Admit, ApplyAll, Covered, SmallerCache, LoadMutations, DatabaseBytes;
    var limit := limits.memoryLimitBytes;
    var id, ms := m.phase.id, m.phase.mutations;
    var loaded := LoadState(limit, m.disk).db;
    var all := ApplyAll(EMPTY_DATABASE, m.committed);
    AdmittedLoads(limits, loaded, m.memory, ms);
    SmallerCacheRun(loaded, m.memory, ms);
    SmallerCacheRun(loaded, all, ms);
    SmallerCacheRun(m.memory, all, ms);
    ApplyAllAppend(EMPTY_DATABASE, m.committed, ms);
    AppendedRecordLoads(limit, m.disk, Commit(id));
    MentionsAfterAppend(m, Commit(id), m.usedIds);
  }

  // ----- Snapshots -----

  /** A log that ends with the mark adds nothing to the snapshot. */
  lemma NothingAfterMark(limit: nat, base: Database, disk: Disk, id: string)
    requires EndsWithMark(disk, id) && Readable(Lines(disk))
    ensures ReplayLines(limit, After(id), base, Lines(disk)) == Ok(ReplayState(base, map[], false))
  {
    var n := |Lines(disk)| - 1;
    ReplayAfterMark(limit, id, base, Lines(disk), n);
    assert Lines(disk)[n + 1..] == [];
  }

  lemma MarkerAlone(limit: nat, base: Database, id: string)
    ensures ReplayLines(limit, Beginning, base, [Line(Parsed(CompactedAfter(id)), true)])
      == Ok(ReplayState(base, map[], false))
  {
    MarkerIsSilent(limit, id, base, []);
    assert [Line(Parsed(CompactedAfter(id)), true)] + [] == [Line(Parsed(CompactedAfter(id)), true)];
  }

  /** The snapshot being written loads, and is at least as good as memory. */
  lemma SnapshotLoads(limits: StoreLimits, m: Machine, metadata: Metadata, files: map<FileName, Database>)
    requires Covered(m.memory) && DatabaseBytes(m.memory) <= limits.memoryLimitBytes
    requires SmallerCache(m.memory, ApplyAll(EMPTY_DATABASE, m.committed))
    requires metadata.snapshotFile.Some? && metadata.snapshotFile.value in files
    requires files[metadata.snapshotFile.value] == m.memory
    ensures LoadSnapshot(limits.memoryLimitBytes, Some(metadata), files) == Ok(Normalized(m.memory))
    ensures DatabaseBytes(Normalized(m.memory)) <= limits.memoryLimitBytes
    ensures Covered(Normalized(m.memory)) && SmallerCache(Normalized(m.memory), m.memory)
    ensures SmallerCache(Normalized(m.memory), ApplyAll(EMPTY_DATABASE, m.committed))
  {
    hide Normalized, DatabaseBytes, Covered, SmallerCache, ApplyAll;
    NormalizingShrinks(m.memory);
    SmallerCacheWeighsLess(Normalized(m.memory), m.memory);
    SmallerCacheTransitive(Normalized(m.memory), m.memory, ApplyAll(EMPTY_DATABASE, m.committed));
  }

  /** A new snapshot file is not visible until the metadata names it. */
  lemma WriteFileKeepsInv(limits: StoreLimits, m: Machine)
    requires Inv(limits, m) && m.phase == Snapshotting(WriteFile)
    ensures Inv(limits, Step(limits, m, SnapshotWrite).value)
  {
    hide ReplayLines, ApplyAll, Covered, SmallerCache, DatabaseBytes, Normalized;
    var limit := limits.memoryLimitBytes;
    var files := m.disk.files[GenerationSnapshot(m.flush.generation + 1) := m.memory];
    assert LoadSnapshot(limit, m.disk.metadata, files) == LoadSnapshot(limit, m.disk.metadata, m.disk.files);
  }

  /** New metadata with the uncut log loads the same state. */
  lemma WriteMetadataKeepsInv(limits: StoreLimits, m: Machine)
    requires Inv(limits, m) && m.phase == Snapshotting(WriteMetadata)
    ensures Inv(limits, Step(limits, m, SnapshotWrite).value)
  {
    hide ReplayLines, ApplyAll, Covered, SmallerCache, DatabaseBytes, Normalized, LoadSnapshot;
    var limit := limits.memoryLimitBytes;
    var metadata := SnapshotMetadata(m.flush, false);
    SnapshotLoads(limits, m, metadata, m.disk.files);
    LoadsIsReadable(limit, m.disk);
    NothingAfterMark(limit, Normalized(m.memory), m.disk, m.flush.lastTransactionId.value);
  }

  /** The cut log under metadata that calls it uncut loads the same state. */
  lemma CompactLogKeepsInv(limits: StoreLimits, m: Machine)
    requires Inv(limits, m) && m.phase == Snapshotting(CompactLog)
    ensures Step(limits, m, SnapshotWrite).Some? && Inv(limits, Step(limits, m, SnapshotWrite).value)
  {
    hide ReplayLines, ApplyAll, Covered, SmallerCache, DatabaseBytes, Normalized, LoadSnapshot;
    var limit := limits.memoryLimitBytes;
    var id := m.flush.lastTransactionId.value;
    var lines := Lines(m.disk);
    LoadsIsReadable(limit, m.disk);
    assert CommitLine(lines, id) == Some(|lines| - 1);
    assert Compacted(lines, id).value == [Line(Parsed(CompactedAfter(id)), true)];
    assert Mentions(lines[|lines| - 1], id);
    SnapshotLoads(limits, m, SnapshotMetadata(m.flush, false), m.disk.files);
    var after := m.disk.(log := Compacted(lines, id));
    NothingAfterMark(limit, Normalized(m.memory), after, id);
  }

  /** And so does metadata that calls it cut. */
  lemma WriteCompactedMetadataKeepsInv(limits: StoreLimits, m: Machine)
    requires Inv(limits, m) && m.phase == Snapshotting(WriteCompactedMetadata)
    ensures Inv(limits, Step(limits, m, SnapshotWrite).value)
  {
    hide ReplayLines, ApplyAll, Covered, SmallerCache, DatabaseBytes, Normalized, LoadSnapshot;
    SnapshotLoads(limits, m, SnapshotMetadata(m.flush, true), m.disk.files);
    MarkerAlone(limits.memoryLimitBytes, Normalized(m.memory), m.flush.lastTransactionId.value);
  }

  lemma WriteBaseKeepsInv(limits: StoreLimits, m: Machine)
    requires Inv(limits, m) && m.phase == Snapshotting(WriteBase)
    ensures Inv(limits, Step(limits, m, SnapshotWrite).value)
  {
    hide ReplayLines, ApplyAll, Covered, SmallerCache, DatabaseBytes, Normalized;
    var files := m.disk.files[BaseSnapshot := m.memory];
    assert LoadSnapshot(limits.memoryLimitBytes, m.disk.metadata, files)
      == LoadSnapshot(limits.memoryLimitBytes, m.disk.metadata, m.disk.files);
  }

  // ----- Every step, every run -----

  /** Opening again succeeds, unless not even an empty database fits, and starts from what
      the disk holds. */
  lemma RestartKeepsInv(limits: StoreLimits, m: Machine)
    requires Inv(limits, m) && m.phase.Down?
    ensures
      var empty := LoadState(limits.memoryLimitBytes, m.disk).db == EMPTY_DATABASE;
      Step(limits, m, Restart).Some? <==> (empty ==> 128 <= limits.memoryLimitBytes)
    ensures Step(limits, m, Restart).Some? ==> Inv(limits, Step(limits, m, Restart).value)
  {
    hide ReplayLines, ApplyAll, Covered, DatabaseBytes, Normalized, LoadSnapshot;
    LoadsIsLoad(limits.memoryLimitBytes, m.disk);
    EmptyBytes();
  }

  /** A snapshot attempt that fails, without a crash, once its metadata is written. */
  predicate LateFailure(m: Machine, e: Event) {
    e.SnapshotFails? && m.phase.Snapshotting? && !m.phase.step.WriteFile? && !m.phase.step.WriteMetadata?
  }

  /** Every step but a late snapshot failure keeps the invariant. */
  lemma StepKeepsInv(limits: StoreLimits, m: Machine, e: Event)
    requires Inv(limits, m) && Step(limits, m, e).Some? && !LateFailure(m, e)
    ensures Inv(limits, Step(limits, m, e).value)
  {
    match e
    case BeginTransaction(id, ms) => BeginKeepsInv(limits, m, id, ms);
    case CommitTransaction(due) => CommitKeepsInv(limits, m, due);
    case SnapshotWrite =>
      match m.phase.step {
        case WriteFile => WriteFileKeepsInv(limits, m);
        case WriteMetadata => WriteMetadataKeepsInv(limits, m);
        case CompactLog => CompactLogKeepsInv(limits, m);
        case WriteCompactedMetadata => WriteCompactedMetadataKeepsInv(limits, m);
        case WriteBase => WriteBaseKeepsInv(limits, m);
      }
    case Restart => RestartKeepsInv(limits, m);
    case CommitFails =>
    case SnapshotFails =>
    case Crash =>
  }

  lemma InitialInv(limits: StoreLimits)
    ensures Inv(limits, INITIAL_MACHINE)
  {
    hide MapSum;
  }

  lemma EmptyBytes()
    ensures DatabaseBytes(EMPTY_DATABASE) == 128
  {
  }

  /** What a crash in the middle of a log write can leave behind. */
  predicate Cut(m: Machine, torn: Line) {
    torn.content in {Blank, Unparsable, Undecodable} || (torn.content.Parsed? && torn.content.record.Begin?)
    || (m.phase.Committing? && torn.content == Parsed(Commit(m.phase.id)))
  }

  /** A write cut short by the crash: if its bytes cannot be read the load fails; otherwise a
      half record changes nothing, a whole begin record without its newline neither, and a
      whole commit record commits. */
  lemma TornWriteRecoversExactlyWhenDecodable(limits: StoreLimits, m: Machine, torn: Line)
    requires Inv(limits, m) && !torn.newline && Cut(m, torn)
    ensures
      var committed := if torn.content.Parsed? && torn.content.record.Commit?
        then m.committed + m.phase.mutations else m.committed;
      var loaded := Load(limits.memoryLimitBytes, m.disk.(log := Some(Lines(m.disk) + [torn])));
      (loaded.Ok? <==> !torn.content.Undecodable?)
      && (loaded.Ok? ==> Normalized(loaded.value) == Normalized(ApplyAll(EMPTY_DATABASE, committed)))
  {
    hide Normalized, ApplyAll, ReplayLines, Covered, LoadSnapshot, MapSum, IsHighWater, SmallerCache, Admit,
      LoadMutations;
    var limit := limits.memoryLimitBytes;
    var base := LoadSnapshot(limit, m.disk.metadata, m.disk.files).value;
    ReplayOneMore(limit, StartOf(m.disk.metadata), base, Lines(m.disk), torn);
    var loaded := LoadState(limit, m.disk).db;
    var all := ApplyAll(EMPTY_DATABASE, m.committed);
    if torn.content.Parsed? && torn.content.record.Commit? {
      var ms := m.phase.mutations;
      AdmittedLoads(limits, loaded, m.memory, ms);
      SmallerCacheRun(loaded, all, ms);
      ApplyAllAppend(EMPTY_DATABASE, m.committed, ms);
      SmallerIsSame(ApplyAll(loaded, ms), ApplyAll(all, ms));
    } else {
      SmallerIsSame(loaded, all);
    }
  }

  lemma SmallerIsSame(a: Database, b: Database)
    requires SmallerCache(a, b)
    ensures Normalized(a) == Normalized(b)
  {
    hide Normalized;
    SameContentNormalizes(a, b);
  }

  // ----- Where the guarantee ends -----

  /** After a failed attempt the next snapshot overwrites the file the metadata names
      exactly when the failure came after the metadata was written. */
  lemma NextSnapshotOverwritesExactlyWhenLate(limits: StoreLimits, m: Machine)
    requires Inv(limits, m) && m.phase.Snapshotting?
    ensures
      var after := Step(limits, m, SnapshotFails).value;
      (after.disk.metadata.Some?
       && after.disk.metadata.value.snapshotFile == Some(GenerationSnapshot(after.flush.generation + 1)))
      <==> LateFailure(m, SnapshotFails)
  {
    hide ReplayLines, Covered, LoadSnapshot, DatabaseBytes, SmallerCache, IsHighWater;
  }

  lemma SmallerThanItself(db: Database)
    ensures SmallerCache(db, db)
  {
  }

  // ----- When a snapshot is due -----

  predicate NeitherSnapshotNorStart(e: Event) {
    !e.SnapshotWrite? && !e.Restart?
  }

  /** The counter that decides on a snapshot counts the mutations committed since the last one. */
  lemma {:induction false} DirtyWritesCountCommitted(limits: StoreLimits, m: Machine, es: seq<Event>)
    requires Run(limits, m, es).Some? && forall i :: 0 <= i < |es| ==> NeitherSnapshotNorStart(es[i])
    ensures var after := Run(limits, m, es).value;
            after.flush.dirtyWrites + |m.committed| == m.flush.dirtyWrites + |after.committed|
            && after.flush.generation == m.flush.generation
  {
    hide Admit, WithRecord, ApplyAll;
    if es != [] {
      var n := |es| - 1;
      DirtyWritesCountCommitted(limits, m, es[..n]);
      assert NeitherSnapshotNorStart(es[n]);
    }
  }

  /** And the end of a snapshot sets it back. */
  lemma FinishedSnapshotCounts(limits: StoreLimits, m: Machine)
    requires m.phase == Snapshotting(WriteBase)
    ensures Step(limits, m, SnapshotWrite).Some?
    ensures Step(limits, m, SnapshotWrite).value.flush
         == FlushState(0, m.flush.generation + 1, m.flush.lastTransactionId)
  {
  }
}
