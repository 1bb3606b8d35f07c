/** The store: three commit paths that validate, write the log and swap memory, the
    snapshot writer, and opening from disk. Every method says which run of the
    durability machine it performs. */
module Store {
  import opened Prelude
  import opened Json
  import opened Catalog
  import opened CatalogInvariant
  import opened SizeCache
  import opened MutationLog
  import opened Writes
  import opened Durability
  import opened Recovery
  import opened Repair
  import Admission
  import Operations

  /** How the two log writes of a transaction turn out. */
  datatype LogWrites = BothWritten | BeginNotWritten | CommitNotWritten

  function LogFailure(): StoreError { StoreError(500, "mutation_log_exception") }

  /** What happens outside the store during a commit: its log writes, whether a snapshot is
      due by the clock, and the write at which a snapshot attempt fails, if any. */
  datatype Outside = Outside(log: LogWrites, intervalElapsed: bool, snapshotFails: Option<SnapshotStep>)

  // ----- The runs the methods perform -----

  /** The machine after the log writes of one transaction. */
  ghost function Logged(m: Machine, id: string, ms: seq<Mutation>, candidate: Database, io: LogWrites,
                        phase: Phase): Machine {
    match io
    case BeginNotWritten => m
    case CommitNotWritten => m.(disk := WithRecord(m.disk, Begin(id, ms)), usedIds := m.usedIds + {id})
    case BothWritten =>
      Machine(WithRecord(WithRecord(m.disk, Begin(id, ms)), Commit(id)), candidate,
              FlushState(m.flush.dirtyWrites + |ms|, m.flush.generation, Some(id)), phase,
              m.committed + ms, m.usedIds + {id})
  }

  ghost function LogEvents(id: string, ms: seq<Mutation>, io: LogWrites, due: bool): seq<Event> {
    match io
    case BeginNotWritten => []
    case CommitNotWritten => [BeginTransaction(id, ms), CommitFails]
    case BothWritten => [BeginTransaction(id, ms), CommitTransaction(due)]
  }

  ghost function Begun(m: Machine, id: string, ms: seq<Mutation>): Machine {
    m.(disk := WithRecord(m.disk, Begin(id, ms)), phase := Committing(id, ms), usedIds := m.usedIds + {id})
  }

  lemma LogSteps(limits: StoreLimits, m: Machine, id: string, ms: seq<Mutation>, due: bool)
    requires m.phase.Idle? && id !in m.usedIds && ms != [] && Admit(limits, m.memory, ms).Ok?
    ensures Step(limits, m, BeginTransaction(id, ms)) == Some(Begun(m, id, ms))
    ensures Step(limits, Begun(m, id, ms), CommitFails)
      == Some(Logged(m, id, ms, ApplyAll(m.memory, ms), CommitNotWritten, Idle))
    ensures Step(limits, Begun(m, id, ms), CommitTransaction(due))
      == Some(Logged(m, id, ms, ApplyAll(m.memory, ms), BothWritten, if due then Snapshotting(WriteFile) else Idle))
  {
    hide Admit, ApplyAll, WithRecord;
  }

  lemma LogEventsAreUp(id: string, ms: seq<Mutation>, io: LogWrites, due: bool)
    ensures Uptime(LogEvents(id, ms, io, due))
  {
  }

  lemma NothingLogged(m: Machine, id: string, ms: seq<Mutation>, due: bool)
    requires m.phase.Idle?
    ensures forall candidate, phase :: Logged(m, id, ms, candidate, BeginNotWritten, phase) == m
    ensures forall candidate, phase ::
      Logged(m, id, ms, candidate, CommitNotWritten, phase) == Logged(m, id, ms, candidate, CommitNotWritten, Idle)
  {
  }

  /** A logged commit is a run of the machine, however many of its records were written. */
  lemma LoggedIsRun(limits: StoreLimits, m: Machine, id: string, ms: seq<Mutation>, io: LogWrites, due: bool)
    requires m.phase.Idle? && id !in m.usedIds && ms != [] && Admit(limits, m.memory, ms).Ok?
    ensures
      var phase := if due then Snapshotting(WriteFile) else Idle;
      var after := Logged(m, id, ms, Admit(limits, m.memory, ms).value, io, phase);
      Uptime(LogEvents(id, ms, io, due)) && Run(limits, m, LogEvents(id, ms, io, due)) == Some(after)
  {
    hide Admit, ApplyAll, Run, Step, Begun, Uptime, Logged;
    LogEventsAreUp(id, ms, io, due);
    NothingLogged(m, id, ms, due);
    AdmittedIsApplied(limits, m.memory, ms);
    NothingRun(limits, m);
    LogSteps(limits, m, id, ms, due);
    var begin := BeginTransaction(id, ms);
    var begun := Begun(m, id, ms);
    Then(limits, m, [], m, begin, begun);
    assert [] + [begin] == [begin];
    if io.CommitNotWritten? {
      Then(limits, m, [begin], begun, CommitFails, Step(limits, begun, CommitFails).value);
      assert [begin] + [CommitFails] == LogEvents(id, ms, io, due);
    } else if io.BothWritten? {
      Then(limits, m, [begin], begun, CommitTransaction(due), Step(limits, begun, CommitTransaction(due)).value);
      assert [begin] + [CommitTransaction(due)] == LogEvents(id, ms, io, due);
    }
  }

  function Rank(step: SnapshotStep): nat {
    match step
    case WriteFile => 5
    case WriteMetadata => 4
    case CompactLog => 3
    case WriteCompactedMetadata => 2
    case WriteBase => 1
  }

  /** The disk after an attempt from one of its steps on, and whether it went through. */
  ghost function AfterAttempt(
      disk: Disk, memory: Database, flush: FlushState, step: SnapshotStep, fails: Option<SnapshotStep>): (Disk, bool)
    decreases Rank(step)
  {
    if fails == Some(step) || (step.CompactLog? && CannotCompact(disk, flush)) then (disk, false)
    else
      var (written, next) := SnapshotWritten(disk, memory, flush, step);
      if step.WriteBase? then (written, true) else AfterAttempt(written, memory, flush, next, fails)
  }

  ghost function Attempted(m: Machine, step: SnapshotStep, fails: Option<SnapshotStep>): Machine {
    var (disk, done) := AfterAttempt(m.disk, m.memory, m.flush, step, fails);
    m.(disk := disk, phase := Idle,
       flush := if done then FlushState(0, m.flush.generation + 1, m.flush.lastTransactionId) else m.flush)
  }

  /** The machine goes from one state to the other without going down. */
  ghost predicate Performs(limits: StoreLimits, before: Machine, after: Machine) {
    exists es :: Uptime(es) && Run(limits, before, es) == Some(after)
  }

  lemma PerformsFirst(limits: StoreLimits, m: Machine, e: Event, mid: Machine, after: Machine)
    requires Step(limits, m, e) == Some(mid) && !e.Crash? && !e.Restart? && Performs(limits, mid, after)
    ensures Performs(limits, m, after)
  {
    hide Step, Run;
    var es :| Uptime(es) && Run(limits, mid, es) == Some(after);
    NothingRun(limits, m);
    Then(limits, m, [], m, e, mid);
    assert [] + [e] == [e];
    RunAppend(limits, m, [e], es);
    assert Uptime([e] + es);
  }

  lemma PerformsNothing(limits: StoreLimits, m: Machine)
    ensures Performs(limits, m, m)
  {
    NothingRun(limits, m);
    assert Uptime([]);
  }

  /** Up to five file writes, each a point where a crash may strike or the attempt fail. */
  lemma {:induction false} AttemptPerforms(limits: StoreLimits, m: Machine, fails: Option<SnapshotStep>)
    requires m.phase.Snapshotting?
    ensures Performs(limits, m, Attempted(m, m.phase.step, fails))
    decreases Rank(m.phase.step)
  {
    hide Compacted, Performs;
    var step, after := m.phase.step, Attempted(m, m.phase.step, fails);
    PerformsNothing(limits, after);
    if fails == Some(step) || (step.CompactLog? && CannotCompact(m.disk, m.flush)) {
      PerformsFirst(limits, m, SnapshotFails, after, after);
    } else {
      var mid := Step(limits, m, SnapshotWrite).value;
      if !step.WriteBase? {
        AttemptPerforms(limits, mid, fails);
      }
      PerformsFirst(limits, m, SnapshotWrite, mid, after);
    }
  }

  /** The log is cut behind the first commit of `id`, with a marker in its place. */
  ghost predicate CutBehind(lines: seq<Line>, id: string, after: seq<Line>) {
    exists i :: 0 <= i < |lines| && lines[i].content == Parsed(Commit(id)) && NotCommitted(lines[..i], id)
      && after == [Line(Parsed(CompactedAfter(id)), true)] + lines[i + 1..]
  }

  ghost predicate Committed(lines: seq<Line>, id: string) {
    exists i :: 0 <= i < |lines| && lines[i].content == Parsed(Commit(id))
  }

  /** There is such a commit. */
  ghost predicate HasCommit(disk: Disk, flush: FlushState) {
    flush.lastTransactionId.Some? && disk.log.Some?
    && Committed(disk.log.value, flush.lastTransactionId.value)
  }

  /** What an attempt that goes through leaves: the database in the file of the next generation
      and in the plain one, metadata that name that file and the last transaction, and the log
      cut behind that transaction exactly when it is in it, as the metadata then say. */
  lemma FinishedSnapshotLeaves(disk: Disk, memory: Database, flush: FlushState, fails: Option<SnapshotStep>)
    requires AfterAttempt(disk, memory, flush, WriteFile, fails).1
    ensures
      var after, g := AfterAttempt(disk, memory, flush, WriteFile, fails).0, flush.generation + 1;
      after.files == disk.files[GenerationSnapshot(g) := memory][BaseSnapshot := memory]
      && after.metadata
         == Some(Metadata(g, Some(GenerationSnapshot(g)), flush.lastTransactionId, HasCommit(disk, flush)))
      && if HasCommit(disk, flush) then
           after.log.Some? && CutBehind(disk.log.value, flush.lastTransactionId.value, after.log.value)
         else after.log == disk.log
  {
    hide ScanFails;
    if flush.lastTransactionId.Some? && disk.log.Some? {
      var lines, id := disk.log.value, flush.lastTransactionId.value;
      CutIsBehind(lines, id);
    }
    OneAttempt(disk, memory, flush, fails);
  }

  lemma CutIsBehind(lines: seq<Line>, id: string)
    ensures Compacted(lines, id).Some? <==> Committed(lines, id)
    ensures Compacted(lines, id).Some? ==> CutBehind(lines, id, Compacted(lines, id).value)
  {
    var cut := CommitLine(lines, id);
    if cut.Some? {
      assert lines[cut.value].content == Parsed(Commit(id)) && NotCommitted(lines[..cut.value], id);
    } else {
      forall i | 0 <= i < |lines| ensures lines[i].content != Parsed(Commit(id)) { assert !IsCommitOf(lines[i], id); }
    }
  }

  /** The steps of an attempt that goes through, written out. */
  lemma OneAttempt(disk: Disk, memory: Database, flush: FlushState, fails: Option<SnapshotStep>)
    requires AfterAttempt(disk, memory, flush, WriteFile, fails).1
    ensures
      var named := disk.(files := disk.files[GenerationSnapshot(flush.generation + 1) := memory],
                         metadata := Some(SnapshotMetadata(flush, false)));
      var cut := flush.lastTransactionId.Some? && disk.log.Some?
                 && Compacted(disk.log.value, flush.lastTransactionId.value).Some?;
      var shorter := if !cut then named
                     else named.(log := Compacted(disk.log.value, flush.lastTransactionId.value),
                                 metadata := Some(SnapshotMetadata(flush, true)));
      AfterAttempt(disk, memory, flush, WriteFile, fails).0
      == shorter.(files := shorter.files[BaseSnapshot := memory])
  {
    hide Compacted, CannotCompact;
    var first := SnapshotWritten(disk, memory, flush, WriteFile).0;
    var second := SnapshotWritten(first, memory, flush, WriteMetadata).0;
    var third := SnapshotWritten(second, memory, flush, CompactLog);
    var whole := AfterAttempt(disk, memory, flush, WriteFile, fails);
    assert whole == AfterAttempt(first, memory, flush, WriteMetadata, fails);
    assert whole == AfterAttempt(second, memory, flush, CompactLog, fails);
    assert whole == AfterAttempt(third.0, memory, flush, third.1, fails);
  }

  lemma CommitPerforms(limits: StoreLimits, m: Machine, id: string, ms: seq<Mutation>, io: LogWrites, due: bool,
                       fails: Option<SnapshotStep>)
    requires m.phase.Idle? && id !in m.usedIds && ms != [] && Admit(limits, m.memory, ms).Ok?
      && (due ==> io.BothWritten?)
    ensures
      var logged := Logged(m, id, ms, Admit(limits, m.memory, ms).value, io, Idle);
      Performs(limits, m, if due then Attempted(logged, WriteFile, fails) else logged)
  {
    hide Run, Admit, WithRecord, AfterAttempt, Step;
    LoggedIsRun(limits, m, id, ms, io, due);
    if due {
      var logged := Logged(m, id, ms, Admit(limits, m.memory, ms).value, io, Snapshotting(WriteFile));
      AttemptPerforms(limits, logged, fails);
      var end := Attempted(logged, WriteFile, fails);
      var es :| Uptime(es) && Run(limits, logged, es) == Some(end);
      RunAppend(limits, m, LogEvents(id, ms, io, true), es);
      assert Uptime(LogEvents(id, ms, io, true) + es);
    }
  }

  /** A store that starts from a reachable machine stays at one, whatever its methods do. */
  lemma PerformingStaysReached(limits: StoreLimits, m: Machine, spoiled: bool, after: Machine)
    requires Reached(limits, m, spoiled) && Performs(limits, m, after)
    ensures Reached(limits, after, false) || Reached(limits, after, true)
  {
    hide Reached, Run;
    var es :| Uptime(es) && Run(limits, m, es) == Some(after);
    ReachedOn(limits, m, spoiled, es);
  }

  /** What opening starts from. */
  lemma RestartedFrom(limits: StoreLimits, before: Machine, disk: Disk, loaded: Database)
    requires before.phase.Down? && before.disk == disk && Reached(limits, before, false)
    requires Open(limits.memoryLimitBytes, disk) == Ok(loaded)
    ensures var now := Machine(disk, loaded, LoadedFlushState(disk), Idle, before.committed, before.usedIds);
            Step(limits, before, Restart) == Some(now) && Reached(limits, now, false)
    ensures Sound(loaded) && Covered(loaded) && WithinLimits(limits, loaded)
  {
    hide Reached, Load, Sound, Covered, WithinLimits, LoadedFlushState, DatabaseBytes;
    RecoveredIsSound(limits, before);
    RestartIsReached(limits, before);
  }

  // ----- The store -----

  class Store {
    const limits: StoreLimits
    const ephemeral: bool
    const writeThreshold: nat
    var db: LiveDatabase
    var disk: Disk
    var flush: FlushState
    ghost var committed: seq<Mutation>
    ghost var usedIds: set<string>

    ghost function Now(): Machine
      reads this, db
    {
      Machine(disk, db.View(), flush, Idle, committed, usedIds)
    }

    /** What every method keeps, whatever it is asked to write. */
    ghost predicate Valid()
      reads this, db
    {
      Sound(db.View()) && Covered(db.View()) && WithinLimits(limits, db.View())
    }

    /** A store in memory only, or on an empty data directory, which is refused when not even
        an empty database fits the memory limit. */
    static method Create(limits: StoreLimits, ephemeral: bool, writeThreshold: nat) returns (r: Result<Store>)
      ensures r.Err? <==> !ephemeral && Open(limits.memoryLimitBytes, INITIAL_MACHINE.disk).Err?
      ensures r.Err? <==> !ephemeral && limits.memoryLimitBytes < 128
      ensures r.Ok? ==> fresh(r.value) && fresh(r.value.db) && r.value.Valid() && r.value.Now() == INITIAL_MACHINE
      ensures r.Ok? ==> Reached(limits, r.value.Now(), false)
      ensures r.Ok? ==> r.value.limits == limits && r.value.ephemeral == ephemeral
    {
      var bytes := EstimateDatabaseBytes(EMPTY_DATABASE);
      EmptyBytes();
      if !ephemeral && bytes > limits.memoryLimitBytes {
        return Err(InvalidData());
      }
      var store := new Store(limits, ephemeral, writeThreshold);
      return Ok(store);
    }

    constructor (limits: StoreLimits, ephemeral: bool, writeThreshold: nat)
      ensures fresh(db) && Valid() && Now() == INITIAL_MACHINE && Reached(limits, Now(), false)
      ensures this.limits == limits && this.ephemeral == ephemeral && this.writeThreshold == writeThreshold
    {
      this.limits, this.ephemeral, this.writeThreshold := limits, ephemeral, writeThreshold;
      db := new LiveDatabase.Clone(EMPTY_DATABASE);
      disk, flush := Disk(None, None, map[]), FlushState(0, 0, None);
      committed, usedIds := [], {};
      new;
      EmptyIsSound(limits);
      InitialIsReached(limits);
    }

    /** Reads the durable state back: the named snapshot, its sizes recounted, then the log. */
    static method LoadDurableState(limit: nat, disk: Disk) returns (r: Result<LiveDatabase>)
      requires disk.log.Some? ==> SplitAtNewlines(disk.log.value)
      ensures r.Ok? <==> Load(limit, disk).Ok?
      ensures r.Ok? ==> fresh(r.value) && r.value.View() == Load(limit, disk).value
    {
      hide DatabaseBytes, Normalized, Replay;
      var live := new LiveDatabase.Clone(EMPTY_DATABASE);
      var start := Beginning;
      if disk.metadata.Some? {
        var md := disk.metadata.value;
        var file := if md.snapshotFile.Some? then md.snapshotFile.value else BaseSnapshot;
        if file !in disk.files {
          return Err(InvalidData());
        }
        live := new LiveDatabase.Clone(disk.files[file]);
        live.RecomputeStoreSizes();
        var bytes := EstimateDatabaseBytes(live.View());
        if bytes > limit {
          return Err(InvalidData());
        }
        if !md.logCompacted && md.lastTransactionId.Some? {
          start := After(md.lastTransactionId.value);
        }
      }
      var replayed := ReplayFrom(limit, start, live, disk.log);
      if replayed.Err? {
        return Err(replayed.error);
      }
      return Ok(live);
    }

    /** Starts from what a reachable disk holds after a crash; `before` is the machine that went down. */
    constructor Recover(limits: StoreLimits, writeThreshold: nat, live: LiveDatabase, disk: Disk, ghost before: Machine)
      requires before.phase.Down? && before.disk == disk && Reached(limits, before, false)
      requires Open(limits.memoryLimitBytes, disk) == Ok(live.View())
      ensures Step(limits, before, Restart) == Some(Now()) && Reached(limits, Now(), false) && Valid()
      ensures db == live && this.disk == disk && committed == before.committed && usedIds == before.usedIds
      ensures this.limits == limits && !ephemeral && this.writeThreshold == writeThreshold
    {
      hide Reached, Open, Step, Sound, Covered, WithinLimits, LoadedFlushState;
      this.limits, this.ephemeral, this.writeThreshold := limits, false, writeThreshold;
      this.disk, flush := disk, LoadedFlushState(disk);
      db := live;
      committed, usedIds := before.committed, before.usedIds;
      new;
      RestartedFrom(limits, before, disk, live.View());
    }

    /** Opens a data directory: load, memory check, repair. The check comes before the repair
        here, to the same effect: a repair never adds to the estimate. */
    static method OpenDirectory(limits: StoreLimits, writeThreshold: nat, disk: Disk, decode: string -> string,
                                id: string, io: LogWrites, ghost before: Machine)
      returns (r: Result<Store>)
      requires before.phase.Down? && before.disk == disk && Reached(limits, before, false) && id !in before.usedIds
      requires forall s :: Utf8Len(decode(s)) <= Utf8Len(s)
      ensures Open(limits.memoryLimitBytes, disk).Err? ==> r.Err?
      ensures r.Err? ==> Open(limits.memoryLimitBytes, disk).Err? || !io.BothWritten?
      ensures r.Ok? ==> fresh(r.value) && fresh(r.value.db) && r.value.Valid() && r.value.limits == limits
      ensures r.Ok? ==> Step(limits, before, Restart).Some?
                        && Performs(limits, Step(limits, before, Restart).value, r.value.Now())
      ensures r.Ok? ==> Repaired(Open(limits.memoryLimitBytes, disk).value, decode, r.value.db.View())
    {
      hide Load, Run, Sound, Covered, WithinLimits, Step, Performs, Repaired, DatabaseBytes, Reached, Normalized,
        ApplyAll;
      ReachedLogIsWhole(limits, before);
      var live := LoadDurableState(limits.memoryLimitBytes, disk);
      if live.Err? {
        return Err(live.error);
      }
      var bytes := EstimateDatabaseBytes(live.value.View());
      if bytes > limits.memoryLimitBytes {
        return Err(InvalidData());
      }
      var store := new Store.Recover(limits, writeThreshold, live.value, disk, before);
      var repaired := store.RepairEncodedIds(decode, id, io);
      if repaired.Err? {
        return Err(repaired.error);
      }
      return Ok(store);
    }

    /** Renames documents stored under percent-encoded ids, as one logged transaction. */
    method RepairEncodedIds(decode: string -> string, id: string, io: LogWrites) returns (r: Result<()>)
      requires Valid() && !ephemeral && id !in usedIds
      requires DatabaseBytes(db.View()) <= limits.memoryLimitBytes
      requires forall s :: Utf8Len(decode(s)) <= Utf8Len(s)
      modifies db, this`disk, this`flush, this`committed, this`usedIds
      ensures Valid() && (r.Ok? || !io.BothWritten?)
      ensures Performs(limits, old(Now()), Now())
      ensures r.Ok? ==> Repaired(old(db.View()), decode, db.View())
      ensures r.Err? ==> db.View() == old(db.View())
    {
      hide GoodPlan, Sound, Covered, WithinLimits, Logged, ApplyAll, Admit, DatabaseBytes, Performs, LoadMutations,
        Owed;
      ghost var start := Now();
      var plan := PlanRepairs(db.View(), decode);
      if plan == [] {
        PerformsNothing(limits, start);
        AppliedNothing(start.memory);
        return Ok(());
      }
      RepairFits(limits, start.memory, plan);
      RepairPerforms(limits, start, id, plan, io);
      r := LogRepair(plan, id, io);
    }

    /** Logs the plan first and then applies it, looking at the memory limit after each rename. */
    method LogRepair(plan: seq<Mutation>, id: string, io: LogWrites) returns (r: Result<()>)
      requires LoadMutations(limits.memoryLimitBytes, db.View(), plan) == Loading(ApplyAll(db.View(), plan), true)
      modifies db, this`disk, this`flush, this`committed, this`usedIds
      ensures r.Ok? <==> io.BothWritten?
      ensures Now() == Logged(old(Now()), id, plan, ApplyAll(old(db.View()), plan), io, Idle)
    {
      hide LoadMutations, ApplyAll;
      if io.BeginNotWritten? {
        return Err(LogFailure());
      }
      disk := WithRecord(disk, Begin(id, plan));
      usedIds := usedIds + {id};
      if io.CommitNotWritten? {
        return Err(LogFailure());
      }
      disk := WithRecord(disk, Commit(id));
      var fits := LoadInto(limits.memoryLimitBytes, db, plan);
      flush := FlushState(flush.dirtyWrites + |plan|, flush.generation, Some(id));
      committed := committed + plan;
      return Ok(());
    }

    // ----- Logging a transaction -----

    /** Appends begin, swaps memory, appends commit; a failed commit swaps memory back. */
    method AppendCommittedTransaction(candidate: Database, ms: seq<Mutation>, id: string, io: LogWrites)
      returns (r: Result<()>)
      modifies this`db, this`disk, this`flush, this`committed, this`usedIds
      ensures r.Ok? <==> io.BothWritten?
      ensures if r.Ok? then fresh(db) else db == old(db)
      ensures Now() == Logged(old(Now()), id, ms, candidate, io, Idle)
    {
      if io.BeginNotWritten? {
        return Err(LogFailure());
      }
      disk := WithRecord(disk, Begin(id, ms));
      usedIds := usedIds + {id};
      var before := db;
      db := new LiveDatabase.Clone(candidate);
      if io.CommitNotWritten? {
        db := before;
        return Err(LogFailure());
      }
      disk := WithRecord(disk, Commit(id));
      flush := FlushState(flush.dirtyWrites + |ms|, flush.generation, Some(id));
      committed := committed + ms;
      return Ok(());
    }

    /** Writes the snapshot file, the metadata, the cut log, the metadata again, and the plain
        snapshot; an I/O failure ends it before the write that fails. */
    method WriteSnapshotGeneration(snapshot: Database, fails: Option<SnapshotStep>) returns (done: bool)
      modifies this`disk
      ensures (disk, done) == AfterAttempt(old(disk), snapshot, flush, WriteFile, fails)
    {
      hide Compacted;
      if fails == Some(WriteFile) {
        return false;
      }
      disk := disk.(files := disk.files[GenerationSnapshot(flush.generation + 1) := snapshot]);
      if fails == Some(WriteMetadata) {
        return false;
      }
      disk := disk.(metadata := Some(SnapshotMetadata(flush, false)));
      if fails == Some(CompactLog) {
        return false;
      }
      var compacted, log := CompactAfter(disk.log, flush.lastTransactionId);
      if compacted.Err? {
        return false;
      }
      disk := disk.(log := log);
      if compacted.value {
        if fails == Some(WriteCompactedMetadata) {
          return false;
        }
        disk := disk.(metadata := Some(SnapshotMetadata(flush, true)));
      }
      if fails == Some(WriteBase) {
        return false;
      }
      disk := disk.(files := disk.files[BaseSnapshot := snapshot]);
      return true;
    }

    /** Attempts a snapshot when enough writes have gathered or enough time has passed; only
        an attempt that went through counts its generation. */
    method AfterCommittedTransaction(intervalElapsed: bool, fails: Option<SnapshotStep>) returns (attempted: bool)
      modifies this`disk, this`flush
      ensures attempted <==> old(flush).dirtyWrites >= writeThreshold || intervalElapsed
      ensures Now() == if attempted then Attempted(old(Now()), WriteFile, fails) else old(Now())
    {
      if flush.dirtyWrites < writeThreshold && !intervalElapsed {
        return false;
      }
      var done := WriteSnapshotGeneration(db.View(), fails);
      if done {
        flush := FlushState(0, flush.generation + 1, flush.lastTransactionId);
      }
      return true;
    }

    /** The end of every commit path: memory only, or log, memory and perhaps a snapshot. */
    method CommitCandidate(candidate: Database, ms: seq<Mutation>, id: string, io: Outside)
      returns (r: Result<()>)
      requires Valid() && ms != [] && (!ephemeral ==> id !in usedIds)
      requires Sound(candidate) && Covered(candidate) && WithinLimits(limits, candidate)
      modifies this`db, this`disk, this`flush, this`committed, this`usedIds
      ensures Valid()
      ensures r.Ok? <==> ephemeral || io.log.BothWritten?
      ensures if r.Ok? then fresh(db) && db.View() == candidate else db == old(db)
      ensures r.Err? ==> committed == old(committed)
      ensures !ephemeral && r.Ok? ==> committed == old(committed) + ms
      ensures ephemeral ==> Now() == old(Now()).(memory := candidate)
      ensures !ephemeral && Admit(limits, old(db.View()), ms) == Ok(candidate) ==> Performs(limits, old(Now()), Now())
    {
      hide Admit, ApplyAll, Sound, Covered, WithinLimits, Logged, AfterAttempt, Performs;
      ghost var start := Now();
      if ephemeral {
        db := new LiveDatabase.Clone(candidate);
        return Ok(());
      }
      r := AppendCommittedTransaction(candidate, ms, id, io.log);
      LoggedParts(start, id, ms, candidate, io.log);
      var attempted := false;
      if r.Ok? {
        attempted := AfterCommittedTransaction(io.intervalElapsed, io.snapshotFails);
      }
      if Admit(limits, start.memory, ms) == Ok(candidate) {
        CommitPerforms(limits, start, id, ms, io.log, attempted, io.snapshotFails);
      }
    }

    // ----- The three commit paths -----

    /** All the mutations or none. */
    method CommitMutations(ms: seq<Mutation>, id: string, io: Outside) returns (r: Result<()>)
      requires Valid() && (!ephemeral ==> id !in usedIds)
      modifies this`db, this`disk, this`flush, this`committed, this`usedIds
      ensures Valid()
      ensures r.Ok? <==> Admit(limits, old(db.View()), ms).Ok? && (ms == [] || ephemeral || io.log.BothWritten?)
      ensures r.Ok? <==>
        Admission.AllAcceptable(limits, old(db.View()), ms) && (ms == [] || ephemeral || io.log.BothWritten?)
      ensures Admit(limits, old(db.View()), ms).Err? ==> r.error == Admit(limits, old(db.View()), ms).error
      ensures db.View() == if r.Ok? then Admit(limits, old(db.View()), ms).value else old(db.View())
      ensures Admit(limits, old(db.View()), ms).Err? ==> Now() == old(Now())
      ensures !ephemeral ==> Performs(limits, old(Now()), Now())
    {
      hide AdmitOne, Sound, Covered, WithinLimits, Applied, ApplyAll, ValidateMutation, DatabaseBytes, Run;
      ghost var before := db.View();
      PerformsNothing(limits, Now());
      Admission.BatchAdmittedExactlyWhen(limits, before, ms);
      if ms == [] {
        return Ok(());
      }
      var candidate := new LiveDatabase.Clone(db.View());
      var i := 0;
      while i < |ms|
        modifies candidate
        invariant 0 <= i <= |ms| && fresh(candidate)
        invariant Admit(limits, before, ms[..i]) == Ok(candidate.View())
        invariant Sound(candidate.View()) && Covered(candidate.View()) && WithinLimits(limits, candidate.View())
      {
        assert ms[..i + 1][..i] == ms[..i];
        ghost var mid := candidate.View();
        var valid := ValidateMutation(limits, candidate.View(), ms[i]);
        if valid.Err? {
          RefusedHere(limits, mid, ms[i]);
          AdmitErrorsStay(limits, before, ms, i + 1);
          return Err(valid.error);
        }
        candidate.Apply(ms[i]);
        var bytes := EstimateDatabaseBytes(candidate.View());
        if bytes > limits.memoryLimitBytes {
          RefusedHere(limits, mid, ms[i]);
          AdmitErrorsStay(limits, before, ms, i + 1);
          return Err(ResourceLimit());
        }
        RefusedHere(limits, mid, ms[i]);
        ValidatedMutationKeepsSound(limits, mid, ms[i]);
        MutationKeepsCovered(mid, ms[i]);
        i := i + 1;
      }
      assert ms[..|ms|] == ms;
      r := CommitCandidate(candidate.View(), ms, id, io);
    }

    /** A batch built from the database as it is, then every operation or none; what the
        builder says besides is handed through. */
    method ApplyDynamicWriteOperationsAtomic<T>(
        build: Database -> Result<(seq<WriteOperation>, T)>, id: string, io: Outside)
      returns (r: Result<(seq<WriteOutcome>, T)>)
      requires Valid() && (!ephemeral ==> id !in usedIds)
      modifies this`db, this`disk, this`flush, this`committed, this`usedIds
      ensures Valid()
      ensures r.Ok? ==> Planned(limits, old(db.View()), build).Ok?
      ensures Planned(limits, old(db.View()), build).Ok? <==>
        var plan := build(old(db.View()));
        plan.Ok? && Operations.AllAcceptedInTurn(limits, old(db.View()), plan.value.0)
      ensures Planned(limits, old(db.View()), build).Ok? ==>
        (r.Ok? <==> Planned(limits, old(db.View()), build).value.mutations == [] || ephemeral || io.log.BothWritten?)
      ensures r.Ok? ==>
        r.value == (Planned(limits, old(db.View()), build).value.outcomes, build(old(db.View())).value.1)
      ensures Planned(limits, old(db.View()), build).Err? ==>
        r == Err(Planned(limits, old(db.View()), build).error) && Now() == old(Now())
      ensures db.View() == if r.Ok? then Planned(limits, old(db.View()), build).value.db else old(db.View())
      ensures !ephemeral ==> Performs(limits, old(Now()), Now())
    {
      hide AtomicStep, Sound, Covered, WithinLimits, ApplyAll, Admit, Run, Operations.AllAcceptedInTurn;
      ghost var before := db.View();
      PerformsNothing(limits, Now());
      var plan := build(db.View());
      if plan.Err? {
        return Err(plan.error);
      }
      var (ops, metadata) := plan.value;
      Operations.AtomicBatchExactlyWhen(limits, before, ops);
      var st := Batch(db.View(), [], []);
      var i := 0;
      while i < |ops|
        modifies {}
        invariant 0 <= i <= |ops|
        invariant RunAtomic(limits, before, ops[..i]) == Ok(st)
      {
        assert ops[..i + 1][..i] == ops[..i];
        var next := ApplyOperation(st, ops[i]);
        if next.Err? {
          AtomicErrorsStay(limits, before, ops, i + 1);
          return Err(next.error);
        }
        st := next.value;
        i := i + 1;
      }
      assert ops[..|ops|] == ops;
      AtomicBatchIsItsMutations(limits, before, ops);
      AdmittedIsApplied(limits, before, st.mutations);
      if st.mutations == [] {
        AdmitNothing(limits, before);
        return Ok((st.outcomes, metadata));
      }
      AdmittedIsCovered(before, st.mutations);
      var committed := CommitCandidate(st.db, st.mutations, id, io);
      r := if committed.Ok? then Ok((st.outcomes, metadata)) else Err(committed.error);
    }

    /** Prepares one operation of an atomic batch and applies its mutations to the candidate. */
    method ApplyOperation(st: Batch, op: WriteOperation) returns (r: Result<Batch>)
      ensures r == AtomicStep(limits, st, op)
    {
      hide AdmitOne, Prepare, ValidateMutation, Applied, DatabaseBytes, Outcome;
      var prepared := Prepare(st.db, op);
      if prepared.Err? {
        return Err(prepared.error);
      }
      var ms := prepared.value.mutations;
      var candidate := new LiveDatabase.Clone(st.db);
      var i := 0;
      while i < |ms|
        modifies candidate
        invariant 0 <= i <= |ms| && fresh(candidate)
        invariant Admit(limits, st.db, ms[..i]) == Ok(candidate.View())
      {
        assert ms[..i + 1][..i] == ms[..i];
        ghost var mid := candidate.View();
        RefusedHere(limits, mid, ms[i]);
        var valid := ValidateMutation(limits, candidate.View(), ms[i]);
        if valid.Err? {
          AdmitErrorsStay(limits, st.db, ms, i + 1);
          return Err(valid.error);
        }
        candidate.Apply(ms[i]);
        var bytes := EstimateDatabaseBytes(candidate.View());
        if bytes > limits.memoryLimitBytes {
          AdmitErrorsStay(limits, st.db, ms, i + 1);
          return Err(ResourceLimit());
        }
        i := i + 1;
      }
      assert ms[..|ms|] == ms;
      var outcome := Outcome(candidate.View(), prepared.value.outcome);
      if outcome.Err? {
        return Err(outcome.error);
      }
      return Ok(Batch(candidate.View(), st.mutations + ms, st.outcomes + [outcome.value]));
    }

    /** Each operation on its own, all the accepted ones in one transaction. */
    method ApplyWriteOperations(ops: seq<WriteOperation>, id: string, io: Outside)
      returns (r: Result<seq<Result<WriteOutcome>>>)
      requires Valid() && (!ephemeral ==> id !in usedIds)
      modifies this`db, this`disk, this`flush, this`committed, this`usedIds
      ensures Valid()
      ensures r.Ok? <==> RunBulk(limits, old(db.View()), ops).mutations == [] || ephemeral || io.log.BothWritten?
      ensures r.Ok? ==> r.value == RunBulk(limits, old(db.View()), ops).results
      ensures r.Ok? ==> Operations.AllAnsweredInTurn(limits, old(db.View()), ops, r.value)
      ensures db.View() ==
        if r.Ok? then Installed(old(db.View()), RunBulk(limits, old(db.View()), ops)) else old(db.View())
      ensures RunBulk(limits, old(db.View()), ops).mutations == [] ==> Now() == old(Now())
      ensures var before := old(db.View());
              !ephemeral && (RunBulk(limits, before, ops).mutations == [] || NoStrays(limits, before, ops)) ==>
                Performs(limits, old(Now()), Now())
    {
      hide BulkStep, Sound, Covered, WithinLimits, ApplyAll, Admit, Run, NoStrays, Operations.AllAnsweredInTurn;
      ghost var before := db.View();
      PerformsNothing(limits, Now());
      var st := BulkState(db.View(), [], []);
      var i := 0;
      while i < |ops|
        modifies {}
        invariant 0 <= i <= |ops|
        invariant RunBulk(limits, before, ops[..i]) == st && Covered(st.db)
      {
        assert ops[..i + 1][..i] == ops[..i];
        st := AttemptOperation(st, ops[i]);
        BulkIsAdmitted(limits, before, ops[..i + 1]);
        i := i + 1;
      }
      assert ops[..|ops|] == ops;
      BulkIsAdmitted(limits, before, ops);
      Operations.BulkBatchExactlyWhen(limits, before, ops);
      if st.mutations == [] {
        return Ok(st.results);
      }
      BulkKeepsLimits(limits, before, ops);
      var committed := CommitCandidate(st.db, st.mutations, id, io);
      r := if committed.Ok? then Ok(st.results) else Err(committed.error);
    }

    /** The memory check of the bulk path: predicted where a prediction exists. */
    method ValidateMemoryAfterMutation(db: Database, m: Mutation) returns (fits: bool)
      requires Covered(db) && ValidateMutation(limits, db, m).Ok?
      ensures fits <==> DatabaseBytes(Applied(db, m)) <= limits.memoryLimitBytes
    {
      CreatesOnlyNewIndexes(limits, db, m);
      hide ValidateMutation, Applied, DatabaseBytes, MutationSizeDelta;
      FastCheckIsExact(db, m);
      var delta := MutationSizeDelta(db, m);
      var bytes: nat;
      if delta.Some? {
        bytes := EstimateDatabaseBytes(db);
        bytes := delta.value.ApplyTo(bytes);
      } else {
        var candidate := new LiveDatabase.Clone(db);
        candidate.Apply(m);
        bytes := EstimateDatabaseBytes(candidate.View());
      }
      return bytes <= limits.memoryLimitBytes;
    }

    /** One operation of a bulk batch; what it applied before a refusal stays in the candidate. */
    method AttemptOperation(st: BulkState, op: WriteOperation) returns (next: BulkState)
      requires Covered(st.db)
      ensures next == BulkStep(limits, st, op)
    {
      hide AdmitOne, Prepare, ValidateMutation, Applied, DatabaseBytes, Outcome, Covered;
      var prepared := Prepare(st.db, op);
      if prepared.Err? {
        return BulkState(st.db, st.mutations, st.results + [Err(prepared.error)]);
      }
      var ms := prepared.value.mutations;
      var candidate := new LiveDatabase.Clone(st.db);
      var refusal: Option<StoreError> := None;
      var i := 0;
      while i < |ms| && refusal.None?
        modifies candidate
        invariant 0 <= i <= |ms| && fresh(candidate) && Covered(candidate.View())
        invariant AdmitUntilRefused(limits, st.db, ms[..i]) == Admission(candidate.View(), refusal)
      {
        assert ms[..i + 1][..i] == ms[..i];
        ghost var mid := candidate.View();
        RefusedHere(limits, mid, ms[i]);
        var valid := ValidateMutation(limits, candidate.View(), ms[i]);
        if valid.Err? {
          refusal := Some(valid.error);
        } else {
          var fits := ValidateMemoryAfterMutation(candidate.View(), ms[i]);
          if fits {
            candidate.Apply(ms[i]);
            MutationKeepsCovered(mid, ms[i]);
          } else {
            refusal := Some(ResourceLimit());
          }
        }
        i := i + 1;
      }
      if refusal.Some? {
        RefusalsStay(limits, st.db, ms, i);
        return BulkState(candidate.View(), st.mutations, st.results + [Err(refusal.value)]);
      }
      assert ms[..|ms|] == ms;
      var outcome := Outcome(candidate.View(), prepared.value.outcome);
      if outcome.Err? {
        return BulkState(candidate.View(), st.mutations, st.results + [Err(outcome.error)]);
      }
      return BulkState(candidate.View(), st.mutations + ms, st.results + [Ok(outcome.value)]);
    }
  }

  ghost function Planned<T>(
      limits: StoreLimits, before: Database, build: Database -> Result<(seq<WriteOperation>, T)>): Result<Batch>
  {
    match build(before)
    case Err(e) => Err(e)
    case Ok((ops, _)) => RunAtomic(limits, before, ops)
  }

  /** Admission is validation and then the memory limit. */
  lemma RefusedHere(limits: StoreLimits, db: Database, m: Mutation)
    ensures AdmitOne(limits, db, m) ==
      if ValidateMutation(limits, db, m).Err? then Err(ValidateMutation(limits, db, m).error)
      else if DatabaseBytes(Applied(db, m)) > limits.memoryLimitBytes then Err(ResourceLimit())
      else Ok(Applied(db, m))
  {
    hide ValidateMutation, DatabaseBytes, Applied;
  }

  lemma CreatesOnlyNewIndexes(limits: StoreLimits, db: Database, m: Mutation)
    requires ValidateMutation(limits, db, m).Ok?
    ensures !(m.CreateIndex? && m.name in db.indexes)
  {
    hide ValidateDocumentMutation;
  }

  lemma AdmittedIsCovered(db: Database, ms: seq<Mutation>)
    requires Covered(db)
    ensures Covered(ApplyAll(db, ms))
  {
    hide Covered;
    CacheNeverUndercounts(db, ms);
  }

  lemma LoggedParts(m: Machine, id: string, ms: seq<Mutation>, candidate: Database, io: LogWrites)
    ensures
      var after := Logged(m, id, ms, candidate, io, Idle);
      after.memory == (if io.BothWritten? then candidate else m.memory)
      && after.committed == (if io.BothWritten? then m.committed + ms else m.committed)
  {
  }

  /** A good plan is admitted, loads within the limit, and keeps the store valid. */
  lemma RepairFits(limits: StoreLimits, db: Database, plan: seq<Mutation>)
    requires Sound(db) && Covered(db) && GoodPlan(db, plan) && DatabaseBytes(db) <= limits.memoryLimitBytes
    requires forall i :: 0 <= i < |plan| ==> Utf8Len(plan[i].newId) <= Utf8Len(plan[i].oldId)
    ensures Admit(limits, db, plan) == Ok(ApplyAll(db, plan))
    ensures LoadMutations(limits.memoryLimitBytes, db, plan) == Loading(ApplyAll(db, plan), true)
    ensures Sound(ApplyAll(db, plan)) && Covered(ApplyAll(db, plan))
    ensures WithinLimits(limits, db) ==> WithinLimits(limits, ApplyAll(db, plan))
  {
    RepairIsAdmitted(limits, db, plan);
    hide ApplyAll, Admit, DatabaseBytes, Sound, Covered, WithinLimits, SmallerCache, LoadMutations, GoodPlan;
    AdmittedIsApplied(limits, db, plan);
    SmallerThanItself(db);
    AdmittedLoads(limits, db, db, plan);
  }

  lemma RepairPerforms(limits: StoreLimits, m: Machine, id: string, plan: seq<Mutation>, io: LogWrites)
    requires m.phase.Idle? && id !in m.usedIds && plan != []
    requires Admit(limits, m.memory, plan) == Ok(ApplyAll(m.memory, plan))
    ensures
      var after := Logged(m, id, plan, ApplyAll(m.memory, plan), io, Idle);
      Performs(limits, m, after) && after.memory == if io.BothWritten? then ApplyAll(m.memory, plan) else m.memory
  {
    hide Logged, ApplyAll, Admit, Performs;
    CommitPerforms(limits, m, id, plan, io, false, None);
    LoggedParts(m, id, plan, ApplyAll(m.memory, plan), io);
  }

  /** The database a complete repair leaves: exactly the owed renames, applied. */
  ghost predicate Repaired(before: Database, decode: string -> string, after: Database) {
    exists plan :: RepairsExactly(before, decode, plan) && after == ApplyAll(before, plan)
  }
}
