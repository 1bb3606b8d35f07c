/** Crash-safe recovery over whole runs, late snapshot failures included: what a load
    finds in every reachable state of the disk. */
module Recovery {
  import opened Prelude
  import opened Catalog
  import opened CatalogInvariant
  import opened SizeCache
  import opened MutationLog
  import opened Writes
  import opened Durability

  // ----- Where recovery can be lost -----

  /** A snapshot file written over the one the metadata names: the generation number was
      given away by an attempt that failed after its metadata was written. */
  predicate Overwrites(m: Machine, e: Event) {
    e.SnapshotWrite? && m.phase == Snapshotting(WriteFile) && m.disk.metadata.Some?
    && m.disk.metadata.value.snapshotFile == Some(GenerationSnapshot(m.flush.generation + 1))
  }

  /** New metadata, which takes the log's tail off the load. */
  predicate Renews(m: Machine, e: Event) {
    e.SnapshotWrite? && m.phase == Snapshotting(WriteMetadata)
  }

  predicate SpoiledNext(m: Machine, e: Event, spoiled: bool) {
    Overwrites(m, e) || (spoiled && !Renews(m, e))
  }

  /** The file the metadata names has been overwritten and the metadata not yet renewed. */
  predicate Spoiled(limits: StoreLimits, es: seq<Event>)
    decreases |es|
  {
    if es == [] then false else
    var n := |es| - 1;
    var before := Run(limits, INITIAL_MACHINE, es[..n]);
    before.Some? && SpoiledNext(before.value, es[n], Spoiled(limits, es[..n]))
  }

  /** No process starts from a spoiled disk. Snapshots may fail anywhere and crashes strike anywhere. */
  ghost predicate NoSpoiledRestart(limits: StoreLimits, es: seq<Event>) {
    forall i :: 0 <= i < |es| && es[i].Restart? ==> !Spoiled(limits, es[..i])
  }

  // ----- A twin that never gives a generation away -----

  predicate Early(phase: Phase) {
    !phase.Snapshotting? || phase.step.WriteFile? || phase.step.WriteMetadata?
  }

  predicate Level(m: Machine, t: Machine) {
    t.flush.generation == m.flush.generation
  }

  /** The machine counts one generation less than its metadata. */
  predicate Behind(m: Machine, t: Machine) {
    Early(m.phase) && m.disk.metadata.Some?
    && t.flush.generation == m.disk.metadata.value.generation == m.flush.generation + 1
  }

  predicate SameNamed(a: Disk, b: Disk) {
    a.metadata == b.metadata
    && (a.metadata.Some? && a.metadata.value.snapshotFile.Some? ==>
          HoldsSame(a.files, b.files, a.metadata.value.snapshotFile.value))
  }

  predicate HoldsSame(a: map<FileName, Database>, b: map<FileName, Database>, file: FileName) {
    file in a && file in b && a[file] == b[file]
  }

  predicate NewFileReady(m: Machine) {
    m.phase.Snapshotting? && !m.phase.step.WriteFile? && !m.phase.step.WriteBase? ==>
      var file := GenerationSnapshot(m.flush.generation + 1);
      file in m.disk.files && m.disk.files[file] == m.memory
  }

  /** The twin differs from the machine in its files and its generation counter only. */
  predicate Mirrors(m: Machine, t: Machine, spoiled: bool) {
    t == m.(disk := m.disk.(files := t.disk.files), flush := m.flush.(generation := t.flush.generation))
    && (Level(m, t) || Behind(m, t)) && NewFileReady(m)
    && (if spoiled then Behind(m, t) else SameNamed(m.disk, t.disk))
    && (Behind(m, t) && m.phase == Snapshotting(WriteMetadata) ==> spoiled)
  }

  lemma SameNamedLoads(limit: nat, a: Disk, b: Disk)
    requires SameNamed(a, b) && a.log == b.log && GenerationNamed(a)
    ensures Load(limit, a) == Load(limit, b) && Open(limit, a) == Open(limit, b)
  {
    hide Normalized, DatabaseBytes, Replay;
  }

  predicate GenerationNamed(disk: Disk) {
    disk.metadata.Some? ==>
      disk.metadata.value.snapshotFile == Some(GenerationSnapshot(disk.metadata.value.generation))
  }

  /** Counting the failed attempt after all, the invariant holds. */
  lemma LateFailureCaughtUp(limits: StoreLimits, m: Machine)
    requires Inv(limits, m) && LateFailure(m, SnapshotFails)
    ensures Inv(limits, m.(phase := Idle, flush := m.flush.(generation := m.flush.generation + 1)))
  {
    hide ReplayLines, Covered, LoadSnapshot, DatabaseBytes, SmallerCache, IsHighWater, ApplyAll;
  }

  /** New metadata renews the load, whichever generation it names. */
  lemma RenewalKeepsInv(limits: StoreLimits, m: Machine, t: Machine)
    requires Inv(limits, t) && Mirrors(m, t, true) && m.phase == Snapshotting(WriteMetadata)
    ensures Inv(limits, Step(limits, m, SnapshotWrite).value)
  {
    hide ReplayLines, ApplyAll, Covered, SmallerCache, DatabaseBytes, Normalized, LoadSnapshot;
    var metadata := SnapshotMetadata(m.flush, false);
    SnapshotLoads(limits, m, metadata, m.disk.files);
    LoadsIsReadable(limits.memoryLimitBytes, t.disk);
    NothingAfterMark(limits.memoryLimitBytes, Normalized(m.memory), m.disk, m.flush.lastTransactionId.value);
  }

  /** What the twin's invariant says about generations. */
  ghost predicate GenerationsFit(t: Machine) {
    GenerationNamed(t.disk) && NewFileReady(t)
    && (Early(t.phase) && !t.phase.Down? && t.disk.metadata.Some? ==>
          t.flush.generation == t.disk.metadata.value.generation)
    && (!Early(t.phase) ==>
          t.disk.metadata.Some? && t.disk.metadata.value.generation == t.flush.generation + 1)
  }

  lemma InvNamesGeneration(limits: StoreLimits, t: Machine)
    requires Inv(limits, t)
    ensures GenerationsFit(t)
  {
    hide ReplayLines, Covered, LoadSnapshot, DatabaseBytes, SmallerCache, IsHighWater, ApplyAll;
  }

  lemma LateFailureMirrors(limits: StoreLimits, m: Machine, t: Machine, spoiled: bool)
    requires Mirrors(m, t, spoiled) && GenerationsFit(t) && LateFailure(m, SnapshotFails)
    ensures LateFailure(t, SnapshotFails)
    ensures Mirrors(Step(limits, m, SnapshotFails).value,
                    t.(phase := Idle, flush := t.flush.(generation := t.flush.generation + 1)), spoiled)
  {
  }

  lemma RenewalMirrors(limits: StoreLimits, m: Machine, t: Machine, spoiled: bool)
    requires Mirrors(m, t, spoiled) && GenerationsFit(t) && m.phase == Snapshotting(WriteMetadata) && Behind(m, t)
    ensures spoiled
    ensures var after := Step(limits, m, SnapshotWrite).value; Mirrors(after, after, false)
  {
  }

  lemma WriteMirrors(limits: StoreLimits, m: Machine, t: Machine, spoiled: bool)
    requires Mirrors(m, t, spoiled) && GenerationsFit(t) && Step(limits, m, SnapshotWrite).Some?
    requires !(m.phase == Snapshotting(WriteMetadata) && Behind(m, t))
    ensures Step(limits, t, SnapshotWrite).Some?
    ensures Mirrors(Step(limits, m, SnapshotWrite).value, Step(limits, t, SnapshotWrite).value,
                    SpoiledNext(m, SnapshotWrite, spoiled))
  {
    hide Compacted;
  }

  lemma OtherStepMirrors(limits: StoreLimits, m: Machine, t: Machine, spoiled: bool, e: Event)
    requires Mirrors(m, t, spoiled) && GenerationsFit(t) && Step(limits, m, e).Some?
    requires !e.SnapshotWrite? && !LateFailure(m, e) && (e.Restart? ==> !spoiled)
    ensures Step(limits, t, e).Some? && !LateFailure(t, e)
    ensures Mirrors(Step(limits, m, e).value, Step(limits, t, e).value, SpoiledNext(m, e, spoiled))
  {
    hide Admit, ApplyAll, Open;
    if e.Restart? {
      SameNamedLoads(limits.memoryLimitBytes, m.disk, t.disk);
    }
  }

  /** Whatever the machine does, its twin has a state of its own to match. */
  lemma MirrorStep(limits: StoreLimits, m: Machine, t: Machine, spoiled: bool, e: Event) returns (u: Machine)
    requires Inv(limits, t) && Mirrors(m, t, spoiled) && Step(limits, m, e).Some? && (e.Restart? ==> !spoiled)
    ensures Inv(limits, u) && Mirrors(Step(limits, m, e).value, u, SpoiledNext(m, e, spoiled))
  {
    hide Inv, Admit, ApplyAll, Open, Compacted, Step, Mirrors;
    InvNamesGeneration(limits, t);
    if LateFailure(m, e) {
      LateFailureMirrors(limits, m, t, spoiled);
      LateFailureCaughtUp(limits, t);
      u := t.(phase := Idle, flush := t.flush.(generation := t.flush.generation + 1));
    } else if Renews(m, e) && Behind(m, t) {
      RenewalMirrors(limits, m, t, spoiled);
      RenewalKeepsInv(limits, m, t);
      u := Step(limits, m, e).value;
    } else {
      if e.SnapshotWrite? {
        WriteMirrors(limits, m, t, spoiled);
      } else {
        OtherStepMirrors(limits, m, t, spoiled, e);
      }
      StepKeepsInv(limits, t, e);
      u := Step(limits, t, e).value;
    }
  }

  // ----- What the log adds to the snapshot -----

  function LogTail(disk: Disk): Tail {
    TailOf(StartOf(disk.metadata), Lines(disk))
  }

  /** How many of the committed mutations the named snapshot holds, unless it was overwritten. */
  function InSnapshot(m: Machine): int {
    |m.committed| - |LogTail(m.disk).loaded|
  }

  /** The log's tail is the end of what was committed, and not empty while a snapshot is begun. */
  predicate Traced(m: Machine) {
    Whole(Lines(m.disk)) && 0 <= InSnapshot(m) <= |m.committed|
    && m.committed[InSnapshot(m)..] == LogTail(m.disk).loaded
    && (m.phase.Snapshotting? && Early(m.phase) ==> LogTail(m.disk).loaded != [])
  }

  lemma {:induction false} TailSkips(id: string, lines: seq<Line>)
    requires forall i :: 0 <= i < |lines| ==> !IsHighWater(lines[i], id)
    ensures TailOf(After(id), lines) == Tail([], map[], true)
  {
    if lines != [] {
      TailSkips(id, lines[..|lines| - 1]);
    }
  }

  lemma NoTailAfterMark(disk: Disk, id: string)
    requires EndsWithMark(disk, id)
    ensures TailOf(After(id), Lines(disk)) == Tail([], map[], false)
  {
    TailSkips(id, Lines(disk)[..|Lines(disk)| - 1]);
  }

  lemma NoTailInMarker(id: string)
    ensures TailOf(Beginning, [Line(Parsed(CompactedAfter(id)), true)]) == Tail([], map[], false)
    ensures TailOf(After(id), [Line(Parsed(CompactedAfter(id)), true)]) == Tail([], map[], false)
  {
    assert [Line(Parsed(CompactedAfter(id)), true)][..0] == [];
  }

  lemma TailOneMore(start: ReplayStart, lines: seq<Line>, line: Line)
    ensures TailOf(start, lines + [line]) == TailLine(start, TailOf(start, lines), line)
  {
    assert (lines + [line])[..|lines + [line]| - 1] == lines;
  }

  /** The transaction being committed waits in the tail. */
  lemma PendingInTail(limits: StoreLimits, m: Machine, t: Machine, spoiled: bool)
    requires Inv(limits, t) && Mirrors(m, t, spoiled) && Whole(Lines(m.disk)) && m.phase.Committing?
    ensures var tail := LogTail(m.disk);
            !tail.waiting && m.phase.id in tail.pending && tail.pending[m.phase.id] == m.phase.mutations
    ensures m.phase.mutations != [] && Admit(limits, m.memory, m.phase.mutations).Ok?
  {
    hide LoadSnapshot, ReplayLines, Admit, ApplyAll, Covered, SmallerCache, LoadMutations, DatabaseBytes, TailOf;
    var base := LoadSnapshot(limits.memoryLimitBytes, t.disk.metadata, t.disk.files).value;
    ReplayLoadsTail(limits.memoryLimitBytes, StartOf(t.disk.metadata), base, Lines(t.disk));
  }

  lemma CommittedTail(start: ReplayStart, lines: seq<Line>, id: string, line: Line)
    requires line == Line(Parsed(Commit(id)), true)
    requires !TailOf(start, lines).waiting && id in TailOf(start, lines).pending
    ensures TailOf(start, lines + [line]).loaded == TailOf(start, lines).loaded + TailOf(start, lines).pending[id]
  {
    hide TailOf;
    TailOneMore(start, lines, line);
  }

  lemma WithRecordLines(disk: Disk, record: Record)
    requires Whole(Lines(disk))
    ensures Lines(WithRecord(disk, record)) == Lines(disk) + [Line(Parsed(record), true)]
    ensures WithRecord(disk, record).metadata == disk.metadata && Whole(Lines(WithRecord(disk, record)))
  {
  }

  lemma CommitTraces(limits: StoreLimits, m: Machine, t: Machine, spoiled: bool, due: bool)
    requires Inv(limits, t) && Mirrors(m, t, spoiled) && Traced(m)
    requires Step(limits, m, CommitTransaction(due)).Some?
    ensures var after := Step(limits, m, CommitTransaction(due)).value;
            Traced(after) && InSnapshot(after) == InSnapshot(m)
  {
    hide Inv, Mirrors, TailOf, ApplyAll, WithRecord, Lines, Whole, Admit;
    PendingInTail(limits, m, t, spoiled);
    WithRecordLines(m.disk, Commit(m.phase.id));
    CommittedTail(StartOf(m.disk.metadata), Lines(m.disk), m.phase.id, Line(Parsed(Commit(m.phase.id)), true));
    var ms, n := m.phase.mutations, InSnapshot(m);
    assert (m.committed + ms)[n..] == m.committed[n..] + ms;
  }

  lemma BeginTraces(limits: StoreLimits, m: Machine, id: string, ms: seq<Mutation>)
    requires Traced(m) && Step(limits, m, BeginTransaction(id, ms)).Some?
    ensures var after := Step(limits, m, BeginTransaction(id, ms)).value;
            Traced(after) && InSnapshot(after) == InSnapshot(m)
  {
    hide TailOf, Admit;
    TailOneMore(StartOf(m.disk.metadata), Lines(m.disk), Line(Parsed(Begin(id, ms)), true));
  }

  /** What the invariant says about the log of a snapshot in progress. */
  lemma SnapshotLog(limits: StoreLimits, t: Machine)
    requires Inv(limits, t) && t.phase.Snapshotting?
    ensures t.flush.lastTransactionId.Some? && EndsWithMark(t.disk, t.flush.lastTransactionId.value)
    ensures DatabaseBytes(t.memory) <= limits.memoryLimitBytes
    ensures t.phase.step.WriteCompactedMetadata? ==>
      Lines(t.disk) == [Line(Parsed(CompactedAfter(t.flush.lastTransactionId.value)), true)]
    ensures t.phase.step.CompactLog? ==> t.disk.metadata == Some(SnapshotMetadata(t.flush, false))
  {
    hide ReplayLines, ApplyAll, Covered, SmallerCache, DatabaseBytes, LoadSnapshot, IsHighWater;
  }

  lemma WriteTraces(limits: StoreLimits, m: Machine, t: Machine, u: Machine, spoiled: bool)
    requires Inv(limits, t) && Mirrors(m, t, spoiled) && Traced(m) && Step(limits, m, SnapshotWrite).Some?
    requires Inv(limits, u) && Mirrors(Step(limits, m, SnapshotWrite).value, u, SpoiledNext(m, SnapshotWrite, spoiled))
    ensures Traced(Step(limits, m, SnapshotWrite).value)
  {
    hide Inv, TailOf, ApplyAll, EndsWithMark, IsHighWater, Compacted, NewFileReady, SameNamed, Behind, Level;
    var after := Step(limits, m, SnapshotWrite).value;
    SnapshotLog(limits, t);
    var id := m.flush.lastTransactionId.value;
    NoTailInMarker(id);
    match m.phase.step {
      case WriteFile =>
      case WriteMetadata => NoTailAfterMark(t.disk, id);
      case CompactLog =>
        NoTailAfterMark(t.disk, id);
        if after.phase.step.WriteCompactedMetadata? {
          SnapshotLog(limits, u);
        }
      case WriteCompactedMetadata =>
      case WriteBase =>
    }
  }

  lemma StepTraces(limits: StoreLimits, m: Machine, t: Machine, u: Machine, spoiled: bool, e: Event)
    requires Inv(limits, t) && Mirrors(m, t, spoiled) && Traced(m) && Step(limits, m, e).Some?
    requires Inv(limits, u) && Mirrors(Step(limits, m, e).value, u, SpoiledNext(m, e, spoiled))
    ensures Traced(Step(limits, m, e).value)
    ensures !e.SnapshotWrite? ==> InSnapshot(Step(limits, m, e).value) == InSnapshot(m)
  {
    match e
    case BeginTransaction(id, ms) => BeginTraces(limits, m, id, ms);
    case CommitTransaction(due) => CommitTraces(limits, m, t, spoiled, due);
    case SnapshotWrite => WriteTraces(limits, m, t, u, spoiled);
    case CommitFails =>
    case SnapshotFails =>
    case Crash =>
    case Restart =>
  }

  // ----- What a spoiled disk holds -----

  /** The named file holds the first `k` committed mutations, at least one of which the
      log's tail holds too. */
  ghost predicate Overwritten(limit: nat, m: Machine, k: nat) {
    InSnapshot(m) < k <= |m.committed| && m.disk.metadata.Some? && m.disk.metadata.value.snapshotFile.Some?
    && m.disk.metadata.value.snapshotFile.value in m.disk.files
    && var file := Normalized(m.disk.files[m.disk.metadata.value.snapshotFile.value]);
       file == Normalized(ApplyAll(EMPTY_DATABASE, m.committed[..k])) && DatabaseBytes(file) <= limit
  }

  lemma OverwritingHoldsAll(limits: StoreLimits, m: Machine, t: Machine, spoiled: bool, e: Event)
    requires Inv(limits, t) && Mirrors(m, t, spoiled) && Traced(m) && Overwrites(m, e)
    ensures Overwritten(limits.memoryLimitBytes, Step(limits, m, e).value, |m.committed|)
  {
    hide LogTail, ApplyAll, Normalized, DatabaseBytes, Loads, PhaseHolds;
    SnapshotLog(limits, t);
    MemoryIsCommitted(limits, t);
    assert m.committed[..|m.committed|] == m.committed;
    assert LogTail(Step(limits, m, e).value.disk) == LogTail(m.disk) by {
      SameLogSameTail(Step(limits, m, e).value.disk, m.disk);
    }
  }

  lemma SameLogSameTail(a: Disk, b: Disk)
    requires a.log == b.log && a.metadata == b.metadata
    ensures LogTail(a) == LogTail(b)
  {
  }

  lemma MemoryIsCommitted(limits: StoreLimits, t: Machine)
    requires Inv(limits, t) && !t.phase.Down?
    ensures Normalized(t.memory) == Normalized(ApplyAll(EMPTY_DATABASE, t.committed))
    ensures SmallerCache(t.memory, ApplyAll(EMPTY_DATABASE, t.committed)) && Covered(t.memory)
    ensures DatabaseBytes(Normalized(t.memory)) <= DatabaseBytes(t.memory)
  {
    hide ReplayLines, LoadSnapshot, DatabaseBytes, Covered, SmallerCache, ApplyAll, Normalized, IsHighWater, PhaseHolds;
    SmallerIsSame(t.memory, ApplyAll(EMPTY_DATABASE, t.committed));
    NormalizingShrinks(t.memory);
    SmallerCacheWeighsLess(Normalized(t.memory), t.memory);
  }

  lemma StaysOverwritten(limits: StoreLimits, m: Machine, t: Machine, e: Event, k: nat)
    requires Mirrors(m, t, true) && Overwritten(limits.memoryLimitBytes, m, k) && Step(limits, m, e).Some?
    requires !e.SnapshotWrite? && InSnapshot(Step(limits, m, e).value) == InSnapshot(m)
    ensures Overwritten(limits.memoryLimitBytes, Step(limits, m, e).value, k)
  {
    hide InSnapshot, ApplyAll, Normalized, DatabaseBytes, Admit, Open, Mirrors;
    var after := Step(limits, m, e).value;
    assert after.committed[..k] == m.committed[..k];
  }

  // ----- Soundness of what was committed -----

  ghost predicate SoundCommitted(limits: StoreLimits, m: Machine) {
    Sound(ApplyAll(EMPTY_DATABASE, m.committed)) && WithinLimits(limits, ApplyAll(EMPTY_DATABASE, m.committed))
  }

  lemma LimitsIgnoreCache(limits: StoreLimits, a: Database, b: Database)
    requires SameContent(a, b) && WithinLimits(limits, b)
    ensures WithinLimits(limits, a)
  {
    hide MapSum;
    assert |a.indexes| == |b.indexes| by { assert a.indexes.Keys == b.indexes.Keys; }
    forall n | n in a.indexes ensures DocumentsIn(n, a.indexes[n]) <= DocumentsIn(n, b.indexes[n]) {
      assert SameIndex(a.indexes[n], b.indexes[n]);
    }
    MapSumMonotone(a.indexes, b.indexes, DocumentsIn);
  }

  lemma SoundIgnoresCache(a: Database, b: Database)
    requires SameContent(a, b) && Sound(b)
    ensures Sound(a)
  {
    forall n | n in a.indexes ensures GoodIndex(n, a.indexes[n]) { assert SameIndex(a.indexes[n], b.indexes[n]); }
    assert AliasesHaveTargets(a) by {
      forall x | x in a.aliases
        ensures a.aliases[x].index in a.indexes && x in a.indexes[a.aliases[x].index].aliases
      {
        assert SameIndex(a.indexes[a.aliases[x].index], b.indexes[a.aliases[x].index]);
      }
    }
    assert SeqNosDistinct(a) by {
      forall s | Occupied(a, s) ensures Occupied(b, s) && Stamp(a, s) == Stamp(b, s) {
        assert SameIndex(a.indexes[s.index], b.indexes[s.index]);
      }
    }
  }

  lemma CommitStaysSound(limits: StoreLimits, m: Machine, t: Machine, spoiled: bool, due: bool)
    requires Inv(limits, t) && Mirrors(m, t, spoiled) && Traced(m) && SoundCommitted(limits, m)
    requires Step(limits, m, CommitTransaction(due)).Some?
    ensures SoundCommitted(limits, Step(limits, m, CommitTransaction(due)).value)
  {
    hide Inv, Mirrors, TailOf, ApplyAll, Sound, WithinLimits, Admit, InSnapshot, SmallerCache, Covered;
    var ms, all := m.phase.mutations, ApplyAll(EMPTY_DATABASE, m.committed);
    MirrorsMemory(m, t, spoiled);
    PendingInTail(limits, m, t, spoiled);
    MemoryIsCommitted(limits, t);
    SmallerCacheIsContent(m.memory, all);
    SoundIgnoresCache(m.memory, all);
    LimitsIgnoreCache(limits, m.memory, all);
    AdmittedIsApplied(limits, m.memory, ms);
    SmallerCacheRun(m.memory, all, ms);
    SmallerCacheIsContent(ApplyAll(m.memory, ms), ApplyAll(all, ms));
    SoundIgnoresCache(ApplyAll(all, ms), ApplyAll(m.memory, ms));
    LimitsIgnoreCache(limits, ApplyAll(all, ms), ApplyAll(m.memory, ms));
    ApplyAllAppend(EMPTY_DATABASE, m.committed, ms);
  }

  lemma MirrorsMemory(m: Machine, t: Machine, spoiled: bool)
    requires Mirrors(m, t, spoiled)
    ensures t.memory == m.memory && t.committed == m.committed && t.phase == m.phase
  {
  }

  lemma SmallerCacheIsContent(a: Database, b: Database)
    requires SmallerCache(a, b)
    ensures SameContent(a, b) && SameContent(b, a)
  {
  }

  lemma OnlyCommitsCommit(limits: StoreLimits, m: Machine, e: Event)
    requires Step(limits, m, e).Some? && !e.CommitTransaction?
    ensures Step(limits, m, e).value.committed == m.committed
  {
    hide Admit, Open, Compacted;
  }

  // ----- Whole runs -----

  /** All that is known of a reachable machine; `k` is of use only when its disk is spoiled. */
  ghost predicate Known(limits: StoreLimits, m: Machine, t: Machine, spoiled: bool, k: nat) {
    Inv(limits, t) && Mirrors(m, t, spoiled) && Traced(m) && SoundCommitted(limits, m)
    && (spoiled ==> Overwritten(limits.memoryLimitBytes, m, k))
  }

  lemma KnownStep(limits: StoreLimits, m: Machine, t: Machine, spoiled: bool, k: nat, e: Event)
    returns (u: Machine, l: nat)
    requires Known(limits, m, t, spoiled, k) && Step(limits, m, e).Some? && (e.Restart? ==> !spoiled)
    ensures Known(limits, Step(limits, m, e).value, u, SpoiledNext(m, e, spoiled), l)
  {
    hide Inv, Step, Mirrors, Traced, SoundCommitted, Overwritten, InSnapshot, Overwrites, Renews;
    u := MirrorStep(limits, m, t, spoiled, e);
    StepTraces(limits, m, t, u, spoiled, e);
    if e.CommitTransaction? {
      CommitStaysSound(limits, m, t, spoiled, e.snapshotDue);
    } else {
      OnlyCommitsCommit(limits, m, e);
      SameCommittedSound(limits, m, Step(limits, m, e).value);
    }
    l := k;
    if Overwrites(m, e) {
      OverwritingHoldsAll(limits, m, t, spoiled, e);
      l := |m.committed|;
    } else if spoiled && !Renews(m, e) {
      SpoiledWrites(limits, m, t, e);
      StaysOverwritten(limits, m, t, e, k);
    }
  }

  lemma SameCommittedSound(limits: StoreLimits, m: Machine, after: Machine)
    requires SoundCommitted(limits, m) && after.committed == m.committed
    ensures SoundCommitted(limits, after)
  {
  }

  /** On a spoiled disk every write of a snapshot overwrites or renews. */
  lemma SpoiledWrites(limits: StoreLimits, m: Machine, t: Machine, e: Event)
    requires Inv(limits, t) && Mirrors(m, t, true) && Step(limits, m, e).Some?
    ensures e.SnapshotWrite? ==> Overwrites(m, e) || Renews(m, e)
  {
    hide Inv, Compacted;
    InvNamesGeneration(limits, t);
  }

  lemma {:induction false} RunIsKnown(limits: StoreLimits, es: seq<Event>) returns (t: Machine, k: nat)
    requires Run(limits, INITIAL_MACHINE, es).Some? && NoSpoiledRestart(limits, es)
    ensures Known(limits, Run(limits, INITIAL_MACHINE, es).value, t, Spoiled(limits, es), k)
  {
    hide Known, Step, SpoiledNext;
    if es == [] {
      InitialIsKnown(limits);
      t, k := INITIAL_MACHINE, 0;
    } else {
      var n := |es| - 1;
      forall i | 0 <= i < n ensures es[..n][..i] == es[..i] && es[..n][i] == es[i] {}
      var before, l := RunIsKnown(limits, es[..n]);
      var m := Run(limits, INITIAL_MACHINE, es[..n]).value;
      t, k := KnownStep(limits, m, before, Spoiled(limits, es[..n]), l, es[n]);
    }
  }

  lemma InitialIsKnown(limits: StoreLimits)
    ensures Known(limits, INITIAL_MACHINE, INITIAL_MACHINE, false, 0)
  {
    hide Inv, Sound;
    InitialInv(limits);
    EmptyIsSound(limits);
  }

  /** Memory and disk of one state, when recovery is right. */
  ghost predicate Recovers(limits: StoreLimits, m: Machine) {
    var loaded := Load(limits.memoryLimitBytes, m.disk);
    loaded.Ok? && Normalized(loaded.value) == Normalized(ApplyAll(EMPTY_DATABASE, m.committed))
    && (NoRenameOntoTombstone(EMPTY_DATABASE, m.committed) ==> loaded.value == ApplyAll(EMPTY_DATABASE, m.committed))
    && (Open(limits.memoryLimitBytes, m.disk).Ok? <==>
          (loaded.value == EMPTY_DATABASE ==> 128 <= limits.memoryLimitBytes))
  }

  lemma InvRecovers(limits: StoreLimits, t: Machine)
    requires Inv(limits, t)
    ensures Recovers(limits, t)
  {
    hide Normalized, ApplyAll, ReplayLines, Covered, LoadSnapshot, MapSum, IsHighWater, NoRenameOntoTombstone;
    var all := ApplyAll(EMPTY_DATABASE, t.committed);
    LoadsIsLoad(limits.memoryLimitBytes, t.disk);
    var loaded := LoadState(limits.memoryLimitBytes, t.disk).db;
    SameContentNormalizes(loaded, all);
    if NoRenameOntoTombstone(EMPTY_DATABASE, t.committed) {
      CacheIsExact(EMPTY_DATABASE, t.committed);
      SqueezedIsEqual(loaded, all);
    }
    EmptyBytes();
  }

  lemma MirrorRecovers(limits: StoreLimits, m: Machine, t: Machine)
    requires Inv(limits, t) && Mirrors(m, t, false)
    ensures Recovers(limits, m)
  {
    hide Inv, Normalized, ApplyAll, Load, Open, NoRenameOntoTombstone, NewFileReady;
    InvNamesGeneration(limits, t);
    InvRecovers(limits, t);
    SameNamedLoads(limits.memoryLimitBytes, m.disk, t.disk);
  }

  /** Crash-safe recovery: whatever commits, snapshots, failures, crashes and restarts came
      before, memory holds exactly the committed transactions in order, a sound database,
      and unless the disk is spoiled a load finds them: the cached sizes too, unless some
      rename hit a tombstoned id. */
  lemma RecoversExactlyWhatWasCommitted(limits: StoreLimits, es: seq<Event>)
    requires Run(limits, INITIAL_MACHINE, es).Some? && NoSpoiledRestart(limits, es)
    ensures
      var m := Run(limits, INITIAL_MACHINE, es).value;
      Sound(ApplyAll(EMPTY_DATABASE, m.committed)) && WithinLimits(limits, ApplyAll(EMPTY_DATABASE, m.committed))
      && (!m.phase.Down? ==> Normalized(m.memory) == Normalized(ApplyAll(EMPTY_DATABASE, m.committed)))
      && (!Spoiled(limits, es) ==> Recovers(limits, m))
  {
    hide Run, Inv, Recovers, Normalized, ApplyAll, Sound, Traced, Overwritten, Spoiled;
    var t, k := RunIsKnown(limits, es);
    var m := Run(limits, INITIAL_MACHINE, es).value;
    if !m.phase.Down? {
      MemoryIsCommitted(limits, t);
    }
    if !Spoiled(limits, es) {
      MirrorRecovers(limits, m, t);
    }
  }

  // ----- What a load of a spoiled disk gives -----

  /** The first `k` committed mutations, and then those from `j` on, some of them for the second time. */
  ghost predicate LoadsAgain(limit: nat, m: Machine, j: nat, k: nat)
    requires j < k <= |m.committed|
  {
    var base := Normalized(ApplyAll(EMPTY_DATABASE, m.committed[..k]));
    var again := m.committed[j..];
    Load(limit, m.disk) ==
    if LoadMutations(limit, base, again).ok then Ok(ApplyAll(base, again)) else Err(InvalidData())
  }

  /** How many sequence numbers the mutations take. */
  function Takes(ms: seq<Mutation>): nat {
    if ms == [] then 0
    else Takes(ms[..|ms| - 1]) + NextSeqNo(0, ms[|ms| - 1])
  }

  lemma {:induction false} TakesAppend(ms: seq<Mutation>, ns: seq<Mutation>)
    ensures Takes(ms + ns) == Takes(ms) + Takes(ns)
  {
    if ns == [] {
      assert ms + ns == ms;
    } else {
      TakesAppend(ms, ns[..|ns| - 1]);
      assert (ms + ns)[..|ms + ns| - 1] == ms + ns[..|ns| - 1];
    }
  }

  lemma {:induction false} CounterCounts(db: Database, ms: seq<Mutation>)
    ensures ApplyAll(db, ms).seqNo == db.seqNo + Takes(ms)
  {
    hide IndexesAfter, TemplatesAfter, RegistriesAfter, AliasesAfter;
    if ms != [] {
      CounterCounts(db, ms[..|ms| - 1]);
    }
  }

  /** While the named file is overwritten, a load applies the log's tail to a snapshot that
      already holds the front of it: at least one committed mutation is applied twice, and
      the sequence counter runs ahead by what those took. */
  lemma SpoiledDiskLoadsAgain(limits: StoreLimits, es: seq<Event>) returns (j: nat, k: nat)
    requires Run(limits, INITIAL_MACHINE, es).Some? && NoSpoiledRestart(limits, es) && Spoiled(limits, es)
    ensures
      var m := Run(limits, INITIAL_MACHINE, es).value;
      var loaded := Load(limits.memoryLimitBytes, m.disk);
      j < k <= |m.committed| && LoadsAgain(limits.memoryLimitBytes, m, j, k)
      && (loaded.Ok? ==>
            loaded.value.seqNo == ApplyAll(EMPTY_DATABASE, m.committed).seqNo + Takes(m.committed[j..k]))
  {
    hide Run, Inv, ApplyAll, Sound, Traced, Overwritten, Spoiled, Load, LoadMutations, Normalized;
    var t, l := RunIsKnown(limits, es);
    var m := Run(limits, INITIAL_MACHINE, es).value;
    OverwrittenBounds(limits.memoryLimitBytes, m, l);
    j, k := InSnapshot(m), l;
    OverwrittenLoads(limits, m, t, k);
    var base := Normalized(ApplyAll(EMPTY_DATABASE, m.committed[..k]));
    NormalizedCounter(ApplyAll(EMPTY_DATABASE, m.committed[..k]));
    CounterCounts(EMPTY_DATABASE, m.committed[..k]);
    CounterCounts(EMPTY_DATABASE, m.committed);
    CounterCounts(base, m.committed[j..]);
    TakesAppend(m.committed[..k], m.committed[k..]);
    TakesAppend(m.committed[j..k], m.committed[k..]);
    assert m.committed[..k] + m.committed[k..] == m.committed;
    assert m.committed[j..k] + m.committed[k..] == m.committed[j..];
  }

  /** So it is no recovery, unless none of the repeated mutations takes a number. */
  lemma SpoiledDiskDoesNotRecover(limits: StoreLimits, es: seq<Event>) returns (j: nat, k: nat)
    requires Run(limits, INITIAL_MACHINE, es).Some? && NoSpoiledRestart(limits, es) && Spoiled(limits, es)
    ensures
      var m := Run(limits, INITIAL_MACHINE, es).value;
      j < k <= |m.committed| && LoadsAgain(limits.memoryLimitBytes, m, j, k)
      && (Takes(m.committed[j..k]) > 0 ==> !Recovers(limits, m))
  {
    hide Run, NoSpoiledRestart, Spoiled, Load, LoadsAgain, ApplyAll, Normalized, Takes;
    j, k := SpoiledDiskLoadsAgain(limits, es);
    var m := Run(limits, INITIAL_MACHINE, es).value;
    NormalizedCounter(ApplyAll(EMPTY_DATABASE, m.committed));
    if Load(limits.memoryLimitBytes, m.disk).Ok? {
      NormalizedCounter(Load(limits.memoryLimitBytes, m.disk).value);
    }
  }

  lemma NormalizedCounter(db: Database)
    ensures Normalized(db).seqNo == db.seqNo
  {
  }

  lemma OverwrittenBounds(limit: nat, m: Machine, k: nat)
    requires Overwritten(limit, m, k) && Traced(m)
    ensures 0 <= InSnapshot(m) < k <= |m.committed|
  {
    hide ApplyAll, Normalized, DatabaseBytes;
  }

  lemma OverwrittenLoads(limits: StoreLimits, m: Machine, t: Machine, k: nat)
    requires Inv(limits, t) && Mirrors(m, t, true) && Traced(m) && Overwritten(limits.memoryLimitBytes, m, k)
    ensures 0 <= InSnapshot(m) < k <= |m.committed|
    ensures LoadsAgain(limits.memoryLimitBytes, m, InSnapshot(m), k)
  {
    hide Inv, ApplyAll, Normalized, DatabaseBytes, ReplayLines, TailOf, LoadMutations;
    var limit, start := limits.memoryLimitBytes, StartOf(m.disk.metadata);
    var base := Normalized(ApplyAll(EMPTY_DATABASE, m.committed[..k]));
    assert LoadSnapshot(limit, m.disk.metadata, m.disk.files) == Ok(base);
    ReplayLoadsTail(limit, start, base, Lines(m.disk));
    TailIsOver(limits, t);
    SameLogSameTail(m.disk, t.disk);
    NoLogNoTail(m.disk);
  }

  lemma NoLogNoTail(disk: Disk)
    ensures disk.log.None? ==> LogTail(disk).loaded == []
  {
  }

  /** The high-water mark has been passed, and there is a log if one is needed. */
  lemma TailIsOver(limits: StoreLimits, t: Machine)
    requires Inv(limits, t) && Whole(Lines(t.disk))
    ensures !LogTail(t.disk).waiting && (t.disk.log.None? ==> StartOf(t.disk.metadata).Beginning?)
  {
    hide LoadSnapshot, ReplayLines, Admit, ApplyAll, Covered, SmallerCache, LoadMutations, DatabaseBytes, TailOf;
    var base := LoadSnapshot(limits.memoryLimitBytes, t.disk.metadata, t.disk.files).value;
    ReplayLoadsTail(limits.memoryLimitBytes, StartOf(t.disk.metadata), base, Lines(t.disk));
  }

  // ----- Reachable machines -----

  /** The machine is reached by a run that starts no process from a spoiled disk. */
  ghost predicate Reached(limits: StoreLimits, m: Machine, spoiled: bool) {
    exists es :: Run(limits, INITIAL_MACHINE, es) == Some(m) && NoSpoiledRestart(limits, es)
      && Spoiled(limits, es) == spoiled
  }

  /** Nothing in the run takes the process down or up. */
  predicate Uptime(es: seq<Event>) {
    forall i :: 0 <= i < |es| ==> !es[i].Crash? && !es[i].Restart?
  }

  lemma {:induction false} RunAppend(limits: StoreLimits, m: Machine, es: seq<Event>, fs: seq<Event>)
    requires Run(limits, m, es).Some?
    ensures Run(limits, m, es + fs) == Run(limits, Run(limits, m, es).value, fs)
  {
    hide Step;
    if fs == [] {
      assert es + fs == es;
    } else {
      RunAppend(limits, m, es, fs[..|fs| - 1]);
      assert (es + fs)[..|es + fs| - 1] == es + fs[..|fs| - 1];
    }
  }

  lemma NothingRun(limits: StoreLimits, m: Machine)
    ensures Run(limits, m, []) == Some(m)
  {
  }

  lemma Then(limits: StoreLimits, m: Machine, es: seq<Event>, mid: Machine, e: Event, after: Machine)
    requires Run(limits, m, es) == Some(mid) && Step(limits, mid, e) == Some(after)
    ensures Run(limits, m, es + [e]) == Some(after)
  {
    hide Step;
    assert (es + [e])[..|es + [e]| - 1] == es;
  }

  lemma InitialIsReached(limits: StoreLimits)
    ensures Reached(limits, INITIAL_MACHINE, false)
  {
    NothingRun(limits, INITIAL_MACHINE);
    assert NoSpoiledRestart(limits, []) && !Spoiled(limits, []);
  }

  lemma ReachedOn(limits: StoreLimits, m: Machine, spoiled: bool, es: seq<Event>)
    requires Reached(limits, m, spoiled) && Run(limits, m, es).Some? && Uptime(es)
    ensures Reached(limits, Run(limits, m, es).value, false) || Reached(limits, Run(limits, m, es).value, true)
  {
    hide Run, Spoiled;
    var before :| Run(limits, INITIAL_MACHINE, before) == Some(m) && NoSpoiledRestart(limits, before);
    RunAppend(limits, INITIAL_MACHINE, before, es);
    var all := before + es;
    forall i | 0 <= i < |all| && all[i].Restart? ensures !Spoiled(limits, all[..i]) {
      assert all[..i] == before[..i];
    }
    assert Spoiled(limits, all) == false || Spoiled(limits, all) == true;
  }

  /** A reachable machine that is not spoiled can go down and come up again. */
  lemma RestartIsReached(limits: StoreLimits, m: Machine)
    requires Reached(limits, m, false) && Step(limits, m, Restart).Some?
    ensures Reached(limits, Step(limits, m, Restart).value, false)
  {
    hide Run, Step, Spoiled;
    var es :| Run(limits, INITIAL_MACHINE, es) == Some(m) && NoSpoiledRestart(limits, es) && !Spoiled(limits, es);
    Then(limits, INITIAL_MACHINE, es, m, Restart, Step(limits, m, Restart).value);
    var all := es + [Restart];
    assert all[..|es|] == es;
    forall i | 0 <= i < |all| && all[i].Restart? ensures !Spoiled(limits, all[..i]) {
      assert all[..i] == es[..i];
      assert i == |es| || all[i] == es[i];
    }
    RestartDoesNotSpoil(limits, es, m);
  }

  lemma RestartDoesNotSpoil(limits: StoreLimits, es: seq<Event>, m: Machine)
    requires Run(limits, INITIAL_MACHINE, es) == Some(m) && !Spoiled(limits, es)
    ensures !Spoiled(limits, es + [Restart])
  {
    hide Run;
    assert (es + [Restart])[..|es + [Restart]| - 1] == es;
  }

  /** What a load finds on a reachable disk that is not spoiled is a sound database that
      covers its sizes, and every line of its log is whole. */
  lemma RecoveredIsSound(limits: StoreLimits, m: Machine)
    requires Reached(limits, m, false)
    ensures Whole(Lines(m.disk)) && Load(limits.memoryLimitBytes, m.disk).Ok?
    ensures var loaded := Load(limits.memoryLimitBytes, m.disk).value;
            Sound(loaded) && Covered(loaded) && WithinLimits(limits, loaded)
    ensures Normalized(Load(limits.memoryLimitBytes, m.disk).value) == Normalized(ApplyAll(EMPTY_DATABASE, m.committed))
  {
    hide Run, Spoiled, Sound, Covered, ApplyAll, Inv, Load, Open, Normalized, NewFileReady, Recovers;
    var es :| Run(limits, INITIAL_MACHINE, es) == Some(m) && NoSpoiledRestart(limits, es) && !Spoiled(limits, es);
    var t, k := RunIsKnown(limits, es);
    InvNamesGeneration(limits, t);
    SameNamedLoads(limits.memoryLimitBytes, m.disk, t.disk);
    LoadedIsSound(limits, t);
  }

  lemma ReachedLogIsWhole(limits: StoreLimits, m: Machine)
    requires Reached(limits, m, false)
    ensures Whole(Lines(m.disk))
  {
    hide Load, Open, Normalized, ApplyAll, Sound, Covered;
    RecoveredIsSound(limits, m);
  }

  lemma LoadedIsSound(limits: StoreLimits, t: Machine)
    requires Inv(limits, t) && SoundCommitted(limits, t)
    ensures Load(limits.memoryLimitBytes, t.disk).Ok?
    ensures var loaded := Load(limits.memoryLimitBytes, t.disk).value;
            Sound(loaded) && Covered(loaded) && WithinLimits(limits, loaded)
            && Normalized(loaded) == Normalized(ApplyAll(EMPTY_DATABASE, t.committed))
  {
    hide Sound, Covered, Load, LoadState, ApplyAll, Normalized, PhaseHolds, SmallerCache;
    LoadsIsLoad(limits.memoryLimitBytes, t.disk);
    var loaded := LoadState(limits.memoryLimitBytes, t.disk).db;
    SmallerCacheIsContent(loaded, ApplyAll(EMPTY_DATABASE, t.committed));
    SoundIgnoresCache(loaded, ApplyAll(EMPTY_DATABASE, t.committed));
    LimitsIgnoreCache(limits, loaded, ApplyAll(EMPTY_DATABASE, t.committed));
    SmallerIsSame(loaded, ApplyAll(EMPTY_DATABASE, t.committed));
  }

  /** A write cut short by the crash on a disk that is not spoiled: the load fails
      exactly when the bytes cannot be read, and otherwise half a record or a begin record
      without newline changes nothing and a commit record without newline commits. */
  lemma TornWriteIsRecoveredExactlyWhenDecodable(limits: StoreLimits, es: seq<Event>, torn: Line)
    requires Run(limits, INITIAL_MACHINE, es).Some? && NoSpoiledRestart(limits, es) && !Spoiled(limits, es)
    requires !torn.newline && Cut(Run(limits, INITIAL_MACHINE, es).value, torn)
    ensures
      var m := Run(limits, INITIAL_MACHINE, es).value;
      var committed := if torn.content.Parsed? && torn.content.record.Commit?
        then m.committed + m.phase.mutations else m.committed;
      var loaded := Load(limits.memoryLimitBytes, m.disk.(log := Some(Lines(m.disk) + [torn])));
      (loaded.Ok? <==> !torn.content.Undecodable?)
      && (loaded.Ok? ==> Normalized(loaded.value) == Normalized(ApplyAll(EMPTY_DATABASE, committed)))
  {
    hide Run, Spoiled, Inv, ApplyAll, Load, Open, Normalized, NewFileReady;
    var t, k := RunIsKnown(limits, es);
    var m := Run(limits, INITIAL_MACHINE, es).value;
    InvNamesGeneration(limits, t);
    TornWriteRecoversExactlyWhenDecodable(limits, t, torn);
    var log := Some(Lines(m.disk) + [torn]);
    SameNamedLoads(limits.memoryLimitBytes, m.disk.(log := log), t.disk.(log := log));
  }
}
