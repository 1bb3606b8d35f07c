/** Runs that go on after a torn record: appends that fail half way, in a process that goes
    on or stops there, and the records that then run into what they left. */
module TornTail {
  import opened Prelude
  import opened Catalog
  import opened SizeCache
  import opened MutationLog
  import opened Writes
  import opened Durability
  import opened Recovery

  // ----- The machine with failing appends -----

  /** `torn` is what reached the file of a record whose append failed. */
  datatype TornEvent =
    | Clean(event: Event)
    | BeginTears(id: string, mutations: seq<Mutation>, torn: Content)
    | CommitTears(id: string, torn: Content)

  /** Part of a record, or all of it but its newline. */
  predicate TearOf(record: Record, torn: Content) {
    torn.Unparsable? || torn.Undecodable? || torn == Parsed(record)
  }

  function Grown(disk: Disk, record: Record): Disk {
    disk.(log := Some(Appended(Lines(disk), record)))
  }

  function Tear(lines: seq<Line>, torn: Content): seq<Line> {
    var n := |lines| - 1;
    if lines != [] && !lines[n].newline then lines[..n] + [Line(Joined(lines[n].content, torn), false)]
    else lines + [Line(torn, false)]
  }

  function WithTear(disk: Disk, torn: Content): Disk {
    disk.(log := Some(Tear(Lines(disk), torn)))
  }

  function TornStep(limits: StoreLimits, a: Machine, e: TornEvent): Option<Machine> {
    match e
    case Clean(event) =>
      var after := Step(limits, a, event);
      if after.None? then None
      else if event.BeginTransaction? then
        Some(after.value.(disk := Grown(a.disk, Begin(event.id, event.mutations))))
      else if event.CommitTransaction? && a.phase.Committing? then
        Some(after.value.(disk := Grown(a.disk, Commit(a.phase.id))))
      else after
    case BeginTears(id, ms, torn) =>
      if Step(limits, a, BeginTransaction(id, ms)).Some? && TearOf(Begin(id, ms), torn) then
        Some(a.(disk := WithTear(a.disk, torn)))
      else None
    case CommitTears(id, torn) =>
      if a.phase.Committing? && a.phase.id == id && TearOf(Commit(id), torn) then
        Some(a.(disk := WithTear(a.disk, torn), phase := Idle))
      else None
  }

  function TornRun(limits: StoreLimits, a: Machine, es: seq<TornEvent>): Option<Machine> {
    if es == [] then Some(a) else
    var before := TornRun(limits, a, es[..|es| - 1]);
    if before.None? then None else TornStep(limits, before.value, es[|es| - 1])
  }

  // ----- How the log ends, and the clean run behind a torn one -----

  /** After the last newline: nothing, half a record, the whole commit of a transaction that
      was reported failed, the same after the process went down, or such a commit with
      another record run into it. */
  datatype Ending =
    | Ended
    | HalfRecord(content: Content)
    | FailedCommit(id: string)
    | UnendedCommit(id: string)
    | SwallowedCommit(id: string, content: Content)

  function NextEnding(x: Ending, e: TornEvent): Ending {
    match e
    case Clean(event) =>
      if event.BeginTransaction? then Ended
      else if event.Crash? && x.FailedCommit? then UnendedCommit(x.id)
      else x
    case BeginTears(_, _, torn) =>
      (match x
       case Ended => HalfRecord(torn)
       case HalfRecord(content) => HalfRecord(Joined(content, torn))
       case FailedCommit(id) => HalfRecord(Joined(Parsed(Commit(id)), torn))
       case UnendedCommit(id) => SwallowedCommit(id, Joined(Parsed(Commit(id)), torn))
       case SwallowedCommit(id, content) => SwallowedCommit(id, Joined(content, torn)))
    case CommitTears(id, torn) => if torn.Parsed? then FailedCommit(id) else HalfRecord(torn)
  }

  function EndingAfter(es: seq<TornEvent>): Ending {
    if es == [] then Ended else NextEnding(EndingAfter(es[..|es| - 1]), es[|es| - 1])
  }

  /** A whole commit whose newline failed counts as committed when the process stops before
      the next append, and as failed when it goes on. */
  function CleanEvents(x: Ending, e: TornEvent): seq<Event> {
    match e
    case Clean(event) =>
      if !x.FailedCommit? then [event]
      else if event.Crash? then [CommitTransaction(false), Crash]
      else [CommitFails, event]
    case BeginTears(_, _, _) => if x.FailedCommit? then [CommitFails] else []
    case CommitTears(_, torn) => if torn.Parsed? then [] else [CommitFails]
  }

  function Cleaned(es: seq<TornEvent>): seq<Event> {
    if es == [] then [] else
    var earlier := es[..|es| - 1];
    Cleaned(earlier) + CleanEvents(EndingAfter(earlier), es[|es| - 1])
  }

  // ----- What makes a disk unloadable -----

  predicate MarkBehind(disk: Disk, i: nat) {
    StartOf(disk.metadata).After?
    && exists j :: i < j < |Lines(disk)| && IsHighWater(Lines(disk)[j], StartOf(disk.metadata).id)
  }

  /** The line makes a load fail: it cannot be read, or it is broken and the mark the load
      waits for does not stand behind it. */
  predicate Blocks(disk: Disk, i: nat)
    requires i < |Lines(disk)|
  {
    var line := Lines(disk)[i];
    line.content.Undecodable? || (line.content.Unparsable? && line.newline && !MarkBehind(disk, i))
  }

  predicate Unloadable(disk: Disk) {
    exists i :: 0 <= i < |Lines(disk)| && Blocks(disk, i)
  }

  lemma {:induction false} FirstMark(lines: seq<Line>, id: string, j: nat) returns (p: nat)
    requires j < |lines| && IsHighWater(lines[j], id)
    ensures p <= j && IsHighWater(lines[p], id) && forall i :: 0 <= i < p ==> !IsHighWater(lines[i], id)
  {
    p := j;
    if i :| 0 <= i < j && IsHighWater(lines[i], id) {
      p := FirstMark(lines, id, i);
    }
  }

  lemma UnloadableFails(limit: nat, disk: Disk)
    requires Unloadable(disk)
    ensures Load(limit, disk).Err?
  {
    hide LoadSnapshot, IsHighWater;
    var snapshot := LoadSnapshot(limit, disk.metadata, disk.files);
    var i :| 0 <= i < |Lines(disk)| && Blocks(disk, i);
    if snapshot.Ok? {
      BlockedReplayFails(limit, disk, snapshot.value, i);
    }
  }

  lemma BlockedReplayFails(limit: nat, disk: Disk, base: Database, i: nat)
    requires i < |Lines(disk)| && Blocks(disk, i)
    ensures Replay(limit, StartOf(disk.metadata), base, disk.log).Err?
  {
    hide IsHighWater, ReplayLines;
    var lines, start := Lines(disk), StartOf(disk.metadata);
    if !Readable(lines) {
      var k :| 0 <= k < |lines| && lines[k].content.Undecodable?;
      UndecodableFails(limit, start, base, lines, k);
    } else if start.Beginning? {
      BrokenFails(limit, base, lines, i);
    } else if j :| 0 <= j < |lines| && IsHighWater(lines[j], start.id) {
      var p := FirstMark(lines, start.id, j);
      BrokenIsNoMark(lines[i], start.id);
      ReplayAfterMark(limit, start.id, base, lines, p);
      assert lines[p + 1..][i - p - 1] == lines[i];
      BrokenFails(limit, base, lines[p + 1..], i - p - 1);
      NeverWaitingFromBeginning(limit, base, lines[p + 1..]);
    } else {
      SkipsUntilMark(limit, start.id, base, lines);
    }
  }

  lemma BrokenIsNoMark(line: Line, id: string)
    requires !line.content.Parsed?
    ensures !IsHighWater(line, id)
  {
  }

  // ----- The torn log beside the clean one -----

  /** The torn log is `broken` and then `shared`, the clean one `whole` and then `shared`:
      where they differ, the torn one ends in a line two records share. */
  datatype Zones = Zones(broken: seq<Line>, whole: seq<Line>, shared: seq<Line>)

  function TornEnd(x: Ending): seq<Line> {
    match x
    case Ended => []
    case HalfRecord(content) => [Line(content, false)]
    case FailedCommit(id) => [Line(Parsed(Commit(id)), false)]
    case UnendedCommit(id) => [Line(Parsed(Commit(id)), false)]
    case SwallowedCommit(_, content) => [Line(content, false)]
  }

  function CleanEnd(x: Ending): seq<Line> {
    if x.UnendedCommit? || x.SwallowedCommit? then [Line(Parsed(Commit(x.id)), true)] else []
  }

  predicate IsBroken(content: Content) {
    content.Unparsable? || content.Undecodable?
  }

  predicate EndingHolds(x: Ending) {
    (x.HalfRecord? ==> IsBroken(x.content) || (x.content.Parsed? && x.content.record.Begin?))
    && (x.SwallowedCommit? ==> IsBroken(x.content))
  }

  predicate MarkIn(lines: seq<Line>, id: string) {
    exists i :: 0 <= i < |lines| && IsHighWater(lines[i], id)
  }

  predicate MarkInZones(z: Zones, id: string) {
    MarkIn(z.broken, id) || MarkIn(z.whole, id) || MarkIn(z.shared, id)
  }

  function LastOf(metadata: Option<Metadata>): Option<string> {
    if metadata.None? then None else metadata.value.lastTransactionId
  }

  /** The two logs, ends included. */
  predicate LogsMatch(a: Disk, m: Disk, z: Zones, x: Ending) {
    Lines(a) == z.broken + z.shared + TornEnd(x) && Lines(m) == z.whole + z.shared + CleanEnd(x)
    && Whole(z.whole) && Whole(z.shared) && EndingHolds(x)
    && (z.broken == [] ==> z.whole == [])
    && (z.broken != [] ==> z.broken[|z.broken| - 1].newline && IsBroken(z.broken[|z.broken| - 1].content))
  }

  /** No id marks both sides of the broken line, and an unended commit's id marks nothing else. */
  ghost predicate MarksApart(metadata: Option<Metadata>, z: Zones, x: Ending) {
    (forall id :: MarkIn(z.shared, id) ==> !MarkIn(z.broken, id) && !MarkIn(z.whole, id))
    && (x.FailedCommit? || x.UnendedCommit? || x.SwallowedCommit? ==>
          !MarkInZones(z, x.id) && LastOf(metadata) != Some(x.id))
  }

  ghost predicate DisksMatch(a: Disk, m: Disk, z: Zones, x: Ending) {
    a.files == m.files && a.metadata == m.metadata && LogsMatch(a, m, z, x) && MarksApart(a.metadata, z, x)
    && (m.log.None? ==> m.metadata.None?) && (a.log.None? ==> m.log.None?)
  }

  // ----- The two loads -----

  /** What of the torn log a load looks at, and the same part of the clean one, up to their ends. */
  lemma SameCore(limit: nat, a: Disk, m: Disk, z: Zones, x: Ending, base: Database)
    returns (start: ReplayStart, core: seq<Line>)
    requires DisksMatch(a, m, z, x) && !Unloadable(a)
    ensures Whole(core) && (StartOf(a.metadata).Beginning? ==> start.Beginning?)
    ensures start.After? ==> start == StartOf(a.metadata)
    ensures ReplayResult(StartOf(a.metadata), ReplayLines(limit, StartOf(a.metadata), base, Lines(a)))
         == ReplayResult(start, ReplayLines(limit, start, base, core + TornEnd(x)))
    ensures ReplayResult(StartOf(a.metadata), ReplayLines(limit, StartOf(a.metadata), base, Lines(m)))
         == ReplayResult(start, ReplayLines(limit, start, base, core + CleanEnd(x)))
  {
    hide IsHighWater, ReplayLines, Whole, Blocks;
    start := StartOf(a.metadata);
    if z.broken == [] {
      core := z.shared;
      assert [] + core == core;
    } else {
      var j := MarkShared(a, m, z, x);
      var p, q := |z.broken| + j, |z.whole| + j;
      BrokenIsReadable(a, m, z, x);
      MarkOfBoth(a, m, z, x, j);
      ReplayAfterMark(limit, start.id, base, Lines(a), p);
      ReplayAfterMark(limit, start.id, base, Lines(m), q);
      core := z.shared[j + 1..];
      assert Lines(a)[p + 1..] == core + TornEnd(x);
      assert Lines(m)[q + 1..] == core + CleanEnd(x);
      NeverWaitingFromBeginning(limit, base, core + TornEnd(x));
      NeverWaitingFromBeginning(limit, base, core + CleanEnd(x));
      start := Beginning;
      PartIsWhole(z.shared, j + 1);
    }
  }

  lemma PartIsWhole(lines: seq<Line>, k: nat)
    requires Whole(lines) && k <= |lines|
    ensures Whole(lines[k..])
  {
  }

  lemma BrokenIsReadable(a: Disk, m: Disk, z: Zones, x: Ending)
    requires LogsMatch(a, m, z, x) && !Unloadable(a)
    ensures Readable(Lines(a)) && Readable(Lines(m))
  {
    hide IsHighWater, MarkBehind;
    forall i | 0 <= i < |Lines(a)| ensures !Lines(a)[i].content.Undecodable? {
      assert !Blocks(a, i);
    }
  }

  /** Behind the broken line the mark can only stand in what both logs share. */
  lemma MarkShared(a: Disk, m: Disk, z: Zones, x: Ending) returns (j: nat)
    requires DisksMatch(a, m, z, x) && !Unloadable(a) && z.broken != []
    ensures StartOf(a.metadata).After? && j < |z.shared| && IsHighWater(z.shared[j], StartOf(a.metadata).id)
    ensures forall i :: 0 <= i < j ==> !IsHighWater(z.shared[i], StartOf(a.metadata).id)
  {
    var b := |z.broken| - 1;
    assert Lines(a)[b] == z.broken[b];
    assert !Blocks(a, b);
    var id := StartOf(a.metadata).id;
    var k :| b < k < |Lines(a)| && IsHighWater(Lines(a)[k], id);
    assert k < |z.broken| + |z.shared|;
    assert Lines(a)[k] == z.shared[k - |z.broken|];
    j := FirstMark(z.shared, id, k - |z.broken|);
  }

  lemma MarkOfBoth(a: Disk, m: Disk, z: Zones, x: Ending, j: nat)
    requires DisksMatch(a, m, z, x) && StartOf(a.metadata).After? && j < |z.shared|
    requires IsHighWater(z.shared[j], StartOf(a.metadata).id)
    requires forall i :: 0 <= i < j ==> !IsHighWater(z.shared[i], StartOf(a.metadata).id)
    ensures
      var id := StartOf(a.metadata).id;
      IsHighWater(Lines(a)[|z.broken| + j], id) && IsHighWater(Lines(m)[|z.whole| + j], id)
      && (forall i :: 0 <= i < |z.broken| + j ==> !IsHighWater(Lines(a)[i], id))
      && (forall i :: 0 <= i < |z.whole| + j ==> !IsHighWater(Lines(m)[i], id))
  {
    hide IsHighWater;
    var id := StartOf(a.metadata).id;
    assert MarkIn(z.shared, id);
    forall i | 0 <= i < |z.broken| + j ensures !IsHighWater(Lines(a)[i], id) {
      assert Lines(a)[i] == if i < |z.broken| then z.broken[i] else z.shared[i - |z.broken|];
    }
    forall i | 0 <= i < |z.whole| + j ensures !IsHighWater(Lines(m)[i], id) {
      assert Lines(m)[i] == if i < |z.whole| then z.whole[i] else z.shared[i - |z.whole|];
    }
  }

  /** Half a record at the end adds nothing to a load. */
  lemma HalfRecordAddsNothing(limit: nat, start: ReplayStart, base: Database, lines: seq<Line>, content: Content)
    requires content.Unparsable? || (content.Parsed? && content.record.Begin?)
    ensures ReplayResult(start, ReplayLines(limit, start, base, lines + [Line(content, false)]))
         == ReplayResult(start, ReplayLines(limit, start, base, lines))
  {
    ReplayOneMore(limit, start, base, lines, Line(content, false));
  }

  /** A whole commit counts with its newline or without, if it loads with it. */
  lemma UnendedCommitCounts(limit: nat, start: ReplayStart, base: Database, lines: seq<Line>, id: string)
    requires ReplayResult(start, ReplayLines(limit, start, base, lines + [Line(Parsed(Commit(id)), true)])).Ok?
    ensures ReplayResult(start, ReplayLines(limit, start, base, lines + [Line(Parsed(Commit(id)), false)]))
         == ReplayResult(start, ReplayLines(limit, start, base, lines + [Line(Parsed(Commit(id)), true)]))
  {
    hide LoadMutations;
    ReplayOneMore(limit, start, base, lines, Line(Parsed(Commit(id)), false));
    ReplayOneMore(limit, start, base, lines, Line(Parsed(Commit(id)), true));
  }

  lemma TornEndReads(a: Disk, z: Zones, x: Ending)
    requires Lines(a) == z.broken + z.shared + TornEnd(x) && !Unloadable(a)
    ensures x.HalfRecord? || x.SwallowedCommit? ==> !x.content.Undecodable?
  {
    hide MarkBehind;
    if x.HalfRecord? || x.SwallowedCommit? {
      var n := |Lines(a)| - 1;
      assert Lines(a)[n] == Line(x.content, false);
      assert !Blocks(a, n);
    }
  }

  lemma LoadIsReplay(limit: nat, disk: Disk)
    requires disk.log.None? ==> disk.metadata.None?
    ensures
      var snapshot := LoadSnapshot(limit, disk.metadata, disk.files);
      var start := StartOf(disk.metadata);
      Load(limit, disk) ==
      if snapshot.Err? then snapshot else ReplayResult(start, ReplayLines(limit, start, snapshot.value, Lines(disk)))
  {
  }

  /** A disk that is not unloadable loads what the clean one loads; a commit swallowed by the
      next record is gone. */
  lemma LoadFollows(limit: nat, a: Disk, m: Disk, z: Zones, x: Ending)
    requires DisksMatch(a, m, z, x) && !Unloadable(a) && !x.FailedCommit?
    ensures x.UnendedCommit? && Load(limit, m).Ok? ==> Load(limit, a) == Load(limit, m)
    ensures x.Ended? || x.HalfRecord? ==> Load(limit, a) == Load(limit, m)
    ensures x.SwallowedCommit? ==> Load(limit, a) == Load(limit, m.(log := Some(z.whole + z.shared)))
  {
    hide LoadSnapshot, ReplayLines, ReplayResult, Load, MarksApart, Unloadable, LogsMatch;
    LoadIsReplay(limit, a);
    LoadIsReplay(limit, m);
    var snapshot := LoadSnapshot(limit, a.metadata, a.files);
    var start := StartOf(a.metadata);
    if snapshot.Ok? {
      var base := snapshot.value;
      var from, core := SameCore(limit, a, m, z, x, base);
      ReplaysFollow(limit, a, m, z, x, base, from, core);
      if x.SwallowedCommit? {
        var without := m.(log := Some(z.whole + z.shared));
        SwallowedIsHalf(a, m, z, x);
        LoadIsReplay(limit, without);
        var from2, core2 := SameCore(limit, a, without, z, HalfRecord(x.content), base);
        ReplaysFollow(limit, a, without, z, HalfRecord(x.content), base, from2, core2);
      }
    } else if x.SwallowedCommit? {
      LoadIsReplay(limit, m.(log := Some(z.whole + z.shared)));
    }
  }

  lemma SwallowedIsHalf(a: Disk, m: Disk, z: Zones, x: Ending)
    requires DisksMatch(a, m, z, x) && x.SwallowedCommit?
    ensures DisksMatch(a, m.(log := Some(z.whole + z.shared)), z, HalfRecord(x.content))
  {
    hide MarkIn;
    assert z.whole + z.shared + [] == z.whole + z.shared;
  }

  lemma ReplaysFollow(limit: nat, a: Disk, m: Disk, z: Zones, x: Ending, base: Database,
                      start: ReplayStart, core: seq<Line>)
    requires LogsMatch(a, m, z, x) && !Unloadable(a)
    ensures
      var torn := ReplayResult(start, ReplayLines(limit, start, base, core + TornEnd(x)));
      var clean := ReplayResult(start, ReplayLines(limit, start, base, core + CleanEnd(x)));
      (x.UnendedCommit? && clean.Ok? ==> torn == clean) && (x.Ended? || x.HalfRecord? ==> torn == clean)
  {
    hide ReplayLines, ReplayResult, Unloadable;
    TornEndReads(a, z, x);
    assert core + [] == core;
    if x.HalfRecord? {
      HalfRecordAddsNothing(limit, start, base, core, x.content);
    } else if x.UnendedCommit? {
      if ReplayResult(start, ReplayLines(limit, start, base, core + CleanEnd(x))).Ok? {
        UnendedCommitCounts(limit, start, base, core, x.id);
      }
    }
  }

  // ----- The torn run follows its clean one -----

  /** Ids that mark something have been used. */
  ghost predicate MarksUsed(a: Machine, z: Zones, x: Ending) {
    (forall id :: MarkInZones(z, id) ==> id in a.usedIds)
    && (LastOf(a.disk.metadata).Some? ==> LastOf(a.disk.metadata).value in a.usedIds)
    && (!a.phase.Down? && a.flush.lastTransactionId.Some? ==> a.flush.lastTransactionId.value in a.usedIds)
    && (x.FailedCommit? || x.UnendedCommit? || x.SwallowedCommit? ==> x.id in a.usedIds)
  }

  /** What a phase knows of the log: an open transaction's id marks nothing yet; a snapshot's
      mark ends it, and once the log is cut nothing broken is left. */
  ghost predicate PhaseFollows(a: Machine, z: Zones, x: Ending) {
    match a.phase
    case Committing(id, _) =>
      x.Ended? && id in a.usedIds && !MarkInZones(z, id) && LastOf(a.disk.metadata) != Some(id)
    case Snapshotting(step) =>
      x.Ended? && a.flush.lastTransactionId.Some?
      && (step.WriteFile? || step.WriteMetadata? || step.CompactLog? ==>
            z.shared != [] && IsCommitOf(z.shared[|z.shared| - 1], a.flush.lastTransactionId.value))
      && (step.CompactLog? ==> StartOf(a.disk.metadata) == After(a.flush.lastTransactionId.value))
      && (step.WriteCompactedMetadata? || step.WriteBase? ==> z.broken == [] && a.disk.metadata.Some?)
    case _ => true
  }

  /** Up, the two machines differ in their logs only; a failed commit is still undecided in the clean one. */
  predicate MachinesMatch(a: Machine, m: Machine, x: Ending) {
    a.usedIds == m.usedIds
    && (if x.FailedCommit? then a.phase.Idle? && m.phase.Committing? && m.phase.id == x.id else a.phase == m.phase)
    && (!a.phase.Down? ==> a.memory == m.memory && a.flush == m.flush)
  }

  ghost predicate Follows(a: Machine, m: Machine, z: Zones, x: Ending) {
    DisksMatch(a.disk, m.disk, z, x) && MachinesMatch(a, m, x) && MarksUsed(a, z, x) && PhaseFollows(a, z, x)
  }

  /** The same with the clean machine's open transaction, if any, failed. */
  ghost predicate Resolved(a: Machine, m: Machine, z: Zones, x: Ending) {
    DisksMatch(a.disk, m.disk, z, x) && MarksUsed(a, z, x) && PhaseFollows(a, z, x)
    && a.usedIds == m.usedIds && a.phase == m.phase && (!a.phase.Down? ==> a.memory == m.memory && a.flush == m.flush)
  }

  /** The clean run up to the next append. */
  function Settled(limits: StoreLimits, m: Machine, x: Ending): Option<Machine> {
    if x.FailedCommit? then Step(limits, m, CommitFails) else Some(m)
  }

  lemma FollowsResolves(limits: StoreLimits, a: Machine, m: Machine, z: Zones, x: Ending)
    requires Follows(a, m, z, x)
    ensures Settled(limits, m, x).Some? && Resolved(a, Settled(limits, m, x).value, z, x)
  {
    hide DisksMatch, MarksUsed, MarkIn;
  }

  /** Where the next record runs into what is left of the last one. */
  function RunInto(z: Zones, x: Ending, record: Record): Zones {
    if x.Ended? then z.(shared := z.shared + [Line(Parsed(record), true)])
    else
      var line := Line(Joined(TornEnd(x)[0].content, Parsed(record)), true);
      Zones(z.broken + z.shared + [line], z.whole + z.shared + CleanEnd(x) + [Line(Parsed(record), true)], [])
  }

  lemma MarkInJoin(a: seq<Line>, b: seq<Line>, id: string)
    ensures MarkIn(a + b, id) <==> MarkIn(a, id) || MarkIn(b, id)
  {
    hide IsHighWater;
    var both := a + b;
    if MarkIn(a, id) {
      var i :| 0 <= i < |a| && IsHighWater(a[i], id);
      assert both[i] == a[i];
    }
    if MarkIn(b, id) {
      var i :| 0 <= i < |b| && IsHighWater(b[i], id);
      assert both[|a| + i] == b[i];
    }
    if MarkIn(both, id) {
      var i :| 0 <= i < |both| && IsHighWater(both[i], id);
      assert both[i] == if i < |a| then a[i] else b[i - |a|];
    }
  }

  lemma MarkInOne(line: Line, id: string)
    ensures MarkIn([line], id) <==> IsHighWater(line, id)
  {
    hide IsHighWater;
    if IsHighWater(line, id) {
      assert IsHighWater([line][0], id);
    }
  }

  lemma NoMarkInNothing(id: string)
    ensures !MarkIn([], id)
  {
  }

  /** A begin marks nothing, and neither does a line it runs into. */
  lemma BeginRunsInto(z: Zones, x: Ending, begin: Record, id: string)
    requires begin.Begin? && EndingHolds(x)
    ensures MarkInZones(RunInto(z, x, begin), id) ==> MarkInZones(z, id) || MarkIn(CleanEnd(x), id)
    ensures x.Ended? ==> MarkIn(RunInto(z, x, begin).shared, id) == MarkIn(z.shared, id)
    ensures !x.Ended? ==> !MarkIn(RunInto(z, x, begin).shared, id)
  {
    hide MarkIn;
    var line := Line(Parsed(begin), true);
    MarkInOne(line, id);
    NoMarkInNothing(id);
    MarkInJoin(z.shared, [line], id);
    if !x.Ended? {
      var torn := Line(Joined(TornEnd(x)[0].content, Parsed(begin)), true);
      MarkInOne(torn, id);
      MarkInJoin(z.broken, z.shared, id);
      MarkInJoin(z.broken + z.shared, [torn], id);
      MarkInJoin(z.whole, z.shared, id);
      MarkInJoin(z.whole + z.shared, CleanEnd(x), id);
      MarkInJoin(z.whole + z.shared + CleanEnd(x), [line], id);
    }
  }

  lemma CleanEndMarks(x: Ending, id: string)
    ensures MarkIn(CleanEnd(x), id) <==> (x.UnendedCommit? || x.SwallowedCommit?) && x.id == id
  {
    hide MarkIn;
    NoMarkInNothing(id);
    if x.UnendedCommit? || x.SwallowedCommit? {
      MarkInOne(CleanEnd(x)[0], id);
    }
  }

  /** Appending where the file ends keeps the two logs matched. */
  lemma AppendedLogs(a: Disk, m: Disk, z: Zones, x: Ending, record: Record)
    requires LogsMatch(a, m, z, x) && (x.Ended? || record.Begin?)
    ensures LogsMatch(Grown(a, record), WithRecord(m, record), RunInto(z, x, record), Ended)
  {
    if x.Ended? {
      AppendedAfterNewline(a, m, z, record);
    } else {
      AppendedOntoEnd(a, m, z, x, record);
    }
  }

  lemma AppendedAfterNewline(a: Disk, m: Disk, z: Zones, record: Record)
    requires LogsMatch(a, m, z, Ended)
    ensures LogsMatch(Grown(a, record), WithRecord(m, record), RunInto(z, Ended, record), Ended)
  {
    var after := RunInto(z, Ended, record);
    EndsWithNewline(a, m, z);
    assert Appended(Lines(a), record) == z.broken + after.shared + [];
    assert Lines(m) + [Line(Parsed(record), true)] == z.whole + after.shared + [];
  }

  lemma AppendedOntoEnd(a: Disk, m: Disk, z: Zones, x: Ending, begin: Record)
    requires LogsMatch(a, m, z, x) && !x.Ended? && begin.Begin?
    ensures LogsMatch(Grown(a, begin), WithRecord(m, begin), RunInto(z, x, begin), Ended)
  {
    hide Whole;
    var lines, after := Lines(a), RunInto(z, x, begin);
    assert lines[..|lines| - 1] == z.broken + z.shared;
    assert Appended(lines, begin) == after.broken + [] + [];
    assert Lines(m) + [Line(Parsed(begin), true)] == after.whole + [] + [];
    JoinIsWhole(z.whole, z.shared);
    JoinIsWhole(z.whole + z.shared, CleanEnd(x));
    JoinIsWhole(z.whole + z.shared + CleanEnd(x), [Line(Parsed(begin), true)]);
  }

  lemma JoinIsWhole(a: seq<Line>, b: seq<Line>)
    requires Whole(a)
    ensures Whole(b) ==> Whole(a + b)
    ensures |b| == 1 && b[0].newline && b[0].content.Parsed? ==> Whole(a + b)
    ensures Whole([])
  {
  }

  lemma EndsWithNewline(a: Disk, m: Disk, z: Zones)
    requires LogsMatch(a, m, z, Ended)
    ensures Lines(a) != [] ==> Lines(a)[|Lines(a)| - 1].newline
  {
    if z.shared != [] {
      assert Lines(a)[|Lines(a)| - 1] == z.shared[|z.shared| - 1];
    } else if z.broken != [] {
      assert Lines(a)[|Lines(a)| - 1] == z.broken[|z.broken| - 1];
    }
  }

  // ----- Step by step -----

  lemma BeginFollows(limits: StoreLimits, a: Machine, m: Machine, z: Zones, x: Ending, id: string, ms: seq<Mutation>)
    requires Resolved(a, m, z, x) && Step(limits, a, BeginTransaction(id, ms)).Some?
    ensures Step(limits, m, BeginTransaction(id, ms)).Some?
    ensures Follows(TornStep(limits, a, Clean(BeginTransaction(id, ms))).value,
                    Step(limits, m, BeginTransaction(id, ms)).value, RunInto(z, x, Begin(id, ms)), Ended)
  {
    hide Admit, LogsMatch, MarkIn, RunInto, IsHighWater;
    AppendedLogs(a.disk, m.disk, z, x, Begin(id, ms));
    LogsHoldEnding(a.disk, m.disk, z, x);
    forall other
      ensures MarkInZones(RunInto(z, x, Begin(id, ms)), other) ==> other in a.usedIds
      ensures MarkIn(RunInto(z, x, Begin(id, ms)).shared, other) ==>
        !MarkIn(RunInto(z, x, Begin(id, ms)).broken, other) && !MarkIn(RunInto(z, x, Begin(id, ms)).whole, other)
    {
      BeginRunsInto(z, x, Begin(id, ms), other);
      CleanEndMarks(x, other);
      if x.Ended? {
        EndedKeepsZones(z, x, Begin(id, ms));
      }
    }
  }

  lemma LogsHoldEnding(a: Disk, m: Disk, z: Zones, x: Ending)
    requires LogsMatch(a, m, z, x)
    ensures EndingHolds(x)
  {
  }

  lemma EndedKeepsZones(z: Zones, x: Ending, record: Record)
    requires x.Ended?
    ensures RunInto(z, x, record).broken == z.broken && RunInto(z, x, record).whole == z.whole
  {
  }

  lemma CommitFollows(limits: StoreLimits, a: Machine, m: Machine, z: Zones, x: Ending, due: bool)
    requires Follows(a, m, z, x) && Step(limits, a, CommitTransaction(due)).Some?
    ensures Step(limits, m, CommitTransaction(due)).Some?
    ensures Follows(TornStep(limits, a, Clean(CommitTransaction(due))).value,
                    Step(limits, m, CommitTransaction(due)).value, RunInto(z, x, Commit(a.phase.id)), x)
  {
    hide ApplyAll, LogsMatch, MarkIn;
    var id := a.phase.id;
    var line := Line(Parsed(Commit(id)), true);
    AppendedLogs(a.disk, m.disk, z, x, Commit(id));
    forall other ensures MarkIn(z.shared + [line], other) <==> MarkIn(z.shared, other) || other == id {
      MarkInJoin(z.shared, [line], other);
      MarkInOne(line, other);
    }
  }

  lemma CommitFailsFollows(limits: StoreLimits, a: Machine, m: Machine, z: Zones, x: Ending)
    requires Follows(a, m, z, x) && Step(limits, a, CommitFails).Some?
    ensures Step(limits, m, CommitFails).Some?
    ensures Follows(Step(limits, a, CommitFails).value, Step(limits, m, CommitFails).value, z, x)
  {
    hide LogsMatch, MarkIn;
  }

  lemma SnapshotFailsFollows(limits: StoreLimits, a: Machine, m: Machine, z: Zones, x: Ending)
    requires Follows(a, m, z, x) && Step(limits, a, SnapshotFails).Some?
    ensures Step(limits, m, SnapshotFails).Some?
    ensures Follows(Step(limits, a, SnapshotFails).value, Step(limits, m, SnapshotFails).value, z, x)
  {
    hide LogsMatch, MarkIn;
  }

  /** The steps of a snapshot that leave the log alone. */
  lemma FileWriteFollows(limits: StoreLimits, a: Machine, m: Machine, z: Zones, x: Ending)
    requires Follows(a, m, z, x) && Step(limits, a, SnapshotWrite).Some? && !a.phase.step.CompactLog?
    ensures Step(limits, m, SnapshotWrite).Some?
    ensures Follows(Step(limits, a, SnapshotWrite).value, Step(limits, m, SnapshotWrite).value, z, x)
  {
    hide MarkIn, IsHighWater;
    if a.phase.step.WriteFile? || a.phase.step.WriteMetadata? {
      LogIsThere(a, m, z, x);
    }
  }

  lemma LogIsThere(a: Machine, m: Machine, z: Zones, x: Ending)
    requires Follows(a, m, z, x)
    requires a.phase.Snapshotting?
    requires a.phase.step.WriteFile? || a.phase.step.WriteMetadata? || a.phase.step.CompactLog?
    ensures m.disk.log.Some? && a.disk.log.Some?
  {
    hide MarkIn, IsHighWater;
  }

  /** Cutting the log at the mark cuts everything broken away. */
  lemma CompactFollows(limits: StoreLimits, a: Machine, m: Machine, z: Zones, x: Ending) returns (after: Zones)
    requires Follows(a, m, z, x) && Step(limits, a, SnapshotWrite).Some? && a.phase == Snapshotting(CompactLog)
    ensures Step(limits, m, SnapshotWrite).Some?
    ensures Follows(Step(limits, a, SnapshotWrite).value, Step(limits, m, SnapshotWrite).value, after, x)
  {
    hide IsHighWater, Compacted, ScanFails, IsCommitOf, Whole, MarkIn, LogsMatch;
    LogIsThere(a, m, z, x);
    var id := a.flush.lastTransactionId.value;
    var j := CompactedZones(a.disk, m.disk, z, id);
    var cut := [Line(Parsed(CompactedAfter(id)), true)] + z.shared[j + 1..];
    after := Zones([], [], cut);
    CutMarks(z.shared, id, j + 1);
    SharedIsWhole(a.disk, m.disk, z, x);
    MarkerIsWhole(id, z.shared, j + 1);
    CutLogs(a.disk.(log := Some(cut)), m.disk.(log := Some(cut)), cut);
  }

  lemma SharedIsWhole(a: Disk, m: Disk, z: Zones, x: Ending)
    requires LogsMatch(a, m, z, x)
    ensures Whole(z.shared)
  {
  }

  lemma CutLogs(a: Disk, m: Disk, cut: seq<Line>)
    requires Lines(a) == cut == Lines(m) && Whole(cut)
    ensures LogsMatch(a, m, Zones([], [], cut), Ended)
  {
    assert [] + cut + [] == cut;
  }

  lemma CutMarks(shared: seq<Line>, id: string, k: nat)
    requires k <= |shared|
    ensures var cut := [Line(Parsed(CompactedAfter(id)), true)] + shared[k..];
            forall other :: MarkIn(cut, other) ==> other == id || MarkIn(shared, other)
    ensures forall other :: !MarkIn([], other)
  {
    hide IsHighWater, MarkIn;
    var marker := Line(Parsed(CompactedAfter(id)), true);
    forall other
      ensures MarkIn([marker] + shared[k..], other) ==> other == id || MarkIn(shared, other)
      ensures !MarkIn([], other)
    {
      MarkInRest(shared, k, other);
      MarkInJoin([marker], shared[k..], other);
      MarkInOne(marker, other);
      MarkerMarks(marker, id, other);
      NoMarkInNothing(other);
    }
  }

  lemma MarkerIsWhole(id: string, lines: seq<Line>, k: nat)
    requires Whole(lines) && k <= |lines|
    ensures Whole([Line(Parsed(CompactedAfter(id)), true)] + lines[k..]) && Whole([])
  {
  }

  lemma MarkerMarks(marker: Line, id: string, other: string)
    requires marker == Line(Parsed(CompactedAfter(id)), true)
    ensures IsHighWater(marker, other) ==> other == id
  {
  }

  lemma MarkInRest(lines: seq<Line>, k: nat, id: string)
    requires k <= |lines|
    ensures MarkIn(lines[k..], id) ==> MarkIn(lines, id)
  {
    hide IsHighWater;
    if MarkIn(lines[k..], id) {
      var i :| 0 <= i < |lines[k..]| && IsHighWater(lines[k..][i], id);
      assert lines[k + i] == lines[k..][i];
    }
  }

  /** The mark stands behind everything broken, so both logs are cut at the same line. */
  lemma CompactedZones(a: Disk, m: Disk, z: Zones, id: string) returns (j: nat)
    requires DisksMatch(a, m, z, Ended)
    requires z.shared != [] && IsCommitOf(z.shared[|z.shared| - 1], id)
    ensures j < |z.shared| && !ScanFails(Lines(m), id)
    ensures Compacted(Lines(a), id) == Some([Line(Parsed(CompactedAfter(id)), true)] + z.shared[j + 1..])
    ensures Compacted(Lines(m), id) == Some([Line(Parsed(CompactedAfter(id)), true)] + z.shared[j + 1..])
  {
    hide IsCommitOf, Unloadable;
    var last := |z.shared| - 1;
    CommitIsMark(z.shared[last], id);
    assert MarkIn(z.shared, id);
    NoMarkNoCommit(z.broken, id);
    NoMarkNoCommit(z.whole, id);
    j := FirstCommit(z.shared, id, last);
    CompactedBehind(z.broken, z.shared, id, j);
    CompactedBehind(z.whole, z.shared, id, j);
    assert Lines(a) == z.broken + z.shared && Lines(m) == z.whole + z.shared;
    WholeScans(z.whole, z.shared, id);
  }

  lemma CompactedBehind(front: seq<Line>, shared: seq<Line>, id: string, j: nat)
    requires NotCommitted(front, id) && j < |shared| && IsCommitOf(shared[j], id) && NotCommitted(shared[..j], id)
    ensures Compacted(front + shared, id) == Some([Line(Parsed(CompactedAfter(id)), true)] + shared[j + 1..])
  {
    hide IsCommitOf;
    var lines, p := front + shared, |front| + j;
    forall i | 0 <= i < p ensures !IsCommitOf(lines[i], id) {
      assert lines[i] == if i < |front| then front[i] else shared[..j][i - |front|];
    }
    FirstCommitIs(lines, id, p);
    assert lines[p + 1..] == shared[j + 1..];
  }

  lemma WholeScans(whole: seq<Line>, shared: seq<Line>, id: string)
    requires Whole(whole) && Whole(shared)
    ensures !ScanFails(whole + shared, id)
  {
  }

  lemma CommitIsMark(line: Line, id: string)
    ensures IsCommitOf(line, id) ==> IsHighWater(line, id)
  {
  }

  lemma NoMarkNoCommit(lines: seq<Line>, id: string)
    ensures !MarkIn(lines, id) ==> NotCommitted(lines, id)
  {
  }

  lemma {:induction false} FirstCommit(lines: seq<Line>, id: string, j: nat) returns (p: nat)
    requires j < |lines| && IsCommitOf(lines[j], id)
    ensures p <= j && IsCommitOf(lines[p], id) && NotCommitted(lines[..p], id)
  {
    hide IsCommitOf;
    p := j;
    if i :| 0 <= i < j && IsCommitOf(lines[i], id) {
      p := FirstCommit(lines, id, i);
    }
  }

  /** A failing append leaves the clean log as it is. */
  lemma TearLogs(a: Disk, m: Disk, z: Zones, x: Ending, id: string, ms: seq<Mutation>, torn: Content)
    requires LogsMatch(a, m, z, x) && TearOf(Begin(id, ms), torn)
    ensures LogsMatch(WithTear(a, torn), m, z, NextEnding(x, BeginTears(id, ms, torn)))
  {
    hide Whole;
    var lines := Lines(a);
    var after := NextEnding(x, BeginTears(id, ms, torn));
    if x.Ended? {
      EndsWithNewline(a, m, z);
      assert Tear(lines, torn) == z.broken + z.shared + TornEnd(after);
    } else {
      assert lines[..|lines| - 1] == z.broken + z.shared;
      assert Tear(lines, torn) == z.broken + z.shared + TornEnd(after);
    }
  }

  lemma BeginTearsFollows(limits: StoreLimits, a: Machine, m: Machine, z: Zones, x: Ending, e: TornEvent)
    requires Resolved(a, m, z, x) && e.BeginTears? && TornStep(limits, a, e).Some?
    ensures Follows(TornStep(limits, a, e).value, m, z, NextEnding(x, e))
  {
    hide LogsMatch, MarkIn, Admit;
    TearLogs(a.disk, m.disk, z, x, e.id, e.mutations, e.torn);
  }

  lemma CommitTearsFollows(limits: StoreLimits, a: Machine, m: Machine, z: Zones, x: Ending, e: TornEvent)
    requires Follows(a, m, z, x) && e.CommitTears? && TornStep(limits, a, e).Some?
    ensures e.torn.Parsed? ==> Follows(TornStep(limits, a, e).value, m, z, NextEnding(x, e))
    ensures !e.torn.Parsed? ==>
      Step(limits, m, CommitFails).Some?
      && Follows(TornStep(limits, a, e).value, Step(limits, m, CommitFails).value, z, NextEnding(x, e))
  {
    hide MarkIn, LogsMatch;
    CommitTearLogs(a.disk, m.disk, z, e);
  }

  lemma CommitTearLogs(a: Disk, m: Disk, z: Zones, e: TornEvent)
    requires LogsMatch(a, m, z, Ended) && e.CommitTears? && TearOf(Commit(e.id), e.torn)
    ensures LogsMatch(WithTear(a, e.torn), m, z, NextEnding(Ended, e))
  {
    hide Whole;
    EndsWithNewline(a, m, z);
    assert Tear(Lines(a), e.torn) == z.broken + z.shared + TornEnd(NextEnding(Ended, e));
  }

  /** Going down decides a failed commit: its record is whole, and counts. */
  lemma CrashFollows(limits: StoreLimits, a: Machine, m: Machine, z: Zones, x: Ending)
    requires Follows(a, m, z, x)
    ensures
      var mid := if x.FailedCommit? then Step(limits, m, CommitTransaction(false)) else Some(m);
      mid.Some? && Step(limits, mid.value, Crash).Some?
      && Follows(Step(limits, a, Crash).value, Step(limits, mid.value, Crash).value, z, NextEnding(x, Clean(Crash)))
  {
    hide MarkIn, Whole, ApplyAll;
    if x.FailedCommit? {
      assert z.whole + z.shared + [] == z.whole + z.shared;
    }
  }

  /** A disk that opens opens like the clean one. */
  lemma RestartFollows(limits: StoreLimits, a: Machine, m: Machine, z: Zones, x: Ending)
    requires Follows(a, m, z, x) && Step(limits, a, Restart).Some?
    requires Load(limits.memoryLimitBytes, m.disk).Ok? && !x.SwallowedCommit?
    ensures Step(limits, m, Restart).Some?
    ensures Follows(Step(limits, a, Restart).value, Step(limits, m, Restart).value, z, x)
  {
    hide LogsMatch, MarkIn, Load, Unloadable;
    if Unloadable(a.disk) {
      UnloadableFails(limits.memoryLimitBytes, a.disk);
    }
    LoadFollows(limits.memoryLimitBytes, a.disk, m.disk, z, x);
  }

  // ----- Whole runs -----

  lemma RunOne(limits: StoreLimits, m: Machine, e: Event)
    ensures Run(limits, m, [e]) == Step(limits, m, e)
  {
    hide Step;
    assert [e][..0] == [];
    assert Run(limits, m, []) == Some(m);
  }

  lemma RunTwo(limits: StoreLimits, m: Machine, e: Event, f: Event)
    requires Step(limits, m, e).Some?
    ensures Run(limits, m, [e, f]) == Step(limits, Step(limits, m, e).value, f)
  {
    hide Step;
    RunOne(limits, m, e);
    assert [e, f][..1] == [e];
  }

  lemma SnapshotWriteFollows(limits: StoreLimits, a: Machine, m: Machine, z: Zones, x: Ending) returns (after: Zones)
    requires Follows(a, m, z, x) && Step(limits, a, SnapshotWrite).Some?
    ensures Step(limits, m, SnapshotWrite).Some?
    ensures Follows(Step(limits, a, SnapshotWrite).value, Step(limits, m, SnapshotWrite).value, after, x)
  {
    hide Follows, CannotCompact;
    if a.phase == Snapshotting(CompactLog) {
      after := CompactFollows(limits, a, m, z, x);
    } else {
      FileWriteFollows(limits, a, m, z, x);
      after := z;
    }
  }

  lemma FailedCommitIsIdle(a: Machine, m: Machine, z: Zones, x: Ending)
    requires Follows(a, m, z, x)
    ensures x.FailedCommit? ==> a.phase.Idle?
    ensures a.phase.Committing? ==> x.Ended?
  {
    hide LogsMatch, MarkIn;
  }

  /** Every event of the torn run is matched by the clean events that stand for it. */
  lemma EventFollows(limits: StoreLimits, a: Machine, m: Machine, z: Zones, x: Ending, event: Event)
    returns (after: Zones)
    requires Follows(a, m, z, x) && TornStep(limits, a, Clean(event)).Some?
    requires event.Restart? ==> Load(limits.memoryLimitBytes, m.disk).Ok? && !x.SwallowedCommit?
    ensures Run(limits, m, CleanEvents(x, Clean(event))).Some?
    ensures Follows(TornStep(limits, a, Clean(event)).value, Run(limits, m, CleanEvents(x, Clean(event))).value,
                    after, NextEnding(x, Clean(event)))
  {
    hide Follows, Resolved, Run, Admit, Load, CannotCompact, RunInto, ApplyAll;
    FailedCommitIsIdle(a, m, z, x);
    RunOne(limits, m, event);
    after := z;
    match event {
      case BeginTransaction(id, ms) =>
        FollowsResolves(limits, a, m, z, x);
        BeginFollows(limits, a, Settled(limits, m, x).value, z, x, id, ms);
        if x.FailedCommit? {
          RunTwo(limits, m, CommitFails, event);
        }
        after := RunInto(z, x, Begin(id, ms));
      case CommitTransaction(due) =>
        CommitFollows(limits, a, m, z, x, due);
        after := RunInto(z, x, Commit(a.phase.id));
      case CommitFails => CommitFailsFollows(limits, a, m, z, x);
      case SnapshotWrite => after := SnapshotWriteFollows(limits, a, m, z, x);
      case SnapshotFails => SnapshotFailsFollows(limits, a, m, z, x);
      case Crash =>
        CrashFollows(limits, a, m, z, x);
        if x.FailedCommit? {
          RunTwo(limits, m, CommitTransaction(false), Crash);
        }
      case Restart => RestartFollows(limits, a, m, z, x);
    }
  }

  lemma TearFollows(limits: StoreLimits, a: Machine, m: Machine, z: Zones, x: Ending, e: TornEvent)
    requires Follows(a, m, z, x) && !e.Clean? && TornStep(limits, a, e).Some?
    ensures Run(limits, m, CleanEvents(x, e)).Some?
    ensures Follows(TornStep(limits, a, e).value, Run(limits, m, CleanEvents(x, e)).value, z, NextEnding(x, e))
  {
    hide Follows, Resolved, Run, Admit;
    NothingRun(limits, m);
    RunOne(limits, m, CommitFails);
    if e.BeginTears? {
      FollowsResolves(limits, a, m, z, x);
      BeginTearsFollows(limits, a, Settled(limits, m, x).value, z, x, e);
    } else {
      CommitTearsFollows(limits, a, m, z, x, e);
    }
  }

  /** No process starts from a disk that is spoiled or has lost a commit to a later record. */
  ghost predicate NoLostRestart(limits: StoreLimits, es: seq<TornEvent>) {
    forall i :: 0 <= i < |es| && es[i] == Clean(Restart) ==>
      !Spoiled(limits, Cleaned(es[..i])) && !EndingAfter(es[..i]).SwallowedCommit?
  }

  lemma NoSpoiledMore(limits: StoreLimits, es: seq<Event>, fs: seq<Event>)
    requires NoSpoiledRestart(limits, es)
    requires forall i :: 0 <= i < |fs| && fs[i].Restart? ==> i == 0 && !Spoiled(limits, es)
    ensures NoSpoiledRestart(limits, es + fs)
  {
    hide Spoiled;
    var all := es + fs;
    forall i | 0 <= i < |all| && all[i].Restart? ensures !Spoiled(limits, all[..i]) {
      if i < |es| {
        assert all[..i] == es[..i];
      } else {
        assert fs[i - |es|].Restart?;
        assert all[..i] == es;
      }
    }
  }

  lemma NothingTorn(limits: StoreLimits)
    ensures Follows(INITIAL_MACHINE, INITIAL_MACHINE, Zones([], [], []), Ended)
    ensures NoSpoiledRestart(limits, [])
  {
  }

  /** The clean run behind a torn one exists, and the machines stay together. */
  lemma {:induction false} RunFollows(limits: StoreLimits, es: seq<TornEvent>) returns (z: Zones)
    requires TornRun(limits, INITIAL_MACHINE, es).Some? && NoLostRestart(limits, es)
    ensures Run(limits, INITIAL_MACHINE, Cleaned(es)).Some? && NoSpoiledRestart(limits, Cleaned(es))
    ensures Follows(TornRun(limits, INITIAL_MACHINE, es).value, Run(limits, INITIAL_MACHINE, Cleaned(es)).value,
                    z, EndingAfter(es))
  {
    hide Follows, TornStep, Run, Spoiled, NoSpoiledRestart, CleanEvents, NextEnding, Load, Normalized, ApplyAll;
    NothingTorn(limits);
    if es == [] {
      NothingRun(limits, INITIAL_MACHINE);
      z := Zones([], [], []);
    } else {
      var n := |es| - 1;
      var earlier, e := es[..n], es[n];
      forall i | 0 <= i < n ensures earlier[..i] == es[..i] && earlier[i] == es[i] {}
      z := RunFollows(limits, earlier);
      var a, m := TornRun(limits, INITIAL_MACHINE, earlier).value, Run(limits, INITIAL_MACHINE, Cleaned(earlier)).value;
      var x := EndingAfter(earlier);
      if e == Clean(Restart) {
        RestartIsDecided(limits, a, m, z, x);
        RecoversExactlyWhatWasCommitted(limits, Cleaned(earlier));
      }
      if e.Clean? {
        z := EventFollows(limits, a, m, z, x, e.event);
      } else {
        TearFollows(limits, a, m, z, x, e);
      }
      RunAppend(limits, INITIAL_MACHINE, Cleaned(earlier), CleanEvents(x, e));
      CleanEventsRestart(x, e);
      NoSpoiledMore(limits, Cleaned(earlier), CleanEvents(x, e));
    }
  }

  lemma RestartIsDecided(limits: StoreLimits, a: Machine, m: Machine, z: Zones, x: Ending)
    requires Follows(a, m, z, x) && TornStep(limits, a, Clean(Restart)).Some?
    ensures !x.FailedCommit?
  {
    hide LogsMatch, MarkIn, Load;
  }

  lemma CleanEventsRestart(x: Ending, e: TornEvent)
    ensures forall i :: 0 <= i < |CleanEvents(x, e)| && CleanEvents(x, e)[i].Restart? ==> e == Clean(Restart)
    ensures !x.FailedCommit? && e == Clean(Restart) ==> CleanEvents(x, e) == [Restart]
  {
  }

  /** What a load of the disk gives, if it gives anything: everything committed in the clean
      run, and a transaction whose commit was reported failed but reached the file whole. */
  ghost function Recoverable(m: Machine, x: Ending): seq<Mutation> {
    if x.FailedCommit? && m.phase.Committing? then m.committed + m.phase.mutations else m.committed
  }

  ghost predicate LoadsAll(limit: nat, disk: Disk, ms: seq<Mutation>) {
    Load(limit, disk).Ok? && Normalized(Load(limit, disk).value) == Normalized(ApplyAll(EMPTY_DATABASE, ms))
  }

  /** Recovery over runs with torn records: wherever appends are cut short and whatever runs
      into them, the disk loads everything recoverable exactly when no line blocks it. */
  lemma RecoversExactlyWhenLoadable(limits: StoreLimits, es: seq<TornEvent>)
    requires TornRun(limits, INITIAL_MACHINE, es).Some? && NoLostRestart(limits, es)
    ensures Run(limits, INITIAL_MACHINE, Cleaned(es)).Some? && NoSpoiledRestart(limits, Cleaned(es))
    ensures
      var a, m := TornRun(limits, INITIAL_MACHINE, es).value, Run(limits, INITIAL_MACHINE, Cleaned(es)).value;
      var x := EndingAfter(es);
      (!a.phase.Down? ==> a.memory == m.memory)
      && (Unloadable(a.disk) ==> Load(limits.memoryLimitBytes, a.disk).Err?)
      && (!Spoiled(limits, Cleaned(es)) && !x.SwallowedCommit? ==>
            (LoadsAll(limits.memoryLimitBytes, a.disk, Recoverable(m, x)) <==> !Unloadable(a.disk)))
  {
    hide Follows, TornRun, Run, Spoiled, NoSpoiledRestart, Load, Normalized, ApplyAll, Unloadable, EndingAfter, Cleaned;
    var z := RunFollows(limits, es);
    var a, m := TornRun(limits, INITIAL_MACHINE, es).value, Run(limits, INITIAL_MACHINE, Cleaned(es)).value;
    var x := EndingAfter(es);
    FollowsMemory(a, m, z, x);
    if Unloadable(a.disk) {
      UnloadableFails(limits.memoryLimitBytes, a.disk);
    } else if !Spoiled(limits, Cleaned(es)) && !x.SwallowedCommit? {
      if x.FailedCommit? {
        FailedCommitReturns(limits, Cleaned(es), a, z, x);
      } else {
        RecoversExactlyWhatWasCommitted(limits, Cleaned(es));
        LoadFollows(limits.memoryLimitBytes, a.disk, m.disk, z, x);
      }
    }
  }

  lemma FollowsMemory(a: Machine, m: Machine, z: Zones, x: Ending)
    requires Follows(a, m, z, x)
    ensures !a.phase.Down? ==> a.memory == m.memory
    ensures DisksMatch(a.disk, m.disk, z, x)
  {
    hide DisksMatch, MarkIn;
  }

  /** A commit that was reported failed but is whole on disk comes back. */
  lemma FailedCommitReturns(limits: StoreLimits, es: seq<Event>, a: Machine, z: Zones, x: Ending)
    requires Run(limits, INITIAL_MACHINE, es).Some? && NoSpoiledRestart(limits, es) && !Spoiled(limits, es)
    requires Follows(a, Run(limits, INITIAL_MACHINE, es).value, z, x) && x.FailedCommit? && !Unloadable(a.disk)
    ensures var m := Run(limits, INITIAL_MACHINE, es).value;
            m.phase.Committing?
            && LoadsAll(limits.memoryLimitBytes, a.disk, m.committed + m.phase.mutations)
  {
    hide Follows, Run, Spoiled, NoSpoiledRestart, Load, Normalized, ApplyAll, Unloadable;
    var m := Run(limits, INITIAL_MACHINE, es).value;
    FailedCommitDecided(limits, a, m, z, x);
    var commit := CommitTransaction(false);
    RunOne(limits, m, commit);
    RunAppend(limits, INITIAL_MACHINE, es, [commit]);
    NoSpoiledMore(limits, es, [commit]);
    CommitDoesNotSpoil(limits, es, commit);
    RecoversExactlyWhatWasCommitted(limits, es + [commit]);
    LoadFollows(limits.memoryLimitBytes, a.disk, Step(limits, m, commit).value.disk, z, UnendedCommit(x.id));
  }

  lemma FailedCommitDecided(limits: StoreLimits, a: Machine, m: Machine, z: Zones, x: Ending)
    requires Follows(a, m, z, x) && x.FailedCommit?
    ensures m.phase.Committing? && Step(limits, m, CommitTransaction(false)).Some?
    ensures Step(limits, m, CommitTransaction(false)).value.committed == m.committed + m.phase.mutations
    ensures DisksMatch(a.disk, Step(limits, m, CommitTransaction(false)).value.disk, z, UnendedCommit(x.id))
  {
    hide MarkIn, Whole, ApplyAll;
    assert z.whole + z.shared + [] == z.whole + z.shared;
  }

  lemma CommitDoesNotSpoil(limits: StoreLimits, es: seq<Event>, e: Event)
    requires !Spoiled(limits, es) && e.CommitTransaction?
    ensures !Spoiled(limits, es + [e])
  {
    assert (es + [e])[..|es + [e]| - 1] == es;
  }

  // ----- From which event to which a disk is unloadable -----

  /** An append onto an unended line makes the disk unloadable, new metadata makes it
      loadable again, and bytes that cannot be read make it unloadable for good. */
  function UnloadableNext(a: Machine, x: Ending, e: TornEvent): bool {
    match e
    case Clean(BeginTransaction(_, _)) => Unloadable(a.disk) || !x.Ended?
    case Clean(SnapshotWrite) =>
      if a.phase == Snapshotting(WriteMetadata) then !Readable(Lines(a.disk)) else Unloadable(a.disk)
    case Clean(_) => Unloadable(a.disk)
    case BeginTears(_, _, torn) => Unloadable(a.disk) || torn.Undecodable?
    case CommitTears(_, torn) => Unloadable(a.disk) || torn.Undecodable?
  }

  predicate BlockedIn(disk: Disk, k: nat)
    requires k <= |Lines(disk)|
  {
    exists i :: 0 <= i < k && Blocks(disk, i)
  }

  predicate StopsLoad(line: Line) {
    line.content.Undecodable? || (line.content.Unparsable? && line.newline)
  }

  /** Lines among which one stops a load that no mark behind it saves. */
  predicate Stops(lines: seq<Line>) {
    exists i :: 0 <= i < |lines| && StopsLoad(lines[i])
  }

  predicate NoMark(metadata: Option<Metadata>, lines: seq<Line>) {
    StartOf(metadata).After? ==> !MarkIn(lines, StartOf(metadata).id)
  }

  lemma UnloadableParts(disk: Disk, front: seq<Line>, rest: seq<Line>)
    requires Lines(disk) == front + rest && NoMark(disk.metadata, rest)
    ensures Unloadable(disk) <==> BlockedIn(disk, |front|) || Stops(rest)
  {
    hide IsHighWater;
    var lines := Lines(disk);
    if i :| 0 <= i < |lines| && Blocks(disk, i) {
      if i >= |front| {
        assert rest[i - |front|] == lines[i];
      }
    }
    if i :| 0 <= i < |rest| && StopsLoad(rest[i]) {
      assert lines[|front| + i] == rest[i];
      assert Blocks(disk, |front| + i);
    }
  }

  lemma BlockedInSame(a: Disk, b: Disk, front: seq<Line>, rest: seq<Line>, other: seq<Line>)
    requires Lines(a) == front + rest && Lines(b) == front + other && a.metadata == b.metadata
    requires NoMark(a.metadata, rest) && NoMark(a.metadata, other)
    ensures BlockedIn(a, |front|) <==> BlockedIn(b, |front|)
  {
    hide IsHighWater;
    forall i | 0 <= i < |front| ensures Blocks(a, i) <==> Blocks(b, i) {
      MarkBehindSame(a, b, front, rest, other, i);
      MarkBehindSame(b, a, front, other, rest, i);
      assert Lines(a)[i] == front[i] == Lines(b)[i];
    }
  }

  lemma MarkBehindSame(a: Disk, b: Disk, front: seq<Line>, rest: seq<Line>, other: seq<Line>, i: nat)
    requires Lines(a) == front + rest && Lines(b) == front + other && a.metadata == b.metadata
    requires NoMark(a.metadata, rest) && i < |front|
    ensures MarkBehind(a, i) ==> MarkBehind(b, i)
  {
    hide IsHighWater;
    if MarkBehind(a, i) {
      var id := StartOf(a.metadata).id;
      var j :| i < j < |Lines(a)| && IsHighWater(Lines(a)[j], id);
      assert Lines(b)[j] == Lines(a)[j];
    }
  }

  /** Replacing what stands behind the last newline changes only whether that stops a load. */
  lemma UnloadableReplaced(a: Disk, b: Disk, front: seq<Line>, rest: seq<Line>, other: seq<Line>)
    requires Lines(a) == front + rest && Lines(b) == front + other && a.metadata == b.metadata
    requires NoMark(a.metadata, rest) && NoMark(a.metadata, other) && (Stops(rest) ==> Stops(other))
    ensures Unloadable(b) <==> Unloadable(a) || Stops(other)
  {
    hide NoMark, Unloadable, BlockedIn, Stops;
    UnloadableParts(a, front, rest);
    UnloadableParts(b, front, other);
    BlockedInSame(a, b, front, rest, other);
  }

  lemma StopsOne(line: Line)
    ensures Stops([line]) <==> StopsLoad(line)
    ensures !Stops([])
  {
    if StopsLoad(line) {
      assert [line][0] == line;
    }
  }

  /** Neither the file's end nor what an open transaction appends is the mark of the metadata. */
  lemma NoMarkAtEnd(a: Machine, z: Zones, x: Ending)
    requires MarksApart(a.disk.metadata, z, x) && EndingHolds(x)
    ensures NoMark(a.disk.metadata, TornEnd(x))
  {
  }

  lemma NoMarkOne(metadata: Option<Metadata>, line: Line)
    requires line.content.Parsed? && !line.content.record.Begin? ==>
               line.content.record.Commit? && LastOf(metadata) != Some(line.content.record.id)
    ensures NoMark(metadata, [line]) && NoMark(metadata, [])
  {
  }

  lemma BeginUnloadable(limits: StoreLimits, a: Machine, m: Machine, z: Zones, x: Ending, id: string, ms: seq<Mutation>)
    requires Follows(a, m, z, x) && Step(limits, a, BeginTransaction(id, ms)).Some?
    ensures var after := TornStep(limits, a, Clean(BeginTransaction(id, ms))).value;
            Unloadable(after.disk) <==> Unloadable(a.disk) || !x.Ended?
  {
    hide MarkIn, Admit, Unloadable, Stops, NoMark, Whole, MarksUsed;
    var front, begin := z.broken + z.shared, Line(Parsed(Begin(id, ms)), true);
    var after := Grown(a.disk, Begin(id, ms));
    NoMarkAtEnd(a, z, x);
    if x.Ended? {
      EndsWithNewline(a.disk, m.disk, z);
      StopsOne(begin);
      NoMarkOne(a.disk.metadata, begin);
      assert Lines(a.disk) == front + [] && Lines(after) == front + [begin];
      UnloadableReplaced(a.disk, after, front, [], [begin]);
    } else {
      var line := Line(Joined(TornEnd(x)[0].content, Parsed(Begin(id, ms))), true);
      StopsOne(TornEnd(x)[0]);
      StopsOne(line);
      NoMarkOne(a.disk.metadata, line);
      assert Lines(a.disk)[..|Lines(a.disk)| - 1] == front;
      assert Lines(after) == front + [line] && TornEnd(x) == [TornEnd(x)[0]];
      UnloadableReplaced(a.disk, after, front, TornEnd(x), [line]);
    }
  }

  lemma CommitUnloadable(limits: StoreLimits, a: Machine, m: Machine, z: Zones, x: Ending, due: bool)
    requires Follows(a, m, z, x) && Step(limits, a, CommitTransaction(due)).Some?
    ensures var after := TornStep(limits, a, Clean(CommitTransaction(due))).value;
            Unloadable(after.disk) <==> Unloadable(a.disk)
  {
    hide MarkIn, ApplyAll, Unloadable, Stops, NoMark, Whole, MarksUsed;
    var front, commit := z.broken + z.shared, Line(Parsed(Commit(a.phase.id)), true);
    var after := Grown(a.disk, Commit(a.phase.id));
    EndsWithNewline(a.disk, m.disk, z);
    StopsOne(commit);
    NoMarkOne(a.disk.metadata, commit);
    assert Lines(a.disk) == front + [] && Lines(after) == front + [commit];
    UnloadableReplaced(a.disk, after, front, [], [commit]);
  }

  lemma TearUnloadable(limits: StoreLimits, a: Machine, m: Machine, z: Zones, x: Ending, e: TornEvent)
    requires Follows(a, m, z, x) && !e.Clean? && TornStep(limits, a, e).Some?
    ensures Unloadable(TornStep(limits, a, e).value.disk) <==> Unloadable(a.disk) || e.torn.Undecodable?
  {
    hide MarkIn, Admit, Unloadable, Stops, NoMark, Whole, MarksUsed;
    var front := z.broken + z.shared;
    var after := TornStep(limits, a, e).value.disk;
    NoMarkAtEnd(a, z, x);
    StopsOne(Line(e.torn, false));
    NoMarkOne(a.disk.metadata, Line(e.torn, false));
    if x.Ended? {
      EndsWithNewline(a.disk, m.disk, z);
      assert Lines(a.disk) == front + [] && Lines(after) == front + [Line(e.torn, false)];
      UnloadableReplaced(a.disk, after, front, [], [Line(e.torn, false)]);
    } else {
      var line := Line(Joined(TornEnd(x)[0].content, e.torn), false);
      StopsOne(TornEnd(x)[0]);
      StopsOne(line);
      NoMarkOne(a.disk.metadata, line);
      assert Lines(a.disk)[..|Lines(a.disk)| - 1] == front;
      assert Lines(after) == front + [line] && TornEnd(x) == [TornEnd(x)[0]];
      UnloadableReplaced(a.disk, after, front, TornEnd(x), [line]);
      StopsMeansUnloadable(a.disk, front, TornEnd(x));
    }
  }

  lemma StopsMeansUnloadable(disk: Disk, front: seq<Line>, rest: seq<Line>)
    requires Lines(disk) == front + rest && NoMark(disk.metadata, rest)
    ensures Stops(rest) ==> Unloadable(disk)
  {
    hide NoMark, Unloadable, BlockedIn, Stops;
    UnloadableParts(disk, front, rest);
  }

  /** With the mark behind everything broken, only bytes that cannot be read block a load. */
  lemma MarkedIsLoadable(disk: Disk, z: Zones, id: string)
    requires Lines(disk) == z.broken + z.shared && Whole(z.shared)
    requires StartOf(disk.metadata) == After(id) && z.shared != [] && IsCommitOf(z.shared[|z.shared| - 1], id)
    ensures Unloadable(disk) <==> !Readable(Lines(disk))
  {
    hide IsCommitOf, IsHighWater;
    var lines := Lines(disk);
    CommitIsMark(z.shared[|z.shared| - 1], id);
    assert lines[|lines| - 1] == z.shared[|z.shared| - 1];
    forall i | 0 <= i < |lines| ensures Blocks(disk, i) <==> lines[i].content.Undecodable? {
      assert i < |z.broken| ==> MarkBehind(disk, i);
      assert i >= |z.broken| ==> lines[i] == z.shared[i - |z.broken|];
    }
  }

  lemma WholeIsLoadable(disk: Disk)
    requires Whole(Lines(disk))
    ensures !Unloadable(disk)
  {
  }

  /** A log that cannot be read is never cut. */
  lemma UnreadableIsNotCut(a: Machine, z: Zones)
    requires Lines(a.disk) == z.broken + z.shared && Whole(z.shared) && a.flush.lastTransactionId.Some?
    requires a.disk.log.Some? && !MarkIn(z.broken, a.flush.lastTransactionId.value)
    ensures CannotCompact(a.disk, a.flush) <== !Readable(Lines(a.disk))
  {
    hide IsCommitOf;
    var lines, id := Lines(a.disk), a.flush.lastTransactionId.value;
    NoMarkNoCommit(z.broken, id);
    if i :| 0 <= i < |lines| && lines[i].content.Undecodable? {
      assert i < |z.broken|;
      forall j | 0 <= j < i ensures !IsCommitOf(lines[j], id) { assert lines[j] == z.broken[j]; }
      assert NotCommitted(lines[..i], id);
    }
  }

  lemma SnapshotUnloadable(limits: StoreLimits, a: Machine, m: Machine, z: Zones, x: Ending)
    requires Follows(a, m, z, x) && Step(limits, a, SnapshotWrite).Some?
    ensures Unloadable(Step(limits, a, SnapshotWrite).value.disk) <==> UnloadableNext(a, x, Clean(SnapshotWrite))
  {
    hide IsHighWater, IsCommitOf, Unloadable, Compacted, ScanFails, MarkIn, Readable;
    assert z.broken + z.shared + [] == z.broken + z.shared;
    var after := Step(limits, a, SnapshotWrite).value.disk;
    match a.phase.step {
      case WriteFile => UnloadableByLog(a.disk, after);
      case WriteMetadata => MarkedIsLoadable(after, z, a.flush.lastTransactionId.value);
      case CompactLog =>
        var id := a.flush.lastTransactionId.value;
        LogIsThere(a, m, z, x);
        LastIsMark(z, id);
        UnreadableIsNotCut(a, z);
        MarkedIsLoadable(a.disk, z, id);
        var j := CompactedZones(a.disk, m.disk, z, id);
        MarkerIsWhole(id, z.shared, j + 1);
        WholeIsLoadable(after);
      case WriteCompactedMetadata => WholeIsLoadable(a.disk); WholeIsLoadable(after);
      case WriteBase => WholeIsLoadable(a.disk); WholeIsLoadable(after);
    }
  }

  lemma LastIsMark(z: Zones, id: string)
    requires z.shared != [] && IsCommitOf(z.shared[|z.shared| - 1], id)
    ensures MarkIn(z.shared, id)
  {
  }

  lemma UnloadableByLog(a: Disk, b: Disk)
    requires Lines(a) == Lines(b) && a.metadata == b.metadata
    ensures Unloadable(a) <==> Unloadable(b)
  {
    hide IsHighWater;
    forall i | 0 <= i < |Lines(a)| ensures Blocks(a, i) <==> Blocks(b, i) {
      assert MarkBehind(a, i) <==> MarkBehind(b, i);
    }
  }

  /** In every run: a disk turns unloadable with an append onto an unended line or with
      bytes that cannot be read, and loadable with new metadata; nothing else changes it. */
  lemma UnloadableExactlyWhen(limits: StoreLimits, es: seq<TornEvent>, e: TornEvent)
    requires TornRun(limits, INITIAL_MACHINE, es).Some? && NoLostRestart(limits, es)
    requires TornStep(limits, TornRun(limits, INITIAL_MACHINE, es).value, e).Some?
    ensures var a := TornRun(limits, INITIAL_MACHINE, es).value;
            Unloadable(TornStep(limits, a, e).value.disk) <==> UnloadableNext(a, EndingAfter(es), e)
  {
    hide TornRun, Run, NoLostRestart, Follows, Unloadable, Readable, Grown, Admit, ApplyAll, Open, CannotCompact;
    var z := RunFollows(limits, es);
    var a, m := TornRun(limits, INITIAL_MACHINE, es).value, Run(limits, INITIAL_MACHINE, Cleaned(es)).value;
    var x := EndingAfter(es);
    match e {
      case Clean(BeginTransaction(id, ms)) => BeginUnloadable(limits, a, m, z, x, id, ms);
      case Clean(CommitTransaction(due)) => CommitUnloadable(limits, a, m, z, x, due);
      case Clean(SnapshotWrite) => SnapshotUnloadable(limits, a, m, z, x);
      case Clean(_) =>
      case BeginTears(_, _, _) => TearUnloadable(limits, a, m, z, x, e);
      case CommitTears(_, _) => TearUnloadable(limits, a, m, z, x, e);
    }
  }

  /** A process that starts from an unended commit and then tears a record onto it loses the
      commit again: the disk loads what the clean one would without its last line. */
  lemma SwallowedCommitIsLost(limits: StoreLimits, es: seq<TornEvent>)
    requires TornRun(limits, INITIAL_MACHINE, es).Some? && NoLostRestart(limits, es)
    requires EndingAfter(es).SwallowedCommit? && !Unloadable(TornRun(limits, INITIAL_MACHINE, es).value.disk)
    ensures
      var a := TornRun(limits, INITIAL_MACHINE, es).value;
      var clean := Run(limits, INITIAL_MACHINE, Cleaned(es));
      clean.Some?
      && var lines := Lines(clean.value.disk);
         lines != [] && lines[|lines| - 1] == Line(Parsed(Commit(EndingAfter(es).id)), true)
         && Load(limits.memoryLimitBytes, a.disk)
              == Load(limits.memoryLimitBytes, clean.value.disk.(log := Some(lines[..|lines| - 1])))
  {
    hide TornRun, Run, NoLostRestart, Unloadable, Load, MarksUsed, PhaseFollows, MarksApart;
    var z := RunFollows(limits, es);
    var a, m := TornRun(limits, INITIAL_MACHINE, es).value, Run(limits, INITIAL_MACHINE, Cleaned(es)).value;
    LoadFollows(limits.memoryLimitBytes, a.disk, m.disk, z, EndingAfter(es));
    assert Lines(m.disk)[..|Lines(m.disk)| - 1] == z.whole + z.shared;
  }
}

