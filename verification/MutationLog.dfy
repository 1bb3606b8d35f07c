/** The mutation log: what its lines are, how a load replays them, and how a snapshot
    lets it be cut. */
module MutationLog {
  import opened Prelude
  import opened Catalog

  datatype Record =
    | Begin(id: string, mutations: seq<Mutation>)
    | Commit(id: string)
    | CompactedAfter(id: string)
    | OtherTransaction
    | Plain(mutation: Mutation)

  /** `Undecodable` bytes are no UTF-8: reading them as a line fails before anything looks at it. */
  datatype Content = Blank | Undecodable | Unparsable | Parsed(record: Record)

  /** One line of the file; only the last one can lack its newline. */
  datatype Line = Line(content: Content, newline: bool)

  datatype ReplayStart = Beginning | After(id: string)

  datatype ReplayState = ReplayState(db: Database, pending: map<string, seq<Mutation>>, waiting: bool)

  /** A database that was being loaded, and whether every check on the way passed. */
  datatype Loading<T> = Loading(state: T, ok: bool)

  function InvalidData(): StoreError { StoreError(500, "invalid_data") }

  ghost predicate SplitAtNewlines(lines: seq<Line>) {
    forall i :: 0 <= i < |lines| - 1 ==> lines[i].newline
  }

  // ----- Replay -----

  /** Applies mutations in order, stopping after the first that takes the estimate over the limit. */
  function LoadMutations(limit: nat, db: Database, ms: seq<Mutation>): Loading<Database> {
    if ms == [] then Loading(db, true) else
    var before := LoadMutations(limit, db, ms[..|ms| - 1]);
    if !before.ok then before else
    var after := Applied(before.state, ms[|ms| - 1]);
    Loading(after, DatabaseBytes(after) <= limit)
  }

  function ReplayRecord(limit: nat, st: ReplayState, record: Record): Loading<ReplayState> {
    match record
    case Begin(id, ms) => Loading(st.(pending := st.pending[id := ms]), true)
    case Commit(id) =>
      if id !in st.pending then Loading(st, true) else
      var loaded := LoadMutations(limit, st.db, st.pending[id]);
      Loading(st.(db := loaded.state, pending := st.pending - {id}), loaded.ok)
    case Plain(m) =>
      var loaded := LoadMutations(limit, st.db, [m]);
      Loading(st.(db := loaded.state), loaded.ok)
    case _ => Loading(st, true)
  }

  predicate IsCommitOf(line: Line, id: string) {
    line.content == Parsed(Commit(id))
  }

  predicate IsHighWater(line: Line, id: string) {
    IsCommitOf(line, id) || line.content == Parsed(CompactedAfter(id))
  }

  function ReplayLine(limit: nat, start: ReplayStart, st: ReplayState, line: Line): Loading<ReplayState> {
    if line.content.Blank? then Loading(st, true)
    else if start.After? && st.waiting then
      Loading(if IsHighWater(line, start.id) then st.(waiting := false) else st, true)
    else if !line.content.Parsed? then Loading(st, false)
    else ReplayRecord(limit, st, line.content.record)
  }

  function StartState(start: ReplayStart, db: Database): ReplayState {
    ReplayState(db, map[], start.After?)
  }

  /** The state after the lines, or an error; a failure on a line without newline is a torn
      tail and passes, but not if the line cannot even be read. */
  function ReplayLines(limit: nat, start: ReplayStart, db: Database, lines: seq<Line>): Result<ReplayState> {
    if lines == [] then Ok(StartState(start, db)) else
    match ReplayLines(limit, start, db, lines[..|lines| - 1])
    case Err(e) => Err(e)
    case Ok(st) => NextState(limit, start, st, lines[|lines| - 1])
  }

  function NextState(limit: nat, start: ReplayStart, st: ReplayState, line: Line): Result<ReplayState> {
    if line.content.Undecodable? then Err(InvalidData()) else
    var next := ReplayLine(limit, start, st, line);
    if next.ok || !line.newline then Ok(next.state) else Err(InvalidData())
  }

  function ReplayResult(start: ReplayStart, r: Result<ReplayState>): Result<Database> {
    match r
    case Err(e) => Err(e)
    case Ok(st) => if start.After? && st.waiting then Err(InvalidData()) else Ok(st.db)
  }

  /** What a load makes of the log, which may be absent. */
  function Replay(limit: nat, start: ReplayStart, db: Database, log: Option<seq<Line>>): Result<Database> {
    match log
    case None => Ok(db)
    case Some(lines) => ReplayResult(start, ReplayLines(limit, start, db, lines))
  }

  lemma ReplayOneMore(limit: nat, start: ReplayStart, db: Database, lines: seq<Line>, line: Line)
    ensures ReplayLines(limit, start, db, lines + [line]) ==
      match ReplayLines(limit, start, db, lines)
      case Err(e) => Err(e)
      case Ok(st) => NextState(limit, start, st, line)
  {
    assert (lines + [line])[..|lines + [line]| - 1] == lines;
  }

  /** Loads one transaction, looking at the memory limit after each mutation. */
  method LoadInto(limit: nat, db: LiveDatabase, ms: seq<Mutation>) returns (ok: bool)
    modifies db
    ensures Loading(db.View(), ok) == LoadMutations(limit, old(db.View()), ms)
  {
    ok := true;
    var i := 0;
    while i < |ms| && ok
      invariant 0 <= i <= |ms|
      invariant Loading(db.View(), ok) == LoadMutations(limit, old(db.View()), ms[..i])
      invariant !ok ==> LoadMutations(limit, old(db.View()), ms) == LoadMutations(limit, old(db.View()), ms[..i])
    {
      db.Apply(ms[i]);
      var bytes := EstimateDatabaseBytes(db.View());
      ok := bytes <= limit;
      assert ms[..i + 1][..i] == ms[..i];
      i := i + 1;
      if !ok {
        StopsAtFirstFailure(limit, old(db.View()), ms, i);
      }
    }
    assert ms[..|ms|] == ms;
  }

  lemma {:induction false} StopsAtFirstFailure(limit: nat, db: Database, ms: seq<Mutation>, i: nat)
    requires i <= |ms| && !LoadMutations(limit, db, ms[..i]).ok
    ensures LoadMutations(limit, db, ms) == LoadMutations(limit, db, ms[..i])
  {
    if i < |ms| {
      assert ms[..|ms| - 1][..i] == ms[..i];
      StopsAtFirstFailure(limit, db, ms[..|ms| - 1], i);
    } else {
      assert ms[..i] == ms;
    }
  }

  lemma {:induction false} ErrorsStay(limit: nat, start: ReplayStart, db: Database, lines: seq<Line>, i: nat)
    requires i <= |lines| && ReplayLines(limit, start, db, lines[..i]).Err?
    ensures ReplayLines(limit, start, db, lines) == ReplayLines(limit, start, db, lines[..i])
  {
    if i < |lines| {
      assert lines[..|lines| - 1][..i] == lines[..i];
      ErrorsStay(limit, start, db, lines[..|lines| - 1], i);
    } else {
      assert lines[..i] == lines;
    }
  }

  /** Replays the log into `db`, line by line. */
  method ReplayFrom(limit: nat, start: ReplayStart, db: LiveDatabase, log: Option<seq<Line>>) returns (r: Result<()>)
    requires log.Some? ==> SplitAtNewlines(log.value)
    modifies db
    ensures r.Ok? <==> Replay(limit, start, old(db.View()), log).Ok?
    ensures r.Ok? ==> db.View() == Replay(limit, start, old(db.View()), log).value
  {
    if log.None? {
      return Ok(());
    }
    var lines := log.value;
    var pending: map<string, seq<Mutation>> := map[];
    var waiting := start.After?;
    var i := 0;
    ghost var db0 := db.View();
    while i < |lines|
      invariant 0 <= i <= |lines| && db0 == old(db.View())
      invariant ReplayLines(limit, start, db0, lines[..i]) == Ok(ReplayState(db.View(), pending, waiting))
    {
      var line := lines[i];
      assert lines[..i + 1] == lines[..i] + [line];
      ReplayOneMore(limit, start, db0, lines[..i], line);
      if line.content.Undecodable? {
        ErrorsStay(limit, start, db0, lines, i + 1);
        return Err(InvalidData());
      }
      var ok := true;
      if line.content.Blank? {
      } else if start.After? && waiting {
        if IsHighWater(line, start.id) {
          waiting := false;
        }
      } else if line.content.Unparsable? {
        ok := false;
      } else {
        match line.content.record {
          case Begin(id, ms) => pending := pending[id := ms];
          case Commit(id) =>
            if id in pending {
              ok := LoadInto(limit, db, pending[id]);
              pending := pending - {id};
            }
          case Plain(m) => ok := LoadInto(limit, db, [m]);
          case _ =>
        }
      }
      if !ok && (line.newline || i + 1 < |lines|) {
        ErrorsStay(limit, start, db0, lines, i + 1);
        return Err(InvalidData());
      }
      i := i + 1;
    }
    assert lines[..|lines|] == lines;
    if start.After? && waiting {
      return Err(InvalidData());
    }
    return Ok(());
  }

  // ----- What a log commits, whatever it is replayed onto -----

  datatype Tail = Tail(loaded: seq<Mutation>, pending: map<string, seq<Mutation>>, waiting: bool)

  function TailLine(start: ReplayStart, tail: Tail, line: Line): Tail {
    if !line.content.Parsed? then tail
    else if start.After? && tail.waiting then
      if IsHighWater(line, start.id) then tail.(waiting := false) else tail
    else
      match line.content.record
      case Begin(id, ms) => tail.(pending := tail.pending[id := ms])
      case Commit(id) =>
        if id !in tail.pending then tail
        else tail.(loaded := tail.loaded + tail.pending[id], pending := tail.pending - {id})
      case Plain(m) => tail.(loaded := tail.loaded + [m])
      case _ => tail
  }

  /** The mutations a replay loads, in order. */
  function TailOf(start: ReplayStart, lines: seq<Line>): Tail {
    if lines == [] then Tail([], map[], start.After?)
    else TailLine(start, TailOf(start, lines[..|lines| - 1]), lines[|lines| - 1])
  }

  function TailLoaded(limit: nat, db: Database, tail: Tail): Result<ReplayState> {
    if LoadMutations(limit, db, tail.loaded).ok
    then Ok(ReplayState(ApplyAll(db, tail.loaded), tail.pending, tail.waiting))
    else Err(InvalidData())
  }

  predicate Whole(lines: seq<Line>) {
    forall i :: 0 <= i < |lines| ==> lines[i].newline && lines[i].content.Parsed?
  }

  lemma {:induction false} LoadAppend(limit: nat, db: Database, ms: seq<Mutation>, ns: seq<Mutation>)
    ensures LoadMutations(limit, db, ms + ns) ==
      if LoadMutations(limit, db, ms).ok then LoadMutations(limit, LoadMutations(limit, db, ms).state, ns)
      else LoadMutations(limit, db, ms)
  {
    hide Applied, DatabaseBytes;
    if ns == [] {
      assert ms + ns == ms;
    } else {
      LoadAppend(limit, db, ms, ns[..|ns| - 1]);
      assert (ms + ns)[..|ms + ns| - 1] == ms + ns[..|ns| - 1];
    }
  }

  lemma {:induction false} LoadedIsApplied(limit: nat, db: Database, ms: seq<Mutation>)
    requires LoadMutations(limit, db, ms).ok
    ensures LoadMutations(limit, db, ms).state == ApplyAll(db, ms)
  {
    hide Applied, DatabaseBytes;
    if ms != [] {
      LoadedIsApplied(limit, db, ms[..|ms| - 1]);
    }
  }

  /** The replay of a log of whole records loads its tail, and fails exactly when the tail
      does not fit the limit. */
  lemma {:induction false} ReplayLoadsTail(limit: nat, start: ReplayStart, db: Database, lines: seq<Line>)
    requires Whole(lines)
    ensures ReplayLines(limit, start, db, lines) == TailLoaded(limit, db, TailOf(start, lines))
  {
    hide LoadMutations, ApplyAll;
    if lines == [] {
      NothingLoads(limit, db);
    } else {
      var n := |lines| - 1;
      ReplayLoadsTail(limit, start, db, lines[..n]);
      LineLoadsTail(limit, start, db, TailOf(start, lines[..n]), lines[n]);
    }
  }

  lemma NothingLoads(limit: nat, db: Database)
    ensures LoadMutations(limit, db, []) == Loading(db, true) && ApplyAll(db, []) == db
  {
  }

  lemma LineLoadsTail(limit: nat, start: ReplayStart, db: Database, tail: Tail, line: Line)
    requires line.newline && line.content.Parsed?
    ensures
      var before := TailLoaded(limit, db, tail);
      TailLoaded(limit, db, TailLine(start, tail, line)) ==
      if before.Err? then before else NextState(limit, start, before.value, line)
  {
    hide LoadMutations, ApplyAll;
    var next := TailLine(start, tail, line);
    var more := next.loaded[|tail.loaded|..];
    assert next.loaded == tail.loaded + more;
    LoadAppend(limit, db, tail.loaded, more);
    NothingLoads(limit, ApplyAll(db, tail.loaded));
    ApplyAllAppend(db, tail.loaded, more);
    if LoadMutations(limit, db, tail.loaded).ok {
      LoadedIsApplied(limit, db, tail.loaded);
      if LoadMutations(limit, db, next.loaded).ok {
        LoadedIsApplied(limit, db, next.loaded);
      }
    }
  }

  // ----- Compaction -----

  /** The first line, if any, that commits `id`. */
  function CommitLine(lines: seq<Line>, id: string): (cut: Option<nat>)
    ensures cut.Some? ==> cut.value < |lines| && IsCommitOf(lines[cut.value], id)
    ensures cut.Some? ==> forall i :: 0 <= i < cut.value ==> !IsCommitOf(lines[i], id)
    ensures cut.None? ==> forall i :: 0 <= i < |lines| ==> !IsCommitOf(lines[i], id)
  {
    if lines == [] then None
    else if IsCommitOf(lines[0], id) then Some(0)
    else
      var rest := CommitLine(lines[1..], id);
      if rest.None? then None else Some(rest.value + 1)
  }

  /** The log cut after the commit of `id`, with a marker in front; nothing if there is no such commit. */
  function Compacted(lines: seq<Line>, id: string): Option<seq<Line>> {
    match CommitLine(lines, id)
    case None => None
    case Some(cut) => Some([Line(Parsed(CompactedAfter(id)), true)] + lines[cut + 1..])
  }

  /** The search for that commit meets a line it cannot read. */
  predicate ScanFails(lines: seq<Line>, id: string) {
    exists i :: 0 <= i < |lines| && lines[i].content.Undecodable? && NotCommitted(lines[..i], id)
  }

  predicate NotCommitted(lines: seq<Line>, id: string) {
    forall i :: 0 <= i < |lines| ==> !IsCommitOf(lines[i], id)
  }

  /** Cuts the log behind the commit of the high-water mark, if it is there. */
  method CompactAfter(log: Option<seq<Line>>, highWater: Option<string>)
    returns (r: Result<bool>, after: Option<seq<Line>>)
    ensures r.Err? <==> log.Some? && highWater.Some? && ScanFails(log.value, highWater.value)
    ensures r.Ok? ==> (r.value <==> log.Some? && highWater.Some? && Compacted(log.value, highWater.value).Some?)
    ensures after == if r == Ok(true) then Compacted(log.value, highWater.value) else log
  {
    if highWater.None? || log.None? {
      return Ok(false), log;
    }
    var lines, id := log.value, highWater.value;
    var offset := 0;
    while offset < |lines| && !IsCommitOf(lines[offset], id)
      invariant 0 <= offset <= |lines|
      invariant forall i :: 0 <= i < offset ==> !IsCommitOf(lines[i], id) && !lines[i].content.Undecodable?
    {
      if lines[offset].content.Undecodable? {
        return Err(InvalidData()), log;
      }
      offset := offset + 1;
    }
    if offset == |lines| {
      return Ok(false), log;
    }
    return Ok(true), Some([Line(Parsed(CompactedAfter(id)), true)] + lines[offset + 1..]);
  }

  /** Replay after a high-water mark is replay of what follows it. */
  lemma {:induction false} ReplayAfterMark(limit: nat, id: string, db: Database, lines: seq<Line>, p: nat)
    requires p < |lines| && IsHighWater(lines[p], id)
    requires forall i :: 0 <= i < p ==> !IsHighWater(lines[i], id) && !lines[i].content.Undecodable?
    ensures ReplayLines(limit, After(id), db, lines) == ReplayLines(limit, Beginning, db, lines[p + 1..])
  {
    var n := |lines| - 1;
    if p < n {
      ReplayAfterMark(limit, id, db, lines[..n], p);
      assert lines[..n][p + 1..] == lines[p + 1..][..n - p - 1];
      var r := ReplayLines(limit, Beginning, db, lines[p + 1..][..n - p - 1]);
      if r.Ok? {
        NeverWaitingFromBeginning(limit, db, lines[p + 1..][..n - p - 1]);
      }
    } else {
      SkipsUntilMark(limit, id, db, lines[..n]);
      assert lines[p + 1..] == [];
    }
  }

  lemma {:induction false} NeverWaitingFromBeginning(limit: nat, db: Database, lines: seq<Line>)
    ensures var r := ReplayLines(limit, Beginning, db, lines); r.Ok? ==> !r.value.waiting
  {
    if lines != [] {
      NeverWaitingFromBeginning(limit, db, lines[..|lines| - 1]);
    }
  }

  lemma {:induction false} SkipsUntilMark(limit: nat, id: string, db: Database, lines: seq<Line>)
    requires forall i :: 0 <= i < |lines| ==> !IsHighWater(lines[i], id) && !lines[i].content.Undecodable?
    ensures ReplayLines(limit, After(id), db, lines) == Ok(StartState(After(id), db))
  {
    if lines != [] {
      SkipsUntilMark(limit, id, db, lines[..|lines| - 1]);
    }
  }

  /** From one snapshot, the uncut log, the cut log, and the cut log read from its
      beginning all load the same database. */
  lemma CompactionPreservesReplay(limit: nat, id: string, snapshot: Database, lines: seq<Line>)
    requires Compacted(lines, id).Some? && !ScanFails(lines, id)
    requires forall i :: 0 <= i < CommitLine(lines, id).value ==> lines[i].content != Parsed(CompactedAfter(id))
    ensures
      var cut := Some(Compacted(lines, id).value);
      Replay(limit, After(id), snapshot, Some(lines)) == Replay(limit, After(id), snapshot, cut)
      == Replay(limit, Beginning, snapshot, cut)
  {
    var p := CommitLine(lines, id).value;
    var cut := Compacted(lines, id).value;
    ReplayAfterMark(limit, id, snapshot, lines, p);
    ReplayAfterMark(limit, id, snapshot, cut, 0);
    assert cut[1..] == lines[p + 1..];
    MarkerIsSilent(limit, id, snapshot, lines[p + 1..]);
    NeverWaitingFromBeginning(limit, snapshot, lines[p + 1..]);
  }

  lemma {:induction false} MarkerIsSilent(limit: nat, id: string, db: Database, tail: seq<Line>)
    ensures ReplayLines(limit, Beginning, db, [Line(Parsed(CompactedAfter(id)), true)] + tail)
      == ReplayLines(limit, Beginning, db, tail)
  {
    var lines := [Line(Parsed(CompactedAfter(id)), true)] + tail;
    if tail == [] {
      assert lines[..0] == [];
    } else {
      MarkerIsSilent(limit, id, db, tail[..|tail| - 1]);
      assert lines[..|lines| - 1] == [Line(Parsed(CompactedAfter(id)), true)] + tail[..|tail| - 1];
    }
  }

  /** Cutting at one mark and later at a second leaves what cutting at the second leaves. */
  lemma CompactionComposes(lines: seq<Line>, a: string, b: string)
    requires a != b && Compacted(lines, a).Some? && Compacted(lines, b).Some?
    requires CommitLine(lines, a).value < CommitLine(lines, b).value
    ensures Compacted(Compacted(lines, a).value, b) == Compacted(lines, b)
  {
    hide CommitLine, IsCommitOf;
    MarkerCommitsNothing(a, b);
    var p, q := CommitLine(lines, a).value, CommitLine(lines, b).value;
    var once := Compacted(lines, a).value;
    assert forall i :: 1 <= i < |once| ==> once[i] == lines[p + i];
    FirstCommitIs(once, b, q - p);
    assert once[q - p + 1..] == lines[q + 1..];
  }

  lemma MarkerCommitsNothing(a: string, b: string)
    ensures !IsCommitOf(Line(Parsed(CompactedAfter(a)), true), b)
  {
  }

  lemma FirstCommitIs(lines: seq<Line>, id: string, k: nat)
    requires k < |lines| && IsCommitOf(lines[k], id)
    requires forall i :: 0 <= i < k ==> !IsCommitOf(lines[i], id)
    ensures CommitLine(lines, id) == Some(k)
  {
    hide IsCommitOf;
  }

  /** No transaction begun before the cut is committed after it. */
  ghost predicate NoStraddle(lines: seq<Line>, cut: nat) {
    forall i, j, id, ms :: 0 <= i < cut <= j < |lines| && lines[i].content == Parsed(Begin(id, ms)) ==>
      lines[j].content != Parsed(Commit(id))
  }

  lemma {:induction false} PendingWasBegun(limit: nat, db: Database, lines: seq<Line>, id: string)
    requires var r := ReplayLines(limit, Beginning, db, lines); r.Ok? && id in r.value.pending
    ensures exists i, ms :: 0 <= i < |lines| && lines[i].content == Parsed(Begin(id, ms))
  {
    var n := |lines| - 1;
    if lines != [] {
      NeverWaitingFromBeginning(limit, db, lines[..n]);
      if lines[n].content.Parsed? && lines[n].content.record.Begin? && lines[n].content.record.id == id {
        assert lines[n].content == Parsed(Begin(id, lines[n].content.record.mutations));
      } else {
        PendingWasBegun(limit, db, lines[..n], id);
        var i, ms :| 0 <= i < n && lines[..n][i].content == Parsed(Begin(id, ms));
        assert lines[i].content == Parsed(Begin(id, ms));
      }
    }
  }

  /** The state of the whole log against that of its tail: the same but for
      transactions begun before the tail and never committed. */
  ghost predicate AgreeBut(full: ReplayState, tail: ReplayState, stale: set<string>) {
    full.db == tail.db && !full.waiting && !tail.waiting
    && (forall id :: id in tail.pending ==> id in full.pending && tail.pending[id] == full.pending[id])
    && (forall id :: id in full.pending && id !in tail.pending ==> id in stale)
  }

  lemma LineKeepsAgreement(limit: nat, full: ReplayState, tail: ReplayState, stale: set<string>, line: Line)
    requires AgreeBut(full, tail, stale)
    requires forall id :: id in stale ==> !IsCommitOf(line, id)
    ensures
      var f, t := NextState(limit, Beginning, full, line), NextState(limit, Beginning, tail, line);
      f.Ok? == t.Ok? && (f.Ok? ==> AgreeBut(f.value, t.value, stale))
  {
    hide LoadMutations;
  }

  /** A log replays as its first part's database followed by the rest. */
  lemma {:induction false} ReplaySplits(limit: nat, db: Database, lines: seq<Line>, cut: nat)
    requires cut <= |lines| && NoStraddle(lines, cut)
    requires ReplayLines(limit, Beginning, db, lines[..cut]).Ok?
    ensures
      var mid := ReplayLines(limit, Beginning, db, lines[..cut]).value;
      var full := ReplayLines(limit, Beginning, db, lines);
      var tail := ReplayLines(limit, Beginning, mid.db, lines[cut..]);
      full.Ok? == tail.Ok? && (full.Ok? ==> AgreeBut(full.value, tail.value, mid.pending.Keys))
  {
    hide NextState;
    var n := |lines| - 1;
    NeverWaitingFromBeginning(limit, db, lines[..cut]);
    if cut == |lines| {
      assert lines[..cut] == lines;
    } else {
      assert lines[..n][..cut] == lines[..cut];
      assert lines[..n][cut..] == lines[cut..][..n - cut];
      ReplaySplits(limit, db, lines[..n], cut);
      var mid := ReplayLines(limit, Beginning, db, lines[..cut]).value;
      var full := ReplayLines(limit, Beginning, db, lines[..n]);
      if full.Ok? {
        forall id | id in mid.pending ensures !IsCommitOf(lines[n], id) {
          PendingWasBegun(limit, db, lines[..cut], id);
          var i, ms :| 0 <= i < cut && lines[..cut][i].content == Parsed(Begin(id, ms));
          assert lines[i].content == Parsed(Begin(id, ms));
        }
        var tail := ReplayLines(limit, Beginning, mid.db, lines[cut..][..n - cut]);
        LineKeepsAgreement(limit, full.value, tail.value, mid.pending.Keys, lines[n]);
      }
    }
  }

  /** Without the condition it fails: a transaction that straddles the cut is in the whole
      log's database and not in the snapshot followed by the tail. */
  lemma StraddlingTransactionIsLost(limit: nat, m: Mutation)
    requires m.CreateIndex? && DatabaseBytes(Applied(EMPTY_DATABASE, m)) <= limit
    ensures exists lines: seq<Line>, cut ::
      0 <= cut <= |lines| && ReplayLines(limit, Beginning, EMPTY_DATABASE, lines[..cut]).Ok?
      && Replay(limit, Beginning, EMPTY_DATABASE, Some(lines)) == Ok(Applied(EMPTY_DATABASE, m))
      && Replay(limit, Beginning, ReplayLines(limit, Beginning, EMPTY_DATABASE, lines[..cut]).value.db,
                Some(lines[cut..])) == Ok(EMPTY_DATABASE)
  {
    hide DatabaseBytes, Applied;
    var b, c := Line(Parsed(Begin("t", [m])), true), Line(Parsed(Commit("t")), true);
    assert [b] == [] + [b] && [c] == [] + [c] && [b, c] == [b] + [c];
    ReplayOneMore(limit, Beginning, EMPTY_DATABASE, [], b);
    ReplayOneMore(limit, Beginning, EMPTY_DATABASE, [], c);
    ReplayOneMore(limit, Beginning, EMPTY_DATABASE, [b], c);
    assert LoadMutations(limit, EMPTY_DATABASE, []) == Loading(EMPTY_DATABASE, true);
    assert [m][..0] == [];
    assert LoadMutations(limit, EMPTY_DATABASE, [m]) == Loading(Applied(EMPTY_DATABASE, m), true);
    assert [b, c][..1] == [b] && [b, c][1..] == [c];
  }

  // ----- Torn tails -----

  /** A half-written record at the end of a log that loads changes nothing exactly when its
      bytes can be read; otherwise the load fails. */
  lemma TornRecordIsIgnoredExactlyWhenDecodable(
      limit: nat, start: ReplayStart, db: Database, lines: seq<Line>, torn: Content)
    requires torn.Unparsable? || torn.Undecodable?
    ensures
      var before := ReplayLines(limit, start, db, lines);
      var after := ReplayLines(limit, start, db, lines + [Line(torn, false)]);
      (torn.Unparsable? ==> after == before) && (torn.Undecodable? ==> after.Err?)
  {
    ReplayOneMore(limit, start, db, lines, Line(torn, false));
  }

  /** A line that cannot be read makes every load fail, wherever it stands and wherever the
      replay starts. */
  lemma UndecodableFails(limit: nat, start: ReplayStart, db: Database, lines: seq<Line>, i: nat)
    requires i < |lines| && lines[i].content.Undecodable?
    ensures Replay(limit, start, db, Some(lines)).Err?
  {
    assert lines[..i + 1] == lines[..i] + [lines[i]];
    ReplayOneMore(limit, start, db, lines[..i], lines[i]);
    ErrorsStay(limit, start, db, lines, i + 1);
  }

  predicate Readable(lines: seq<Line>) {
    forall i :: 0 <= i < |lines| ==> !lines[i].content.Undecodable?
  }

  lemma LoadedIsReadable(limit: nat, start: ReplayStart, db: Database, lines: seq<Line>)
    requires ReplayLines(limit, start, db, lines).Ok?
    ensures Readable(lines)
  {
    forall i | 0 <= i < |lines| ensures !lines[i].content.Undecodable? {
      if lines[i].content.Undecodable? {
        assert lines[..i + 1] == lines[..i] + [lines[i]];
        ReplayOneMore(limit, start, db, lines[..i], lines[i]);
        ErrorsStay(limit, start, db, lines, i + 1);
      }
    }
  }

  /** So does a broken line where the replay no longer waits for its mark. */
  lemma BrokenFails(limit: nat, db: Database, lines: seq<Line>, i: nat)
    requires i < |lines| && lines[i].newline && (lines[i].content.Unparsable? || lines[i].content.Undecodable?)
    ensures Replay(limit, Beginning, db, Some(lines)).Err?
  {
    assert lines[..i + 1] == lines[..i] + [lines[i]];
    ReplayOneMore(limit, Beginning, db, lines[..i], lines[i]);
    ErrorsStay(limit, Beginning, db, lines, i + 1);
  }

  /** What appending a record does to the file: bytes go after the last byte, so a last
      line without newline runs into the new record. */
  function Appended(lines: seq<Line>, record: Record): seq<Line> {
    var n := |lines| - 1;
    if lines != [] && !lines[n].newline then lines[..n] + [Line(Joined(lines[n].content, Parsed(record)), true)]
    else lines + [Line(Parsed(record), true)]
  }

  /** Two contents in one line: neither reading nor parsing gets past the seam. */
  function Joined(torn: Content, next: Content): Content {
    if torn.Blank? then next
    else if torn.Undecodable? || next.Undecodable? then Undecodable
    else Unparsable
  }

  predicate Torn(lines: seq<Line>) {
    lines != [] && !lines[|lines| - 1].newline && !lines[|lines| - 1].content.Blank?
  }

  /** A load that succeeds keeps succeeding after the next record exactly when the log did
      not end in a torn line and the record itself fits the limit, which a begin record
      always does. */
  lemma AppendStaysReadableExactlyWhenNotTorn(
      limit: nat, start: ReplayStart, db: Database, lines: seq<Line>, record: Record)
    requires Replay(limit, start, db, Some(lines)).Ok?
    ensures
      var st := ReplayLines(limit, start, db, lines).value;
      Replay(limit, start, db, Some(Appended(lines, record))).Ok? <==>
      !Torn(lines) && ReplayRecord(limit, st, record).ok
    ensures record.Begin? ==> ReplayRecord(limit, ReplayLines(limit, start, db, lines).value, record).ok
  {
    hide LoadMutations;
    var n := |lines| - 1;
    if lines != [] && !lines[n].newline {
      var line := Line(Joined(lines[n].content, Parsed(record)), true);
      ReplayOneMore(limit, start, db, lines[..n], line);
      TornMarkIsLost(limit, start, db, lines);
      WaitingStays(limit, start, ReplayLines(limit, start, db, lines).value, record);
    } else {
      WholeTailStaysReadable(limit, start, db, lines, record);
    }
  }

  lemma WholeTailStaysReadable(limit: nat, start: ReplayStart, db: Database, lines: seq<Line>, record: Record)
    requires Replay(limit, start, db, Some(lines)).Ok?
    ensures
      var st := ReplayLines(limit, start, db, lines).value;
      Replay(limit, start, db, Some(lines + [Line(Parsed(record), true)])).Ok? <==> ReplayRecord(limit, st, record).ok
    ensures record.Begin? ==> ReplayRecord(limit, ReplayLines(limit, start, db, lines).value, record).ok
  {
    hide LoadMutations;
    ReplayOneMore(limit, start, db, lines, Line(Parsed(record), true));
    WaitingStays(limit, start, ReplayLines(limit, start, db, lines).value, record);
  }

  lemma WaitingStays(limit: nat, start: ReplayStart, st: ReplayState, record: Record)
    ensures ReplayRecord(limit, st, record).state.waiting == st.waiting
  {
    hide LoadMutations;
  }

  /** Running into a new record, a last line without newline is no mark any more. */
  lemma TornMarkIsLost(limit: nat, start: ReplayStart, db: Database, lines: seq<Line>)
    requires Replay(limit, start, db, Some(lines)).Ok? && lines != [] && !lines[|lines| - 1].newline
    ensures
      var before := ReplayLines(limit, start, db, lines[..|lines| - 1]);
      before.Ok? && (lines[|lines| - 1].content.Blank? ==> before == ReplayLines(limit, start, db, lines))
      && (before.value.waiting && start.After? ==>
            NextState(limit, start, before.value, Line(Unparsable, true)) == Ok(before.value))
  {
    hide LoadMutations;
  }
}
