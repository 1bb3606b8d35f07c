/** Runs of requests against a repository, with crashes between any two file
    operations and half-written temporary files. */
module RepositoryIntegrity {
  import opened Prelude
  import opened Json
  import opened Catalog
  import opened CatalogInvariant
  import opened Repository

  datatype Request =
    | Put(definition: Definition)
    | Create(snapshot: string, db: Database, indices: seq<string>, now: nat)
    | Delete(names: seq<string>)
    | Cleanup(listing: seq<Entry>)

  function Plan(dir: Dir, r: Request): seq<FileOp> {
    var ops := match r
      case Put(definition) => PutOps(dir, definition)
      case Create(snapshot, db, indices, now) => CreateOps(dir, snapshot, db, indices, now)
      case Delete(names) => DeleteOps(dir, names)
      case Cleanup(listing) => CleanupOps(dir, listing);
    if ops.Ok? then ops.value else []
  }

  /** A crash stops a request before operation `at`; a blob then being staged may be cut anywhere. */
  datatype Event =
    | Completed(request: Request)
    | Crashed(request: Request, at: nat, torn: seq<byte>)
    | RepositoryDeleted

  function Torn(dir: Dir, op: FileOp, torn: seq<byte>): Dir {
    if op.StageBlob? then dir.(temps := dir.temps[op.name := torn]) else dir
  }

  function After(dir: Dir, e: Event): Dir {
    match e
    case Completed(r) => ExecutedAll(dir, Plan(dir, r))
    case Crashed(r, at, torn) =>
      var ops := Plan(dir, r);
      if at < |ops| then Torn(ExecutedAll(dir, ops[..at]), ops[at], torn) else ExecutedAll(dir, ops)
    case RepositoryDeleted => EMPTY_DIR
  }

  function Run(dir: Dir, events: seq<Event>): Dir
    decreases |events|
  {
    if events == [] then dir else Run(After(dir, events[0]), events[1..])
  }

  // ----- Integrity -----

  function Current(dir: Dir): nat {
    match dir.latest case None => 0 case Some(g) => g
  }

  ghost predicate Resolves(data: RepositoryData, blobs: map<string, seq<byte>>) {
    forall n :: n in data.snapshots ==> data.snapshots[n].name == n && data.snapshots[n].databaseBlob in blobs
  }

  ghost predicate BlobsMatchNames(blobs: map<string, seq<byte>>) {
    forall n :: n in blobs ==> BlobName(blobs[n]) == n
  }

  ghost predicate GenerationsMatch(generations: map<nat, RepositoryData>) {
    forall g :: g in generations ==> generations[g].generation == g
  }

  /** `index.latest` names a catalogue that is there, every manifest in it names a blob that
      is there, and the bytes of every blob hash to its name. */
  ghost predicate Integrity(dir: Dir) {
    BlobsMatchNames(dir.blobs) && GenerationsMatch(dir.generations)
    && (dir.latest.Some? ==> LatestResolves(dir, dir.latest.value))
  }

  ghost predicate LatestResolves(dir: Dir, g: nat) {
    g > 0 && g in dir.generations && Resolves(dir.generations[g], dir.blobs)
  }

  /** The snapshots a reader finds. */
  function Listed(dir: Dir): map<string, Manifest> {
    if dir.latest.Some? && dir.latest.value in dir.generations then dir.generations[dir.latest.value].snapshots
    else map[]
  }

  ghost predicate SameBlobs(before: Dir, after: Dir, keep: map<string, Manifest>) {
    forall n :: n in keep ==>
      keep[n].databaseBlob in before.blobs && keep[n].databaseBlob in after.blobs
      && before.blobs[keep[n].databaseBlob] == after.blobs[keep[n].databaseBlob]
  }

  /** When a single file operation is harmless: to the integrity, and to snapshots to be kept. */
  ghost predicate Harmless(dir: Dir, op: FileOp, keep: map<string, Manifest>) {
    match op
    case StageBlob(_, _) => true
    case PublishBlob(name) => name in dir.temps && BlobName(dir.temps[name]) == name && name !in dir.blobs
    case WriteGeneration(data) => data.generation == Current(dir) + 1
    case WriteLatest(g) => g == Current(dir) + 1 && LatestResolves(dir, g) && SubMap(keep, dir.generations[g].snapshots)
    case RemoveBlob(name) => dir.latest.Some? && dir.latest.value in dir.generations
      && name !in Referenced(dir.generations[dir.latest.value])
    case RemoveTemp(_) => true
  }

  lemma HarmlessKeepsIntegrity(dir: Dir, op: FileOp, keep: map<string, Manifest>)
    requires Integrity(dir) && Harmless(dir, op, keep)
    ensures Integrity(Executed(dir, op))
  {
    hide BlobName;
  }

  /** Every operation of a sequence is harmless where its turn comes. */
  ghost predicate HarmlessRun(dir: Dir, ops: seq<FileOp>, keep: map<string, Manifest>)
    decreases |ops|
  {
    ops == [] || (Harmless(dir, ops[0], keep) && HarmlessRun(Executed(dir, ops[0]), ops[1..], keep))
  }

  lemma NothingIsHarmless(dir: Dir, keep: map<string, Manifest>)
    ensures HarmlessRun(dir, [], keep)
  {
  }

  lemma TwoOps(dir: Dir, a: FileOp, b: FileOp, keep: map<string, Manifest>)
    ensures ExecutedAll(dir, [a]) == Executed(dir, a) && (HarmlessRun(dir, [a], keep) <==> Harmless(dir, a, keep))
    ensures ExecutedAll(dir, [a, b]) == Executed(Executed(dir, a), b)
    ensures HarmlessRun(dir, [a, b], keep) <==> Harmless(dir, a, keep) && Harmless(Executed(dir, a), b, keep)
  {
    hide Harmless, Executed;
    assert [a][1..] == [] && [a, b][1..] == [b] && [b][1..] == [];
    assert HarmlessRun(Executed(dir, a), [b], keep) <==> Harmless(Executed(dir, a), b, keep);
    assert ExecutedAll(Executed(dir, a), [b]) == Executed(Executed(dir, a), b);
  }

  lemma {:induction false} HarmlessJoins(dir: Dir, a: seq<FileOp>, b: seq<FileOp>, keep: map<string, Manifest>)
    requires HarmlessRun(dir, a, keep) && HarmlessRun(ExecutedAll(dir, a), b, keep)
    ensures HarmlessRun(dir, a + b, keep)
    decreases |a|
  {
    hide Harmless, Executed;
    if a == [] {
      assert a + b == b;
    } else {
      HarmlessJoins(Executed(dir, a[0]), a[1..], b, keep);
      assert (a + b)[1..] == a[1..] + b;
    }
  }

  lemma HarmlessGoesForward(dir: Dir, op: FileOp, keep: map<string, Manifest>)
    requires Integrity(dir) && Harmless(dir, op, keep) && SubMap(keep, Listed(dir))
    ensures Current(dir) <= Current(Executed(dir, op))
    ensures SubMap(keep, Listed(Executed(dir, op))) && SameBlobs(dir, Executed(dir, op), keep)
  {
    hide BlobsMatchNames;
    forall n | n in keep ensures keep[n].databaseBlob in Referenced(dir.generations[dir.latest.value]) {
      assert n in Listed(dir);
    }
  }

  lemma NothingDone(dir: Dir, keep: map<string, Manifest>)
    requires Integrity(dir) && SubMap(keep, Listed(dir))
    ensures SameBlobs(dir, dir, keep)
  {
    hide BlobsMatchNames;
  }

  /** Stopping anywhere in a harmless sequence leaves an intact repository, with the kept
      snapshots listed and their bytes unchanged. */
  lemma {:induction false} PrefixKeepsIntegrity(dir: Dir, ops: seq<FileOp>, k: nat, keep: map<string, Manifest>)
    requires Integrity(dir) && HarmlessRun(dir, ops, keep) && k <= |ops| && SubMap(keep, Listed(dir))
    ensures var after := ExecutedAll(dir, ops[..k]);
            Integrity(after) && Current(dir) <= Current(after) && SubMap(keep, Listed(after))
            && SameBlobs(dir, after, keep)
    decreases k
  {
    hide Integrity, Harmless, Executed, Listed, SubMap;
    if k > 0 {
      HarmlessKeepsIntegrity(dir, ops[0], keep);
      HarmlessGoesForward(dir, ops[0], keep);
      PrefixKeepsIntegrity(Executed(dir, ops[0]), ops[1..], k - 1, keep);
      assert ops[..k][1..] == ops[1..][..k - 1];
    } else {
      NothingDone(dir, keep);
    }
  }

  lemma {:induction false} RemovalsAreHarmless(dir: Dir, data: RepositoryData, listing: seq<Entry>,
                                               keep: map<string, Manifest>)
    requires ReadLatest(dir) == Ok(data)
    ensures HarmlessRun(dir, Removals(data, listing), keep)
    ensures var done := ExecutedAll(dir, Removals(data, listing));
            done.latest == dir.latest && done.generations == dir.generations
  {
    hide Referenced;
    if listing != [] {
      var earlier, last := listing[..|listing| - 1], listing[|listing| - 1];
      RemovalsAreHarmless(dir, data, earlier, keep);
      if Doomed(data, last) {
        var ops, op := Removals(data, earlier), Removal(last);
        TwoOps(ExecutedAll(dir, ops), op, op, keep);
        HarmlessJoins(dir, ops, [op], keep);
        ExecutedJoins(dir, ops, [op]);
      } else {
        assert Removals(data, listing) == Removals(data, earlier);
      }
    }
  }

  /** Until `index.latest` moves, a new generation changes nothing a reader sees. */
  lemma NextGenerationIsHarmless(dir: Dir, data: RepositoryData, keep: map<string, Manifest>)
    requires Integrity(dir) && data.generation == Current(dir) && Resolves(data, dir.blobs)
      && SubMap(keep, data.snapshots)
    ensures HarmlessRun(dir, NextGeneration(data), keep)
    ensures ExecutedAll(dir, NextGeneration(data)) ==
      dir.(generations := dir.generations[data.generation + 1 := data.(generation := data.generation + 1)],
        latest := Some(data.generation + 1))
  {
    hide BlobsMatchNames;
    var ops := NextGeneration(data);
    TwoOps(dir, ops[0], ops[1], keep);
  }

  /** The blob gets in place, unless one of that name is there already; all else is as it was. */
  lemma BlobOpsPlaceBlob(dir: Dir, bytes: seq<byte>, keep: map<string, Manifest>)
    ensures HarmlessRun(dir, BlobOps(dir, BlobName(bytes), bytes), keep)
    ensures var done := ExecutedAll(dir, BlobOps(dir, BlobName(bytes), bytes));
            done.latest == dir.latest && done.generations == dir.generations
            && done.blobs == if BlobName(bytes) in dir.blobs then dir.blobs else dir.blobs[BlobName(bytes) := bytes]
  {
    hide BlobName;
    var ops := BlobOps(dir, BlobName(bytes), bytes);
    if ops != [] {
      TwoOps(dir, ops[0], ops[1], keep);
    }
  }

  lemma CreateIsHarmless(dir: Dir, r: Request, keep: map<string, Manifest>)
    requires Integrity(dir) && SubMap(keep, Listed(dir))
    requires r.Create? && CreateOps(dir, r.snapshot, r.db, r.indices, r.now).Ok?
    ensures HarmlessRun(dir, Plan(dir, r), keep)
  {
    hide BlobName, HarmlessRun, Executed, ExecutedAll, BlobOps, NextGeneration, DatabaseSubset;
    var bytes := Encoded(DatabaseSubset(r.db, r.indices));
    var blobOps := BlobOps(dir, BlobName(bytes), bytes);
    BlobOpsPlaceBlob(dir, bytes, keep);
    var placed := ExecutedAll(dir, blobOps);
    assert Integrity(placed);
    var data := ReadLatest(dir).value;
    var next := data.(snapshots := data.snapshots[r.snapshot := ManifestFor(r.snapshot, r.db, r.indices, r.now)]);
    NextGenerationIsHarmless(placed, next, keep);
    HarmlessJoins(dir, blobOps, NextGeneration(next), keep);
  }

  /** The request takes none of these snapshots away. */
  ghost predicate Spares(r: Request, keep: map<string, Manifest>) {
    r.Delete? ==> forall n :: n in r.names ==> n !in keep
  }

  /** No file operation of any request ever breaks the repository or a snapshot to be kept. */
  lemma PlanIsHarmless(dir: Dir, r: Request, keep: map<string, Manifest>)
    requires Integrity(dir) && SubMap(keep, Listed(dir)) && Spares(r, keep)
    ensures HarmlessRun(dir, Plan(dir, r), keep)
  {
    hide BlobName, HarmlessRun, CreateOps, Removals, NextGeneration;
    NothingIsHarmless(dir, keep);
    match r {
      case Put(definition) =>
        var read := ReadLatestOptional(dir).value;
        if read.Some? {
          NextGenerationIsHarmless(dir, Redefined(read.value, definition), keep);
        } else {
          NextGenerationIsHarmless(dir, RepositoryData(0, definition, map[]), keep);
        }
      case Create(snapshot, db, indices, now) =>
        if CreateOps(dir, snapshot, db, indices, now).Ok? { CreateIsHarmless(dir, r, keep); }
      case Delete(names) =>
        if DeleteOps(dir, names).Ok? {
          var data := ReadLatest(dir).value;
          NextGenerationIsHarmless(dir, data.(snapshots := data.snapshots - (set n | n in names)), keep);
        }
      case Cleanup(listing) =>
        if ReadLatest(dir).Ok? { RemovalsAreHarmless(dir, ReadLatest(dir).value, listing, keep); }
    }
  }

  ghost predicate EventSpares(e: Event, keep: map<string, Manifest>) {
    if e.RepositoryDeleted? then keep == map[] else Spares(e.request, keep)
  }

  /** Whatever a request was doing when it crashed: the repository is intact, its
      generation has not gone back, and snapshots nobody deleted are as they were. */
  lemma EventKeepsIntegrity(dir: Dir, e: Event, keep: map<string, Manifest>)
    requires Integrity(dir) && SubMap(keep, Listed(dir)) && EventSpares(e, keep)
    ensures var after := After(dir, e); Integrity(after) && SubMap(keep, Listed(after)) && SameBlobs(dir, after, keep)
    ensures !e.RepositoryDeleted? ==> Current(dir) <= Current(After(dir, e))
  {
    hide Plan, HarmlessRun, Executed, ExecutedAll, BlobName, Spares;
    if !e.RepositoryDeleted? {
      var ops := Plan(dir, e.request);
      PlanIsHarmless(dir, e.request, keep);
      PrefixKeepsIntegrity(dir, ops, |ops|, keep);
      assert ops[..|ops|] == ops;
      if e.Crashed? && e.at < |ops| {
        PrefixKeepsIntegrity(dir, ops, e.at, keep);
      }
    }
  }

  /** In every state reached by requests and crashes the repository is intact, and a
      snapshot that no request deletes stays listed with its manifest and its bytes. */
  lemma {:induction false} RunKeepsIntegrity(dir: Dir, events: seq<Event>, keep: map<string, Manifest>)
    requires Integrity(dir) && SubMap(keep, Listed(dir)) && forall e :: e in events ==> EventSpares(e, keep)
    ensures var after := Run(dir, events);
      Integrity(after) && SubMap(keep, Listed(after)) && SameBlobs(dir, after, keep)
    ensures (forall e :: e in events ==> !e.RepositoryDeleted?) ==> Current(dir) <= Current(Run(dir, events))
    decreases |events|
  {
    hide Integrity, After, Listed, SubMap, EventSpares;
    if events != [] {
      EventKeepsIntegrity(dir, events[0], keep);
      RunKeepsIntegrity(After(dir, events[0]), events[1..], keep);
    } else {
      NothingDone(dir, keep);
    }
  }

  /** An empty directory is intact, so every repository this service writes is. */
  lemma ReachableIsIntact(events: seq<Event>)
    ensures Integrity(Run(EMPTY_DIR, events))
  {
    hide Run;
    RunKeepsIntegrity(EMPTY_DIR, events, map[]);
  }

  // ----- What a completed request leaves -----

  /** Putting, creating and deleting move on by exactly one generation; a cleanup by none. */
  lemma CompletedMovesOn(dir: Dir, r: Request)
    requires Integrity(dir)
    ensures Current(After(dir, Completed(r))) ==
      if r.Cleanup? || Plan(dir, r) == [] then Current(dir) else Current(dir) + 1
  {
    hide BlobName, DatabaseSubset, BlobOps, ExecutedAll, HarmlessRun, Executed, Removals;
    ExecutedNothing(dir);
    match r {
      case Put(definition) => PutMovesOn(dir, definition);
      case Create(snapshot, db, indices, now) =>
        if CreateOps(dir, snapshot, db, indices, now).Ok? {
          SnapshotHoldsItsDatabaseExactlyWhen(dir, snapshot, db, indices, now);
        }
      case Delete(names) =>
        if DeleteOps(dir, names).Ok? {
          var data := ReadLatest(dir).value;
          NextGenerationIsHarmless(dir, data.(snapshots := data.snapshots - (set n | n in names)), map[]);
        }
      case Cleanup(listing) =>
        if ReadLatest(dir).Ok? { RemovalsAreHarmless(dir, ReadLatest(dir).value, listing, map[]); }
    }
  }

  lemma PutMovesOn(dir: Dir, definition: Definition)
    requires Integrity(dir)
    ensures PutOps(dir, definition).Ok? && Current(ExecutedAll(dir, PutOps(dir, definition).value)) == Current(dir) + 1
  {
    hide BlobName, ExecutedAll, HarmlessRun, Executed;
    var read := ReadLatestOptional(dir).value;
    if read.Some? {
      NextGenerationIsHarmless(dir, Redefined(read.value, definition), map[]);
    } else {
      NextGenerationIsHarmless(dir, RepositoryData(0, definition, map[]), map[]);
    }
  }

  /** A snapshot is listed once it is accepted; its blob holds the selected part of the
      database exactly when no other blob with the same hash was there before it. */
  lemma SnapshotHoldsItsDatabaseExactlyWhen(dir: Dir, snapshot: string, db: Database, indices: seq<string>, now: nat)
    requires Integrity(dir) && CreateOps(dir, snapshot, db, indices, now).Ok?
    ensures var after := ExecutedAll(dir, CreateOps(dir, snapshot, db, indices, now).value);
            var bytes := Encoded(DatabaseSubset(db, indices));
            Current(after) == Current(dir) + 1
            && Listed(after) == Listed(dir)[snapshot := ManifestFor(snapshot, db, indices, now)]
            && BlobName(bytes) in after.blobs
            && (after.blobs[BlobName(bytes)] == bytes
              <==> (BlobName(bytes) in dir.blobs ==> dir.blobs[BlobName(bytes)] == bytes))
  {
    hide BlobName, HarmlessRun, Executed, ExecutedAll, BlobOps, NextGeneration, DatabaseSubset;
    var bytes := Encoded(DatabaseSubset(db, indices));
    var blobOps := BlobOps(dir, BlobName(bytes), bytes);
    BlobOpsPlaceBlob(dir, bytes, map[]);
    var placed := ExecutedAll(dir, blobOps);
    assert Integrity(placed);
    var data := ReadLatest(dir).value;
    var next := data.(snapshots := data.snapshots[snapshot := ManifestFor(snapshot, db, indices, now)]);
    NextGenerationIsHarmless(placed, next, map[]);
    ExecutedJoins(dir, blobOps, NextGeneration(next));
  }

  function Kept(data: RepositoryData, blobs: map<string, seq<byte>>): map<string, seq<byte>> {
    map n | n in blobs && n in Referenced(data) :: blobs[n]
  }

  /** Cleanup leaves the referenced blobs, all of them, and nothing else in their directory. */
  lemma CleanupRemovesExactly(dir: Dir, listing: seq<Entry>)
    requires ReadLatest(dir).Ok? && Lists(dir, listing)
    ensures After(dir, Completed(Cleanup(listing)))
      == dir.(blobs := Kept(ReadLatest(dir).value, dir.blobs), temps := map[])
  {
    hide Removals, Referenced;
    var data := ReadLatest(dir).value;
    RemovalsRemove(dir, data, listing);
    var after := After(dir, Completed(Cleanup(listing)));
    forall n ensures n in after.blobs <==> n in Kept(data, dir.blobs) {
      assert BlobEntry(n) in listing <==> Has(dir, BlobEntry(n));
    }
    forall n ensures n !in after.temps { assert TempEntry(n) in listing <==> Has(dir, TempEntry(n)); }
    assert after.blobs == Kept(data, dir.blobs) && after.temps == map[];
  }

  function Swept(dir: Dir, data: RepositoryData, listing: seq<Entry>): Dir {
    dir.(blobs := map n | n in dir.blobs && (BlobEntry(n) !in listing || n in Referenced(data)) :: dir.blobs[n],
         temps := map n | n in dir.temps && TempEntry(n) !in listing :: dir.temps[n])
  }

  lemma SweptNothing(dir: Dir, data: RepositoryData)
    ensures Swept(dir, data, []) == dir
  {
  }

  lemma SweptOneMore(dir: Dir, data: RepositoryData, earlier: seq<Entry>, last: Entry)
    ensures Swept(dir, data, earlier + [last]) ==
      if Doomed(data, last) then Executed(Swept(dir, data, earlier), Removal(last)) else Swept(dir, data, earlier)
  {
    hide Referenced;
    var listing := earlier + [last];
    assert forall e :: e in listing <==> e in earlier || e == last;
    var before, after := Swept(dir, data, earlier), Swept(dir, data, listing);
    assert after.blobs == if last.BlobEntry? && Doomed(data, last) then before.blobs - {last.name} else before.blobs;
    assert after.temps == if last.TempEntry? then before.temps - {last.name} else before.temps;
  }

  lemma {:induction false} RemovalsRemove(dir: Dir, data: RepositoryData, listing: seq<Entry>)
    ensures ExecutedAll(dir, Removals(data, listing)) == Swept(dir, data, listing)
  {
    hide Executed, Swept, Doomed;
    if listing == [] {
      SweptNothing(dir, data);
    } else {
      var earlier, last := listing[..|listing| - 1], listing[|listing| - 1];
      RemovalsRemove(dir, data, earlier);
      SweptOneMore(dir, data, earlier, last);
      assert listing == earlier + [last];
      var ops := Removals(data, earlier);
      if Doomed(data, last) {
        TwoOps(ExecutedAll(dir, ops), Removal(last), Removal(last), map[]);
        ExecutedJoins(dir, ops, [Removal(last)]);
      } else {
        assert Removals(data, listing) == ops;
      }
    }
  }

  // ----- What a snapshot contains -----

  /** The part of a database that goes into a snapshot is a sound database. */
  lemma SubsetIsSound(db: Database, indices: seq<string>, limits: StoreLimits)
    requires Sound(db) && WithinLimits(limits, db)
    ensures Sound(DatabaseSubset(db, indices)) && WithinLimits(limits, DatabaseSubset(db, indices))
  {
    hide MapSum;
    var subset := DatabaseSubset(db, indices);
    MapSumPart(subset.indexes, db.indexes, DocumentsIn);
    forall s | Occupied(subset, s) ensures Occupied(db, s) && Stamp(subset, s) == Stamp(db, s) {}
  }
}
