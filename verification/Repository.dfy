/** Snapshot repositories: the number of the latest generation, a catalogue per
    generation, and blobs named after the hash of their bytes. */
module Repository {
  import opened Prelude
  import opened Json
  import opened Catalog

  datatype Definition = Definition(name: string, repositoryType: string, settings: Value, createdAt: nat)

  datatype Manifest = Manifest(
    name: string, indices: seq<string>, databaseBlob: string, startedAt: nat, indexCount: nat, documentCount: nat)

  datatype RepositoryData = RepositoryData(
    generation: nat, definition: Definition, snapshots: map<string, Manifest>)

  /** The files of one repository. `temps` are blob files not yet renamed into place. */
  datatype Dir = Dir(
    latest: Option<nat>, generations: map<nat, RepositoryData>,
    blobs: map<string, seq<byte>>, temps: map<string, seq<byte>>)

  const EMPTY_DIR := Dir(None, map[], map[], map[])

  /** The pretty-printed database, whose text is not modelled. */
  const Encoded: Database -> seq<byte>

  // ----- Blob names -----

  function HashStep(hash: bv64, b: byte): bv64 {
    (hash ^ (b as bv64)) * 0x100000001b3
  }

  function HashFrom(hash: bv64, bytes: seq<byte>): bv64
    decreases |bytes|
  {
    if bytes == [] then hash else HashFrom(HashStep(hash, bytes[0]), bytes[1..])
  }

  /** The 64-bit FNV-1a hash of the bytes. */
  method Fnv1a64(bytes: seq<byte>) returns (hash: bv64)
    ensures hash == HashFrom(0xcbf29ce484222325, bytes)
  {
    hide HashStep;
    hash := 0xcbf29ce484222325;
    var i := 0;
    while i < |bytes|
      invariant 0 <= i <= |bytes|
      invariant HashFrom(hash, bytes[i..]) == HashFrom(0xcbf29ce484222325, bytes)
    {
      hash := HashStep(hash, bytes[i]);
      assert bytes[i..][1..] == bytes[i + 1..];
      i := i + 1;
    }
  }

  function Hex(n: nat, width: nat): string {
    if width == 0 then "" else Hex(n / 16, width - 1) + [HexDigit(n % 16)]
  }

  function NameOfHash(hash: bv64): string {
    "database-" + Hex(hash as nat, 16) + ".json"
  }

  function BlobName(bytes: seq<byte>): string {
    NameOfHash(HashFrom(0xcbf29ce484222325, bytes))
  }

  // ----- File operations -----

  datatype FileOp =
    | StageBlob(name: string, bytes: seq<byte>)
    | PublishBlob(name: string)
    | WriteGeneration(data: RepositoryData)
    | WriteLatest(generation: nat)
    | RemoveBlob(name: string)
    | RemoveTemp(name: string)

  function Executed(dir: Dir, op: FileOp): Dir {
    match op
    case StageBlob(name, bytes) => dir.(temps := dir.temps[name := bytes])
    case PublishBlob(name) =>
      if name in dir.temps then dir.(blobs := dir.blobs[name := dir.temps[name]], temps := dir.temps - {name}) else dir
    case WriteGeneration(data) => dir.(generations := dir.generations[data.generation := data])
    case WriteLatest(generation) => dir.(latest := Some(generation))
    case RemoveBlob(name) => dir.(blobs := dir.blobs - {name})
    case RemoveTemp(name) => dir.(temps := dir.temps - {name})
  }

  function ExecutedAll(dir: Dir, ops: seq<FileOp>): Dir
    decreases |ops|
  {
    if ops == [] then dir else ExecutedAll(Executed(dir, ops[0]), ops[1..])
  }

  lemma ExecutedNothing(dir: Dir)
    ensures ExecutedAll(dir, []) == dir
  {
  }

  lemma {:induction false} ExecutedJoins(dir: Dir, a: seq<FileOp>, b: seq<FileOp>)
    ensures ExecutedAll(dir, a + b) == ExecutedAll(ExecutedAll(dir, a), b)
    decreases |a|
  {
    hide Executed;
    if a == [] {
      assert a + b == b;
    } else {
      ExecutedJoins(Executed(dir, a[0]), a[1..], b);
      assert (a + b)[1..] == a[1..] + b;
    }
  }

  // ----- Reading -----

  function IoError(): StoreError { StoreError(500, "repository_exception") }
  function RepositoryMissing(): StoreError { StoreError(404, "repository_missing_exception") }
  function SnapshotMissing(): StoreError { StoreError(404, "snapshot_missing_exception") }
  function AlreadyExists(): StoreError { StoreError(409, "snapshot_already_exists_exception") }
  function InvalidName(): StoreError { StoreError(400, "invalid_snapshot_name_exception") }

  /** Nothing without `index.latest`; an error when it names no catalogue. */
  function ReadLatestOptional(dir: Dir): Result<Option<RepositoryData>> {
    match dir.latest
    case None => Ok(None)
    case Some(g) => if g in dir.generations then Ok(Some(dir.generations[g])) else Err(IoError())
  }

  function ReadLatest(dir: Dir): Result<RepositoryData> {
    match ReadLatestOptional(dir)
    case Err(e) => Err(e)
    case Ok(None) => Err(RepositoryMissing())
    case Ok(Some(data)) => Ok(data)
  }

  // ----- What each request writes, file by file -----

  /** The catalogue first, then `index.latest`. */
  function NextGeneration(data: RepositoryData): seq<FileOp> {
    [WriteGeneration(data.(generation := data.generation + 1)), WriteLatest(data.generation + 1)]
  }

  /** The repository under a new type and settings. */
  function Redefined(data: RepositoryData, definition: Definition): RepositoryData {
    data.(definition := data.definition.(
      repositoryType := definition.repositoryType, settings := definition.settings))
  }

  function PutOps(dir: Dir, definition: Definition): Result<seq<FileOp>> {
    match ReadLatestOptional(dir)
    case Err(e) => Err(e)
    case Ok(None) => Ok(NextGeneration(RepositoryData(0, definition, map[])))
    case Ok(Some(data)) => Ok(NextGeneration(Redefined(data, definition)))
  }

  /** The indexes kept, with the aliases that still have one; the rest of the database as it is. */
  function DatabaseSubset(db: Database, indices: seq<string>): Database {
    db.(indexes := map n | n in db.indexes && n in indices :: db.indexes[n],
        aliases := map a | a in db.aliases && db.aliases[a].index in db.indexes && db.aliases[a].index in indices ::
                     db.aliases[a])
  }

  function ManifestFor(snapshot: string, db: Database, indices: seq<string>, now: nat): Manifest {
    var subset := DatabaseSubset(db, indices);
    Manifest(snapshot, indices, BlobName(Encoded(subset)), now, |subset.indexes|, DocumentCount(subset))
  }

  function BlobOps(dir: Dir, name: string, bytes: seq<byte>): seq<FileOp> {
    if name in dir.blobs then [] else [StageBlob(name, bytes), PublishBlob(name)]
  }

  function CreateOps(dir: Dir, snapshot: string, db: Database, indices: seq<string>, now: nat): Result<seq<FileOp>> {
    match ReadLatest(dir)
    case Err(e) => Err(e)
    case Ok(data) =>
      if snapshot in data.snapshots then Err(AlreadyExists())
      else
        var manifest := ManifestFor(snapshot, db, indices, now);
        Ok(BlobOps(dir, manifest.databaseBlob, Encoded(DatabaseSubset(db, indices)))
           + NextGeneration(data.(snapshots := data.snapshots[snapshot := manifest])))
  }

  function DeleteOps(dir: Dir, names: seq<string>): Result<seq<FileOp>> {
    match ReadLatest(dir)
    case Err(e) => Err(e)
    case Ok(data) =>
      if names == [] then Err(InvalidName())
      else if exists n :: n in names && n !in data.snapshots then Err(SnapshotMissing())
      else Ok(NextGeneration(data.(snapshots := data.snapshots - (set n | n in names))))
  }

  /** An entry of the blob directory. */
  datatype Entry = BlobEntry(name: string) | TempEntry(name: string)

  function Referenced(data: RepositoryData): set<string> {
    set n | n in data.snapshots :: data.snapshots[n].databaseBlob
  }

  /** Only a final blob name can be referenced. */
  predicate Doomed(data: RepositoryData, entry: Entry) {
    entry.TempEntry? || entry.name !in Referenced(data)
  }

  function Removal(entry: Entry): FileOp {
    match entry case BlobEntry(name) => RemoveBlob(name) case TempEntry(name) => RemoveTemp(name)
  }

  function Removals(data: RepositoryData, listing: seq<Entry>): seq<FileOp> {
    if listing == [] then []
    else
      Removals(data, listing[..|listing| - 1])
      + if Doomed(data, listing[|listing| - 1]) then [Removal(listing[|listing| - 1])] else []
  }

  function CleanupOps(dir: Dir, listing: seq<Entry>): Result<seq<FileOp>> {
    match ReadLatest(dir) case Err(e) => Err(e) case Ok(data) => Ok(Removals(data, listing))
  }

  predicate Has(dir: Dir, entry: Entry) {
    match entry case BlobEntry(name) => name in dir.blobs case TempEntry(name) => name in dir.temps
  }

  function EntryBytes(dir: Dir, entry: Entry): nat
    requires Has(dir, entry)
  {
    match entry case BlobEntry(name) => |dir.blobs[name]| case TempEntry(name) => |dir.temps[name]|
  }

  /** A directory listing names every entry once, in whatever order. */
  ghost predicate Lists(dir: Dir, listing: seq<Entry>) {
    (forall e :: e in listing <==> Has(dir, e)) && forall i, j :: 0 <= i < j < |listing| ==> listing[i] != listing[j]
  }

  function DoomedBytes(dir: Dir, data: RepositoryData, listing: seq<Entry>): nat
    requires forall e :: e in listing ==> Has(dir, e)
  {
    if listing == [] then 0
    else
      DoomedBytes(dir, data, listing[..|listing| - 1])
      + if Doomed(data, listing[|listing| - 1]) then EntryBytes(dir, listing[|listing| - 1]) else 0
  }

  // ----- The service -----

  datatype CleanupReport = CleanupReport(deletedBytes: nat, deletedBlobs: nat)

  /** One repository of the service. `performed` records the file operations in order:
      a crash leaves some prefix of them done. */
  class SnapshotRepository {
    var dir: Dir
    ghost var performed: seq<FileOp>

    constructor ()
      ensures dir == EMPTY_DIR && performed == []
    {
      dir, performed := EMPTY_DIR, [];
    }

    /** What the request planned, and nothing else, was done to the files. */
    twostate predicate Performs(new ops: seq<FileOp>)
      reads this
    {
      performed == old(performed) + ops && dir == ExecutedAll(old(dir), ops)
    }

    method Do(op: FileOp)
      modifies this
      ensures Performs([op]) && dir == Executed(old(dir), op)
    {
      dir := Executed(dir, op);
      performed := performed + [op];
      assert [op][1..] == [];
    }

    method WriteNextGeneration(data: RepositoryData)
      modifies this
      ensures Performs(NextGeneration(data))
    {
      hide Executed;
      var next := data.(generation := data.generation + 1);
      Do(WriteGeneration(next));
      Do(WriteLatest(next.generation));
      ExecutedJoins(old(dir), [WriteGeneration(next)], [WriteLatest(next.generation)]);
      assert NextGeneration(data) == [WriteGeneration(next)] + [WriteLatest(next.generation)];
    }

    method PutRepository(definition: Definition) returns (r: Result<bool>)
      modifies this
      ensures r == if PutOps(old(dir), definition).Ok? then Ok(true) else Err(PutOps(old(dir), definition).error)
      ensures Performs(if r.Ok? then PutOps(old(dir), definition).value else [])
    {
      var latest := ReadLatestOptional(dir);
      if latest.Err? {
        return Err(latest.error);
      }
      var data := if latest.value.Some? then latest.value.value else RepositoryData(0, definition, map[]);
      data := Redefined(data, definition);
      WriteNextGeneration(data);
      return Ok(true);
    }

    /** A blob of that name is taken to hold the same bytes and left alone. */
    method PlaceBlob(name: string, bytes: seq<byte>)
      modifies this
      ensures Performs(BlobOps(old(dir), name, bytes))
    {
      hide Executed;
      if name !in dir.blobs {
        Do(StageBlob(name, bytes));
        Do(PublishBlob(name));
        ExecutedJoins(old(dir), [StageBlob(name, bytes)], [PublishBlob(name)]);
        assert BlobOps(old(dir), name, bytes) == [StageBlob(name, bytes)] + [PublishBlob(name)];
      }
    }

    method CreateSnapshot(snapshot: string, db: Database, indices: seq<string>, now: nat) returns (r: Result<Manifest>)
      modifies this
      ensures var ops := CreateOps(old(dir), snapshot, db, indices, now);
              r == if ops.Ok? then Ok(ManifestFor(snapshot, db, indices, now)) else Err(ops.error)
      ensures Performs(if r.Ok? then CreateOps(old(dir), snapshot, db, indices, now).value else [])
    {
      hide HashFrom, ExecutedAll, NameOfHash, NextGeneration, DatabaseSubset, BlobOps, MapSum, DocumentCount, Executed;
      ExecutedNothing(dir);
      var subset := DatabaseSubset(db, indices);
      var bytes := Encoded(subset);
      var hash := Fnv1a64(bytes);
      var blobName := NameOfHash(hash);
      assert blobName == BlobName(bytes);
      var read := ReadLatest(dir);
      if read.Err? {
        return Err(read.error);
      }
      var data := read.value;
      if snapshot in data.snapshots {
        return Err(AlreadyExists());
      }
      ghost var blobOps := BlobOps(dir, blobName, bytes);
      PlaceBlob(blobName, bytes);
      var manifest := Manifest(snapshot, indices, blobName, now, |subset.indexes|, DocumentCount(subset));
      data := data.(snapshots := data.snapshots[snapshot := manifest]);
      WriteNextGeneration(data);
      ExecutedJoins(old(dir), blobOps, NextGeneration(data));
      return Ok(manifest);
    }

    method DeleteSnapshot(names: seq<string>) returns (r: Result<bool>)
      modifies this
      ensures r == if DeleteOps(old(dir), names).Ok? then Ok(true) else Err(DeleteOps(old(dir), names).error)
      ensures Performs(if r.Ok? then DeleteOps(old(dir), names).value else [])
    {
      hide NextGeneration;
      var read := ReadLatest(dir);
      if read.Err? {
        return Err(read.error);
      }
      var data := read.value;
      if names == [] {
        return Err(InvalidName());
      }
      if exists n :: n in names && n !in data.snapshots {
        return Err(SnapshotMissing());
      }
      var i := 0;
      while i < |names|
        invariant 0 <= i <= |names|
        invariant data == read.value.(snapshots := read.value.snapshots - (set n | n in names[..i]))
        modifies {}
      {
        assert names[..i + 1] == names[..i] + [names[i]];
        data := data.(snapshots := data.snapshots - {names[i]});
        i := i + 1;
      }
      assert names[..|names|] == names;
      WriteNextGeneration(data);
      return Ok(true);
    }

    /** Goes through the directory once and removes what no manifest names. */
    method CleanupRepository(listing: seq<Entry>) returns (r: Result<CleanupReport>)
      requires Lists(dir, listing)
      modifies this
      ensures r.Ok? <==> CleanupOps(old(dir), listing).Ok?
      ensures r.Err? ==> r.error == CleanupOps(old(dir), listing).error
      ensures Performs(if r.Ok? then CleanupOps(old(dir), listing).value else [])
      ensures r.Ok? ==> r.value.deletedBlobs == |CleanupOps(old(dir), listing).value|
      ensures r.Ok? ==> r.value.deletedBytes == DoomedBytes(old(dir), ReadLatest(old(dir)).value, listing)
    {
      hide Executed;
      var read := ReadLatest(dir);
      if read.Err? {
        return Err(read.error);
      }
      var data := read.value;
      var deletedBytes, deletedBlobs := 0, 0;
      var i := 0;
      ghost var done: seq<FileOp> := [];
      while i < |listing|
        invariant 0 <= i <= |listing|
        invariant done == Removals(data, listing[..i])
        invariant performed == old(performed) + done && dir == ExecutedAll(old(dir), done)
        invariant forall j :: i <= j < |listing| ==>
          Has(dir, listing[j]) && EntryBytes(dir, listing[j]) == EntryBytes(old(dir), listing[j])
        invariant deletedBlobs == |done| && deletedBytes == DoomedBytes(old(dir), data, listing[..i])
      {
        var entry := listing[i];
        assert listing[..i + 1][..i] == listing[..i];
        if Doomed(data, entry) {
          deletedBytes := deletedBytes + EntryBytes(dir, entry);
          ghost var before := dir;
          Do(Removal(entry));
          ExecutedJoins(old(dir), done, [Removal(entry)]);
          done := done + [Removal(entry)];
          deletedBlobs := deletedBlobs + 1;
          forall j | i < j < |listing|
            ensures Has(dir, listing[j]) && EntryBytes(dir, listing[j]) == EntryBytes(before, listing[j]) {
            RemovalSpares(before, entry, listing[j]);
          }
        }
        i := i + 1;
      }
      assert listing[..|listing|] == listing;
      return Ok(CleanupReport(deletedBytes, deletedBlobs));
    }
  }

  lemma RemovalSpares(dir: Dir, gone: Entry, other: Entry)
    requires gone != other && Has(dir, other)
    ensures var after := Executed(dir, Removal(gone));
      Has(after, other) && EntryBytes(after, other) == EntryBytes(dir, other)
  {
  }
}
