/** What is in a snapshot repository, in terms of the requests that put it there. */
module SnapshotContents {
  import opened Prelude
  import opened Json
  import opened Catalog
  import opened Repository
  import opened RepositoryIntegrity
  import Admission
  import Operations
  import Writes

  // ----- Which indexes -----

  /** One requested name picks every index, those a star pattern covers, or the one it names. */
  ghost predicate Picks(db: Database, requested: string, index: string) {
    index in db.indexes
    && (IsAll(requested) || (if '*' in requested then Operations.Covers(requested, index) else index == requested))
  }

  predicate IsAll(requested: string) {
    requested == "_all" || requested == "*" || requested == "all"
  }

  ghost predicate PickedBy(db: Database, requested: seq<string>, index: string) {
    exists i :: 0 <= i < |requested| && Picks(db, requested[i], index)
  }

  /** A plain name of no index; aliases do not count. */
  predicate Unknown(db: Database, requested: string) {
    !IsAll(requested) && '*' !in requested && requested !in db.indexes
  }

  lemma PickedByMore(db: Database, requested: seq<string>, i: nat)
    requires i < |requested|
    ensures forall n ::
              PickedBy(db, requested[..i + 1], n) <==> PickedBy(db, requested[..i], n) || Picks(db, requested[i], n)
  {
    hide Picks;
    var more := requested[..i + 1];
    forall n ensures PickedBy(db, more, n) <==> PickedBy(db, requested[..i], n) || Picks(db, requested[i], n) {
      assert more[i] == requested[i] && forall j :: 0 <= j < i ==> more[j] == requested[..i][j];
    }
  }

  method PickedIndexes(db: Database, part: string) returns (picked: set<string>)
    requires !Unknown(db, part)
    ensures forall n :: n in picked <==> Picks(db, part, n)
  {
    hide Operations.Covers, Writes.PatternMatches;
    if IsAll(part) {
      return db.indexes.Keys;
    } else if '*' in part {
      forall n ensures Writes.PatternMatches(part, n) <==> Operations.Covers(part, n) {
        Operations.PatternMatchesExactlyWhen(part, n);
      }
      return set n | n in db.indexes && Writes.PatternMatches(part, n);
    } else {
      return {part};
    }
  }

  /** The indexes a snapshot is asked to hold, in order and each once, or an error for a
      plain name there is no index of. */
  method SelectedIndices(db: Database, requested: seq<string>) returns (r: Result<seq<string>>)
    ensures r.Err? <==> exists i :: 0 <= i < |requested| && Unknown(db, requested[i])
    ensures r.Err? ==> r.error == IndexMissing()
    ensures r.Ok? ==> forall n :: n in r.value <==> PickedBy(db, requested, n)
    ensures r.Ok? ==> forall i, j :: 0 <= i < j < |r.value| ==> Less(r.value[i], r.value[j])
  {
    hide InOrder, Less, PickedBy, Picks, Unknown;
    var names: set<string> := {};
    var i := 0;
    NothingPicked(db);
    assert requested[..0] == [];
    while i < |requested|
      invariant 0 <= i <= |requested| && forall j :: 0 <= j < i ==> !Unknown(db, requested[j])
      invariant forall n :: n in names <==> PickedBy(db, requested[..i], n)
    {
      PickedByMore(db, requested, i);
      if Unknown(db, requested[i]) {
        return Err(IndexMissing());
      }
      var picked := PickedIndexes(db, requested[i]);
      names := names + picked;
      i := i + 1;
    }
    assert requested[..|requested|] == requested;
    InOrderAscends(names);
    return Ok(InOrder(names));
  }

  lemma NothingPicked(db: Database)
    ensures forall n :: !PickedBy(db, [], n)
  {
  }

  // ----- What a new snapshot holds -----

  /** The chosen indexes as they are, the aliases that point at one of them, and the rest of
      the database. */
  ghost predicate IsPart(db: Database, indices: seq<string>, part: Database) {
    (forall n :: n in part.indexes <==> n in db.indexes && n in indices)
    && (forall n :: n in part.indexes ==> part.indexes[n] == db.indexes[n])
    && (forall a :: a in part.aliases <==> a in db.aliases && db.aliases[a].index in part.indexes)
    && (forall a :: a in part.aliases ==> part.aliases[a] == db.aliases[a])
    && part.templates == db.templates && part.registries == db.registries && part.seqNo == db.seqNo
  }

  ghost function ChosenIndexes(db: Database, indices: seq<string>): set<string> {
    set n | n in db.indexes && n in indices
  }

  ghost function ChosenDocuments(db: Database, indices: seq<string>): set<(string, string)> {
    set n, id | n in db.indexes && n in indices && id in db.indexes[n].documents :: (n, id)
  }

  lemma SubsetIsPart(db: Database, indices: seq<string>)
    ensures var part := DatabaseSubset(db, indices);
            IsPart(db, indices, part) && |part.indexes| == |ChosenIndexes(db, indices)|
            && DocumentCount(part) == |ChosenDocuments(db, indices)|
  {
    hide MapSum;
    var part := DatabaseSubset(db, indices);
    assert part.indexes.Keys == ChosenIndexes(db, indices);
    Admission.DocumentsAreCounted(part.indexes);
    assert Admission.Documents(part.indexes) == ChosenDocuments(db, indices);
  }

  /** The manifest a request of these indexes leaves. */
  ghost predicate Describes(manifest: Manifest, snapshot: string, db: Database, indices: seq<string>, now: nat) {
    manifest.name == snapshot && manifest.indices == indices && manifest.startedAt == now
    && manifest.indexCount == |ChosenIndexes(db, indices)|
    && manifest.documentCount == |ChosenDocuments(db, indices)|
  }

  /** The blob holds these bytes after the request, unless others stood under its name before. */
  ghost predicate HeldUnlessTaken(before: Dir, after: Dir, blob: string, bytes: seq<byte>) {
    blob in after.blobs
    && (after.blobs[blob] == bytes <==> (blob in before.blobs ==> before.blobs[blob] == bytes))
  }

  /** A request for a snapshot is accepted exactly when there is a repository and the name is
      free. It adds one snapshot, with a manifest that counts what was chosen and a blob that
      holds exactly that, and leaves the others as they are. */
  lemma CreatedSnapshotHoldsWhatWasChosen(dir: Dir, snapshot: string, db: Database, indices: seq<string>, now: nat)
    requires Integrity(dir)
    ensures CreateOps(dir, snapshot, db, indices, now).Ok? <==> dir.latest.Some? && snapshot !in Listed(dir)
    ensures CreateOps(dir, snapshot, db, indices, now).Ok? ==>
      var after := After(dir, Completed(Create(snapshot, db, indices, now)));
      snapshot in Listed(after) && Listed(after) - {snapshot} == Listed(dir)
      && Describes(Listed(after)[snapshot], snapshot, db, indices, now)
      && exists part :: IsPart(db, indices, part)
           && HeldUnlessTaken(dir, after, Listed(after)[snapshot].databaseBlob, Encoded(part))
  {
    hide BlobName, ExecutedAll, HarmlessRun, Executed, BlobOps, NextGeneration, DatabaseSubset, DocumentCount,
      ChosenIndexes, ChosenDocuments, IsPart;
    SubsetIsPart(db, indices);
    if CreateOps(dir, snapshot, db, indices, now).Ok? {
      SnapshotHoldsItsDatabaseExactlyWhen(dir, snapshot, db, indices, now);
      var part := DatabaseSubset(db, indices);
      var after := After(dir, Completed(Create(snapshot, db, indices, now)));
      assert HeldUnlessTaken(dir, after, Listed(after)[snapshot].databaseBlob, Encoded(part));
    }
  }

  // ----- The other requests -----

  /** The definition in force. */
  ghost function DefinitionOf(dir: Dir): Option<Definition> {
    if dir.latest.Some? && dir.latest.value in dir.generations then Some(dir.generations[dir.latest.value].definition)
    else None
  }

  /** Putting a repository never fails: a new one is as it was sent and empty, an old one
      gets the type and settings and keeps the rest, its snapshots included. */
  lemma PutChanges(dir: Dir, definition: Definition)
    requires Integrity(dir)
    ensures var after := After(dir, Completed(Put(definition)));
            Listed(after) == Listed(dir)
            && match DefinitionOf(dir)
               case None => DefinitionOf(after) == Some(definition)
               case Some(was) =>
                 DefinitionOf(after)
                 == Some(Definition(was.name, definition.repositoryType, definition.settings, was.createdAt))
  {
    hide BlobName, ExecutedAll, HarmlessRun, Executed, BlobsMatchNames;
    PutMovesOn(dir, definition);
    var read := ReadLatestOptional(dir).value;
    if read.Some? {
      NextGenerationIsHarmless(dir, Redefined(read.value, definition), map[]);
    } else {
      NextGenerationIsHarmless(dir, RepositoryData(0, definition, map[]), map[]);
    }
  }

  /** A deletion is accepted exactly when it names snapshots and all are there; they go, the
      others stay. */
  lemma DeleteChanges(dir: Dir, names: seq<string>)
    requires Integrity(dir)
    ensures DeleteOps(dir, names).Ok? <==>
      dir.latest.Some? && names != [] && forall n :: n in names ==> n in Listed(dir)
    ensures DeleteOps(dir, names).Ok? ==>
      var after := After(dir, Completed(Delete(names)));
      (forall n :: n in Listed(after) <==> n in Listed(dir) && n !in names)
      && (forall n :: n in Listed(after) ==> Listed(after)[n] == Listed(dir)[n])
      && DefinitionOf(after) == DefinitionOf(dir) && after.blobs == dir.blobs
  {
    hide BlobName, ExecutedAll, HarmlessRun, Executed, BlobsMatchNames;
    if DeleteOps(dir, names).Ok? {
      var data := ReadLatest(dir).value;
      NextGenerationIsHarmless(dir, data.(snapshots := data.snapshots - (set n | n in names)), map[]);
    }
  }

  /** A directory without a repository takes only a new one; one whose `index.latest` names no
      catalogue takes nothing. */
  lemma MissingIsRefused(dir: Dir, definition: Definition, names: seq<string>, listing: seq<Entry>)
    ensures PutOps(dir, definition).Ok? <==> dir.latest.None? || dir.latest.value in dir.generations
    ensures CleanupOps(dir, listing).Ok? <==> dir.latest.Some? && dir.latest.value in dir.generations
    ensures CleanupOps(dir, listing).Err? ==>
      var status := if dir.latest.None? then 404 else 500;
      CleanupOps(dir, listing).error.status == status
      && DeleteOps(dir, names).Err? && DeleteOps(dir, names).error.status == status
      && forall snapshot, db, indices, now ::
           var ops := CreateOps(dir, snapshot, db, indices, now);
           ops.Err? && ops.error.status == status
    ensures PutOps(dir, definition).Err? ==> PutOps(dir, definition).error.status == 500
  {
  }

  /** With a repository, a taken name is a conflict, no name at all is none, and an unknown one is missing. */
  lemma RequestRefusedWith(dir: Dir, snapshot: string, db: Database, indices: seq<string>, now: nat, names: seq<string>)
    requires CleanupOps(dir, []).Ok?
    ensures var ops := CreateOps(dir, snapshot, db, indices, now);
            ops.Err? ==> ops.error.status == 409 && snapshot in Listed(dir)
    ensures var ops := DeleteOps(dir, names);
            ops.Err? ==> if names == [] then ops.error.status == 400
                         else ops.error.status == 404 && exists n :: n in names && n !in Listed(dir)
  {
  }

  // ----- What a cleanup gives back -----

  function Length(name: string, bytes: seq<byte>): nat {
    |bytes|
  }

  /** The bytes of all blob files, finished or not. */
  function DirBytes(dir: Dir): nat {
    MapSum(dir.blobs, Length) + MapSum(dir.temps, Length)
  }

  lemma FileFrees(files: map<string, seq<byte>>, name: string)
    requires name in files
    ensures MapSum(files, Length) == MapSum(files - {name}, Length) + |files[name]|
    ensures |files| == |files - {name}| + 1
  {
    MapSumRemove(files, name, Length);
    MapSizes(files, name, []);
  }

  lemma RemovalFrees(dir: Dir, entry: Entry)
    requires Has(dir, entry)
    ensures DirBytes(dir) == DirBytes(Executed(dir, Removal(entry))) + EntryBytes(dir, entry)
    ensures var after := Executed(dir, Removal(entry));
            |dir.blobs| + |dir.temps| == |after.blobs| + |after.temps| + 1
  {
    hide MapSum;
    if entry.BlobEntry? {
      FileFrees(dir.blobs, entry.name);
    } else {
      FileFrees(dir.temps, entry.name);
    }
  }

  lemma {:induction false} CleanupFreesSoFar(dir: Dir, data: RepositoryData, listing: seq<Entry>)
    requires forall e :: e in listing ==> Has(dir, e)
    requires forall i, j :: 0 <= i < j < |listing| ==> listing[i] != listing[j]
    ensures var after := Swept(dir, data, listing);
            DirBytes(dir) == DirBytes(after) + DoomedBytes(dir, data, listing)
            && |dir.blobs| + |dir.temps| == |after.blobs| + |after.temps| + |Removals(data, listing)|
  {
    hide Referenced, DirBytes, Executed, Swept;
    if listing == [] {
      SweptNothing(dir, data);
    } else {
      var earlier, last := listing[..|listing| - 1], listing[|listing| - 1];
      CleanupFreesSoFar(dir, data, earlier);
      SweptOneMore(dir, data, earlier, last);
      assert listing == earlier + [last] && last in listing;
      SweptSpares(dir, data, earlier, last);
      if Doomed(data, last) {
        RemovalFrees(Swept(dir, data, earlier), last);
      }
    }
  }

  lemma SweptSpares(dir: Dir, data: RepositoryData, listing: seq<Entry>, entry: Entry)
    requires Has(dir, entry) && entry !in listing
    ensures Has(Swept(dir, data, listing), entry)
    ensures EntryBytes(Swept(dir, data, listing), entry) == EntryBytes(dir, entry)
  {
  }

  /** What a cleanup reports as deleted is what the directory has lost, in entries and in bytes. */
  lemma CleanupConserves(dir: Dir, listing: seq<Entry>)
    requires ReadLatest(dir).Ok? && Lists(dir, listing)
    ensures var after := After(dir, Completed(Cleanup(listing)));
            DirBytes(dir) == DirBytes(after) + DoomedBytes(dir, ReadLatest(dir).value, listing)
            && |dir.blobs| + |dir.temps| == |after.blobs| + |after.temps| + |CleanupOps(dir, listing).value|
  {
    hide DirBytes, Executed, Swept, Removals, Referenced;
    var data := ReadLatest(dir).value;
    CleanupFreesSoFar(dir, data, listing);
    RemovalsRemove(dir, data, listing);
  }

  // ----- Blob names -----

  lemma HashOfOne(b: byte)
    ensures HashFrom(0xcbf29ce484222325, [b]) == (0xcbf29ce484222325 ^ (b as bv64)) * 0x100000001b3
  {
    assert [b][1..] == [];
    assert HashFrom((0xcbf29ce484222325 ^ (b as bv64)) * 0x100000001b3, []) ==
        (0xcbf29ce484222325 ^ (b as bv64)) * 0x100000001b3;
  }

  /** Two published values of the hash: of nothing, and of the letter `a`. */
  lemma KnownHashes()
    ensures HashFrom(0xcbf29ce484222325, []) == 0xcbf29ce484222325
    ensures HashFrom(0xcbf29ce484222325, [0x61]) == 0xaf63dc4c8601ec8c
  {
    HashOfOne(0x61);
    assert (0x61 as byte) as bv64 == 0x61;
  }

  lemma {:induction false} HexWritesDigits(n: nat, digits: seq<nat>, width: nat)
    requires |digits| == width && forall i :: 0 <= i < width ==> digits[i] < 16
    requires n == ValueOf(digits)
    ensures |Hex(n, width)| == width && forall i :: 0 <= i < width ==> Hex(n, width)[i] == HexDigit(digits[i])
  {
    if width > 0 {
      HexWritesDigits(n / 16, digits[..width - 1], width - 1);
    }
  }

  /** The number that hexadecimal digits stand for. */
  function ValueOf(digits: seq<nat>): nat {
    if digits == [] then 0 else 16 * ValueOf(digits[..|digits| - 1]) + digits[|digits| - 1]
  }

  lemma {:induction false} DigitsExist(n: nat, width: nat) returns (digits: seq<nat>)
    requires n < Power(width)
    ensures |digits| == width && ValueOf(digits) == n && forall i :: 0 <= i < width ==> digits[i] < 16
    decreases width
  {
    if width == 0 {
      digits := [];
    } else {
      var front := DigitsExist(n / 16, width - 1);
      digits := front + [n % 16];
      assert digits[..width - 1] == front;
    }
  }

  function Power(width: nat): nat {
    if width == 0 then 1 else 16 * Power(width - 1)
  }

  /** A blob is named after its hash: sixteen hexadecimal digits between a head and a tail. */
  lemma BlobsAreNamedAfterTheirHash(bytes: seq<byte>) returns (digits: seq<nat>)
    ensures |digits| == 16 && (forall i :: 0 <= i < 16 ==> digits[i] < 16)
    ensures ValueOf(digits) == HashFrom(0xcbf29ce484222325, bytes) as nat
    ensures var name := BlobName(bytes);
            |name| == 30 && name[..9] == "database-" && name[25..] == ".json"
            && forall i :: 0 <= i < 16 ==> name[9 + i] == "0123456789abcdef"[digits[i]]
  {
    hide HashFrom, Hex, ValueOf;
    var hash := HashFrom(0xcbf29ce484222325, bytes) as nat;
    SixteenDigits();
    digits := DigitsExist(hash, 16);
    HexWritesDigits(hash, digits, 16);
  }

  lemma SixteenDigits()
    ensures Power(16) == 0x1_0000_0000_0000_0000
  {
    assert Power(4) == 0x1_0000;
    assert Power(8) == 0x1_0000_0000;
    assert Power(12) == 0x1_0000_0000_0000;
  }
}
