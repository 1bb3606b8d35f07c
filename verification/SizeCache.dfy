/** The cached index sizes against a recount, and the fast memory check against the
    plain one. */
module SizeCache {
  import opened Prelude
  import opened Json
  import opened Catalog

  /** No cached size is below the recount. */
  ghost predicate Covered(db: Database) {
    forall n :: n in db.indexes ==> IndexBytes(db.indexes[n]) <= db.indexes[n].storeSizeBytes
  }

  ghost predicate Disjoint(ix: IndexMetadata) {
    forall id :: id in ix.documents ==> id !in ix.tombstones
  }

  /** Every cached size equals the recount, and no id is both stored and tombstoned. */
  ghost predicate Exact(db: Database) {
    forall n :: n in db.indexes ==>
      IndexBytes(db.indexes[n]) == db.indexes[n].storeSizeBytes && Disjoint(db.indexes[n])
  }

  /** By how much the cached size exceeds the recount. */
  ghost function Slack(ix: IndexMetadata): int {
    ix.storeSizeBytes - IndexBytes(ix)
  }

  // ----- One index -----

  /** Storing a document takes off no more than is there and leaves the slack as it was. */
  lemma StoringKeepsSlack(ix: IndexMetadata, id: string, source: Value, seqNo: nat)
    requires Slack(ix) >= 0
    ensures LiveBytes(ix, id) + DeadBytes(ix, id) <= ix.storeSizeBytes
    ensures Slack(WithDocument(ix, id, source, seqNo)) == Slack(ix)
  {
    hide MapSum;
    var after := WithDocument(ix, id, source, seqNo);
    MapSumInsert(ix.documents, id, after.documents[id], DocumentWeight);
    if id in ix.tombstones {
      MapSumRemove(ix.tombstones, id, TombstoneWeight);
    } else {
      assert ix.tombstones - {id} == ix.tombstones;
    }
  }

  /** Deleting a document adds to the slack exactly the tombstone it overwrites. */
  lemma DeletingAddsOverwrittenTombstone(ix: IndexMetadata, id: string, seqNo: nat)
    requires Slack(ix) >= 0 && id in ix.documents
    ensures LiveBytes(ix, id) <= ix.storeSizeBytes
    ensures Slack(WithoutDocument(ix, id, seqNo)) == Slack(ix) + DeadBytes(ix, id)
  {
    hide MapSum;
    MapSumRemove(ix.documents, id, DocumentWeight);
    MapSumInsert(ix.tombstones, id, seqNo, TombstoneWeight);
  }

  lemma DocumentEffectKeepsSlack(ix: IndexMetadata, m: Mutation, seqNo: nat)
    requires Slack(ix) >= 0
    ensures Slack(DocumentEffect(ix, m, seqNo)) >= 0
  {
    match m
    case IndexDocument(_, id, source) => StoringKeepsSlack(ix, id, source, seqNo);
    case CreateDocument(_, id, source) => StoringKeepsSlack(ix, id, source, seqNo);
    case UpdateDocument(_, id, doc, _) => StoringKeepsSlack(ix, id, UpdatedSource(ix, id, doc), seqNo);
    case DeleteDocument(_, id) =>
      if id in ix.documents { DeletingAddsOverwrittenTombstone(ix, id, seqNo); }
    case _ =>
  }

  /** With an exact cache, a mutation leaves it exact unless it deletes a document whose
      id is also tombstoned: the one case that counts a tombstone twice. */
  lemma ExactAfterExactlyWhen(ix: IndexMetadata, m: Mutation, seqNo: nat)
    requires Slack(ix) == 0
    ensures Slack(DocumentEffect(ix, m, seqNo)) == 0
      <==> !(m.DeleteDocument? && m.id in ix.documents && m.id in ix.tombstones)
  {
    match m
    case IndexDocument(_, id, source) => StoringKeepsSlack(ix, id, source, seqNo);
    case CreateDocument(_, id, source) => StoringKeepsSlack(ix, id, source, seqNo);
    case UpdateDocument(_, id, doc, _) => StoringKeepsSlack(ix, id, UpdatedSource(ix, id, doc), seqNo);
    case DeleteDocument(_, id) =>
      if id in ix.documents { DeletingAddsOverwrittenTombstone(ix, id, seqNo); }
    case _ =>
  }

  lemma NewIndexIsExact(name: string, settings: Value, mappings: Value)
    ensures Slack(NewIndex(name, settings, mappings)) == 0 && Disjoint(NewIndex(name, settings, mappings))
  {
    hide MapSum;
  }

  lemma IndexEffectKeepsSlack(ix: IndexMetadata, m: Mutation, seqNo: nat)
    requires Slack(ix) >= 0
    ensures Slack(IndexEffect(ix, m, seqNo)) >= 0
  {
    hide MapSum;
    if !IsHeaderMutation(m) {
      DocumentEffectKeepsSlack(ix, m, seqNo);
    }
  }

  // ----- Every mutation, every run -----

  /** No mutation makes a cached size smaller than the exact one. */
  lemma MutationKeepsCovered(db: Database, m: Mutation)
    requires Covered(db)
    ensures Covered(Applied(db, m))
  {
    hide IndexEffect, IndexBytes;
    forall n | n in Applied(db, m).indexes
      ensures Slack(Applied(db, m).indexes[n]) >= 0
    {
      if n in db.indexes {
        IndexEffectKeepsSlack(db.indexes[n], m, NextSeqNo(db.seqNo, m));
      } else {
        NewIndexIsExact(m.name, m.settings, m.mappings);
      }
    }
  }

  /** Over a whole run the cached sizes never fall below the exact ones. */
  lemma {:induction false} CacheNeverUndercounts(db: Database, ms: seq<Mutation>)
    requires Covered(db)
    ensures Covered(ApplyAll(db, ms))
  {
    if ms != [] {
      CacheNeverUndercounts(db, ms[..|ms| - 1]);
      MutationKeepsCovered(ApplyAll(db, ms[..|ms| - 1]), ms[|ms| - 1]);
    }
  }

  predicate RenamesOntoTombstone(db: Database, m: Mutation) {
    m.RenameDocument? && HasDocument(db, m.index, m.oldId)
    && m.newId !in db.indexes[m.index].documents && m.newId in db.indexes[m.index].tombstones
  }

  ghost predicate NoRenameOntoTombstone(db: Database, ms: seq<Mutation>) {
    forall i :: 0 <= i < |ms| ==> !RenamesOntoTombstone(ApplyAll(db, ms[..i]), ms[i])
  }

  lemma DocumentEffectKeepsDisjoint(ix: IndexMetadata, m: Mutation, seqNo: nat)
    requires Disjoint(ix)
    requires m.RenameDocument? && m.oldId in ix.documents && m.newId !in ix.documents ==> m.newId !in ix.tombstones
    ensures Disjoint(DocumentEffect(ix, m, seqNo))
  {
  }

  lemma IndexEffectKeepsExact(ix: IndexMetadata, m: Mutation, seqNo: nat)
    requires Slack(ix) == 0 && Disjoint(ix)
    requires m.RenameDocument? && m.oldId in ix.documents && m.newId !in ix.documents ==> m.newId !in ix.tombstones
    ensures Slack(IndexEffect(ix, m, seqNo)) == 0 && Disjoint(IndexEffect(ix, m, seqNo))
  {
    hide MapSum;
    if !IsHeaderMutation(m) {
      ExactAfterExactlyWhen(ix, m, seqNo);
      DocumentEffectKeepsDisjoint(ix, m, seqNo);
    }
  }

  lemma MutationKeepsExact(db: Database, m: Mutation)
    requires Exact(db) && !RenamesOntoTombstone(db, m)
    ensures Exact(Applied(db, m))
  {
    hide IndexEffect, IndexBytes;
    forall n | n in Applied(db, m).indexes
      ensures Slack(Applied(db, m).indexes[n]) == 0 && Disjoint(Applied(db, m).indexes[n])
    {
      if n !in db.indexes {
        NewIndexIsExact(m.name, m.settings, m.mappings);
      } else if Applied(db, m).indexes[n] != db.indexes[n] {
        IndexEffectKeepsExact(db.indexes[n], m, NextSeqNo(db.seqNo, m));
      }
    }
  }

  /** Over a whole run without a rename onto a tombstoned id they are exact. */
  lemma {:induction false} CacheIsExact(db: Database, ms: seq<Mutation>)
    requires Exact(db) && NoRenameOntoTombstone(db, ms)
    ensures Exact(ApplyAll(db, ms))
  {
    if ms != [] {
      var n := |ms| - 1;
      forall i | 0 <= i < n ensures !RenamesOntoTombstone(ApplyAll(db, ms[..n][..i]), ms[..n][i]) {
        assert ms[..n][..i] == ms[..i];
      }
      CacheIsExact(db, ms[..n]);
      MutationKeepsExact(ApplyAll(db, ms[..n]), ms[n]);
    }
  }

  /** Deleting, then renaming onto the dead id, then deleting again leaves the cache too high. */
  lemma RenameOntoTombstoneOvercounts(ix: IndexMetadata, a: string, b: string, s: nat, t: nat)
    requires Slack(ix) == 0 && Disjoint(ix)
    requires a != b && a in ix.documents && b in ix.documents
    ensures
      var ix1 := DocumentEffect(ix, DeleteDocument(ix.name, b), s);
      var ix2 := DocumentEffect(ix1, RenameDocument(ix.name, a, b), s);
      var ix3 := DocumentEffect(ix2, DeleteDocument(ix.name, b), t);
      Slack(ix3) == TombstoneBytes(b) > 0
  {
    hide IndexBytes;
    var ix1 := WithoutDocument(ix, b, s);
    RecomputedIsExact(ix1.(documents := (ix1.documents - {a})[b := ix1.documents[a].(id := b)]));
    DeletingAddsOverwrittenTombstone(WithRenamed(ix1, a, b), b, t);
  }

  lemma RecomputedIsExact(ix: IndexMetadata)
    ensures Slack(Recomputed(ix)) == 0
  {
    hide MapSum;
    assert HeaderBytes(Recomputed(ix)) == HeaderBytes(ix);
  }

  // ----- The fast memory check -----

  datatype SizeDelta = SizeDelta(add: nat, subtract: nat) {
    function ApplyTo(current: nat): nat {
      SaturatingSub(current, subtract) + add
    }
  }

  /** The predicted change of the memory estimate, for the mutations that have one. */
  function MutationSizeDelta(db: Database, m: Mutation): Option<SizeDelta> {
    match m
    case CreateIndex(name, settings, mappings) =>
      Some(SizeDelta(IndexBytes(NewIndex(name, settings, mappings)), 0))
    case IndexDocument(index, id, source) =>
      if index !in db.indexes then None else Some(StoreDelta(db.indexes[index], id, source))
    case CreateDocument(index, id, source) =>
      if index !in db.indexes then None
      else if id in db.indexes[index].documents then Some(SizeDelta(0, 0))
      else Some(StoreDelta(db.indexes[index], id, source))
    case UpdateDocument(index, id, doc, docAsUpsert) =>
      if index !in db.indexes then None
      else if id !in db.indexes[index].documents && !docAsUpsert then Some(SizeDelta(0, 0))
      else Some(StoreDelta(db.indexes[index], id, UpdatedSource(db.indexes[index], id, doc)))
    case DeleteDocument(index, id) =>
      if index !in db.indexes then None
      else if id !in db.indexes[index].documents then Some(SizeDelta(0, 0))
      else Some(SizeDelta(TombstoneBytes(id), LiveBytes(db.indexes[index], id)))
    case _ => None
  }

  function StoreDelta(ix: IndexMetadata, id: string, source: Value): SizeDelta {
    SizeDelta(DocumentBytes(id, source), LiveBytes(ix, id) + DeadBytes(ix, id))
  }

  function EstimateAfterMutation(db: Database, m: Mutation): Option<nat> {
    match MutationSizeDelta(db, m)
    case None => None
    case Some(delta) => Some(delta.ApplyTo(DatabaseBytes(db)))
  }

  lemma ReplacingOneIndex(db: Database, name: string, ix: IndexMetadata)
    requires name in db.indexes
    ensures MapSum(db.indexes[name := ix], IndexWeight)
      == MapSum(db.indexes, IndexWeight) - db.indexes[name].storeSizeBytes + ix.storeSizeBytes
    ensures db.indexes[name].storeSizeBytes <= MapSum(db.indexes, IndexWeight)
  {
    MapSumInsert(db.indexes, name, ix, IndexWeight);
  }

  lemma DocumentDeltaIsTheCacheChange(ix: IndexMetadata, m: Mutation, db: Database)
    requires IsDocumentMutation(m) && !m.RenameDocument?
    requires m.index in db.indexes && db.indexes[m.index] == ix && Slack(ix) >= 0
    ensures MutationSizeDelta(db, m).Some?
    ensures MutationSizeDelta(db, m).value.subtract <= ix.storeSizeBytes
    ensures DocumentEffect(ix, m, NextSeqNo(db.seqNo, m)).storeSizeBytes
      == MutationSizeDelta(db, m).value.ApplyTo(ix.storeSizeBytes)
  {
    hide MapSum;
    match m
    case IndexDocument(_, id, source) => StoringKeepsSlack(ix, id, source, 0);
    case CreateDocument(_, id, source) => StoringKeepsSlack(ix, id, source, 0);
    case UpdateDocument(_, id, doc, _) => StoringKeepsSlack(ix, id, UpdatedSource(ix, id, doc), 0);
    case DeleteDocument(_, id) =>
      if id in ix.documents { DeletingAddsOverwrittenTombstone(ix, id, 0); }
  }

  lemma OnlyIndexesChange(db: Database, m: Mutation)
    requires m.CreateIndex? || IsDocumentMutation(m)
    ensures Applied(db, m) ==
      db.(indexes := IndexesAfter(db.indexes, m, NextSeqNo(db.seqNo, m)), seqNo := NextSeqNo(db.seqNo, m))
  {
    hide IndexesAfter;
  }

  lemma OneIndexReplaced(indexes: map<string, IndexMetadata>, m: Mutation, seqNo: nat)
    requires IsDocumentMutation(m) && m.index in indexes
    ensures IndexesAfter(indexes, m, seqNo) == indexes[m.index := DocumentEffect(indexes[m.index], m, seqNo)]
  {
    hide DocumentEffect;
  }

  /** The predicted change of a document mutation is the change it makes. */
  lemma FastCheckOfDocumentMutation(db: Database, m: Mutation)
    requires Covered(db) && IsDocumentMutation(m) && !m.RenameDocument? && m.index in db.indexes
    ensures EstimateAfterMutation(db, m) == Some(DatabaseBytes(Applied(db, m)))
  {
    hide MapSum, DocumentEffect, MutationSizeDelta, Applied, NextSeqNo, IndexesAfter, IndexBytes;
    var ix := db.indexes[m.index];
    DocumentDeltaIsTheCacheChange(ix, m, db);
    ReplacingOneIndex(db, m.index, DocumentEffect(ix, m, NextSeqNo(db.seqNo, m)));
    OnlyIndexesChange(db, m);
    OneIndexReplaced(db.indexes, m, NextSeqNo(db.seqNo, m));
  }

  lemma FastCheckOfCreateIndex(db: Database, m: Mutation)
    requires m.CreateIndex? && m.name !in db.indexes
    ensures EstimateAfterMutation(db, m) == Some(DatabaseBytes(Applied(db, m)))
  {
    hide MapSum, IndexBytes, Applied;
    OnlyIndexesChange(db, m);
    NewIndexIsExact(m.name, m.settings, m.mappings);
    MapSumInsert(db.indexes, m.name, NewIndex(m.name, m.settings, m.mappings), IndexWeight);
  }

  /** Whenever the fast check answers, it answers what applying the mutation and
      counting again would, save for creating an index that is already there. */
  lemma FastCheckIsExact(db: Database, m: Mutation)
    requires Covered(db) && !(m.CreateIndex? && m.name in db.indexes)
    ensures EstimateAfterMutation(db, m) in {None, Some(DatabaseBytes(Applied(db, m)))}
  {
    hide DatabaseBytes, Applied, StoreDelta, IndexBytes;
    if m.CreateIndex? {
      FastCheckOfCreateIndex(db, m);
    } else if MutationSizeDelta(db, m).Some? {
      FastCheckOfDocumentMutation(db, m);
    }
  }

  // ----- The same content under a smaller cache -----

  ghost predicate SameIndex(x: IndexMetadata, y: IndexMetadata) {
    x == y.(storeSizeBytes := x.storeSizeBytes)
  }

  /** Two databases that differ in cached sizes only. */
  ghost predicate SameContent(a: Database, b: Database) {
    a.templates == b.templates && a.registries == b.registries && a.aliases == b.aliases && a.seqNo == b.seqNo
    && a.indexes.Keys == b.indexes.Keys
    && forall n :: n in a.indexes ==> SameIndex(a.indexes[n], b.indexes[n])
  }

  ghost predicate SmallerCache(a: Database, b: Database) {
    SameContent(a, b)
    && forall n :: n in a.indexes ==> a.indexes[n].storeSizeBytes <= b.indexes[n].storeSizeBytes
  }

  lemma SameIndexWeighsTheSame(x: IndexMetadata, y: IndexMetadata)
    requires SameIndex(x, y)
    ensures Recomputed(x) == Recomputed(y)
  {
    hide MapSum;
    assert HeaderBytes(x) == HeaderBytes(y);
  }

  /** Databases that differ only in cached sizes agree once these are recounted. */
  lemma SameContentNormalizes(a: Database, b: Database)
    requires SameContent(a, b)
    ensures Normalized(a) == Normalized(b)
  {
    hide Recomputed;
    forall n | n in a.indexes ensures Recomputed(a.indexes[n]) == Recomputed(b.indexes[n]) {
      SameIndexWeighsTheSame(a.indexes[n], b.indexes[n]);
    }
    assert Normalized(a).indexes == Normalized(b).indexes;
  }

  lemma NormalizingShrinks(db: Database)
    requires Covered(db)
    ensures SmallerCache(Normalized(db), db) && Covered(Normalized(db))
  {
    hide MapSum;
  }

  lemma DocumentEffectMonotone(x: IndexMetadata, y: IndexMetadata, m: Mutation, seqNo: nat)
    requires SameIndex(x, y) && x.storeSizeBytes <= y.storeSizeBytes && Slack(x) >= 0
    ensures SameIndex(DocumentEffect(x, m, seqNo), DocumentEffect(y, m, seqNo))
    ensures DocumentEffect(x, m, seqNo).storeSizeBytes <= DocumentEffect(y, m, seqNo).storeSizeBytes
  {
    hide MapSum;
  }

  lemma IndexEffectMonotone(x: IndexMetadata, y: IndexMetadata, m: Mutation, seqNo: nat)
    requires SameIndex(x, y) && x.storeSizeBytes <= y.storeSizeBytes && Slack(x) >= 0
    ensures SameIndex(IndexEffect(x, m, seqNo), IndexEffect(y, m, seqNo))
    ensures IndexEffect(x, m, seqNo).storeSizeBytes <= IndexEffect(y, m, seqNo).storeSizeBytes
  {
    hide MapSum;
    if IsHeaderMutation(m) {
      SameIndexWeighsTheSame(HeaderEffect(x, m), HeaderEffect(y, m));
    } else {
      DocumentEffectMonotone(x, y, m, seqNo);
    }
  }

  lemma SmallerIndexStays(
      a: map<string, IndexMetadata>, b: map<string, IndexMetadata>, m: Mutation, seqNo: nat, n: string)
    requires a.Keys == b.Keys && n in IndexesAfter(a, m, seqNo)
    requires n in a ==> SameIndex(a[n], b[n]) && a[n].storeSizeBytes <= b[n].storeSizeBytes && Slack(a[n]) >= 0
    ensures n in IndexesAfter(b, m, seqNo)
    ensures SameIndex(IndexesAfter(a, m, seqNo)[n], IndexesAfter(b, m, seqNo)[n])
    ensures IndexesAfter(a, m, seqNo)[n].storeSizeBytes <= IndexesAfter(b, m, seqNo)[n].storeSizeBytes
  {
    hide IndexEffect, IndexBytes, ChangesAnIndex;
    if n in a {
      IndexEffectMonotone(a[n], b[n], m, seqNo);
    }
  }

  lemma SmallerCacheStays(a: Database, b: Database, m: Mutation)
    requires SmallerCache(a, b) && Covered(a)
    ensures SmallerCache(Applied(a, m), Applied(b, m)) && Covered(Applied(a, m))
  {
    hide IndexesAfter, IndexBytes, TemplatesAfter, RegistriesAfter, AliasesAfter, NextSeqNo;
    MutationKeepsCovered(a, m);
    var seqNo := NextSeqNo(a.seqNo, m);
    SameNamesAfter(a.indexes, b.indexes, m, seqNo);
    var x, y := IndexesAfter(a.indexes, m, seqNo), IndexesAfter(b.indexes, m, seqNo);
    forall n | n in x
      ensures SameIndex(x[n], y[n]) && x[n].storeSizeBytes <= y[n].storeSizeBytes
    {
      SmallerIndexStays(a.indexes, b.indexes, m, seqNo, n);
    }
  }

  lemma SameNamesAfter(a: map<string, IndexMetadata>, b: map<string, IndexMetadata>, m: Mutation, seqNo: nat)
    requires a.Keys == b.Keys
    ensures IndexesAfter(a, m, seqNo).Keys == IndexesAfter(b, m, seqNo).Keys
  {
    hide IndexEffect, NewIndex, ChangesAnIndex;
  }

  lemma SmallerCacheWeighsLess(a: Database, b: Database)
    requires SmallerCache(a, b)
    ensures DatabaseBytes(a) <= DatabaseBytes(b)
  {
    MapSumMonotone(a.indexes, b.indexes, IndexWeight);
  }

  lemma {:induction false} SmallerCacheRun(a: Database, b: Database, ms: seq<Mutation>)
    requires SmallerCache(a, b) && Covered(a)
    ensures SmallerCache(ApplyAll(a, ms), ApplyAll(b, ms)) && Covered(ApplyAll(a, ms))
  {
    hide SmallerCache, Covered, Applied;
    if ms != [] {
      SmallerCacheRun(a, b, ms[..|ms| - 1]);
      SmallerCacheStays(ApplyAll(a, ms[..|ms| - 1]), ApplyAll(b, ms[..|ms| - 1]), ms[|ms| - 1]);
    }
  }

  lemma SmallerCacheTransitive(a: Database, b: Database, c: Database)
    requires SmallerCache(a, b) && SmallerCache(b, c)
    ensures SmallerCache(a, c)
  {
  }

  /** A covered database under an exact one is that database. */
  lemma SqueezedIsEqual(a: Database, b: Database)
    requires SmallerCache(a, b) && Covered(a) && Exact(b)
    ensures a == b
  {
    hide IndexBytes;
    forall n | n in a.indexes ensures a.indexes[n] == b.indexes[n] {
      SameIndexWeighsTheSame(a.indexes[n], b.indexes[n]);
      assert Recomputed(a.indexes[n]).storeSizeBytes == Recomputed(b.indexes[n]).storeSizeBytes;
    }
    assert a.indexes == b.indexes;
  }
}
