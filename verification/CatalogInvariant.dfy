/** What every reachable database satisfies: names agree with keys, aliases have
    targets, sequence numbers are never shared, and the limits hold. */
module CatalogInvariant {
  import opened Prelude
  import opened Json
  import opened Catalog

  ghost predicate GoodIndex(name: string, ix: IndexMetadata) {
    ix.name == name
    && forall id :: id in ix.documents ==>
      ix.documents[id].id == id && ix.documents[id].version >= 1 && ix.documents[id].primaryTerm == 1
  }

  /** Map keys equal the stored names and ids, and versions start at 1. */
  ghost predicate NamesAgree(db: Database) {
    (forall n :: n in db.indexes ==> GoodIndex(n, db.indexes[n]))
    && (forall n :: n in db.templates ==> db.templates[n].name == n)
    && (forall a :: a in db.aliases ==> db.aliases[a].alias == a)
  }

  /** Every alias points at an index that lists it. */
  ghost predicate AliasesHaveTargets(db: Database) {
    forall a :: a in db.aliases ==>
      db.aliases[a].index in db.indexes && a in db.indexes[db.aliases[a].index].aliases
  }

  /** A place that carries a sequence number: a document, or a tombstone. */
  datatype Slot = Slot(index: string, id: string, dead: bool)

  ghost predicate Occupied(db: Database, s: Slot) {
    s.index in db.indexes
    && if s.dead then s.id in db.indexes[s.index].tombstones else s.id in db.indexes[s.index].documents
  }

  ghost function Stamp(db: Database, s: Slot): nat
    requires Occupied(db, s)
  {
    if s.dead then db.indexes[s.index].tombstones[s.id] else db.indexes[s.index].documents[s.id].seqNo
  }

  /** Sequence numbers are at most the counter, and no two places share one. */
  ghost predicate SeqNosDistinct(db: Database) {
    (forall s :: Occupied(db, s) ==> Stamp(db, s) <= db.seqNo)
    && (forall s, t :: Occupied(db, s) && Occupied(db, t) && s != t ==> Stamp(db, s) != Stamp(db, t))
  }

  ghost predicate WithinLimits(limits: StoreLimits, db: Database) {
    |db.indexes| <= limits.maxIndexes && DocumentCount(db) <= limits.maxDocuments
  }

  ghost predicate Sound(db: Database) {
    NamesAgree(db) && AliasesHaveTargets(db) && SeqNosDistinct(db)
  }

  // ----- Names -----

  lemma IndexEffectKeepsGood(name: string, ix: IndexMetadata, m: Mutation, seqNo: nat)
    requires GoodIndex(name, ix)
    ensures GoodIndex(name, IndexEffect(ix, m, seqNo))
  {
    hide IndexBytes;
  }

  lemma GoodIndexesStayGood(indexes: map<string, IndexMetadata>, m: Mutation, seqNo: nat, n: string)
    requires forall k :: k in indexes ==> GoodIndex(k, indexes[k])
    requires n in IndexesAfter(indexes, m, seqNo)
    ensures GoodIndex(n, IndexesAfter(indexes, m, seqNo)[n])
  {
    hide IndexEffect, NewIndex, GoodIndex, ChangesAnIndex;
    if n in indexes {
      IndexEffectKeepsGood(n, indexes[n], m, seqNo);
    } else {
      NewIndexIsGood(m.name, m.settings, m.mappings);
    }
  }

  /** Keys and stored names stay equal, whatever the mutation. */
  lemma NamesStayAgreed(db: Database, m: Mutation)
    requires NamesAgree(db)
    ensures NamesAgree(Applied(db, m))
  {
    hide IndexesAfter, GoodIndex, RegistriesAfter, NextSeqNo;
    forall n | n in Applied(db, m).indexes ensures GoodIndex(n, Applied(db, m).indexes[n]) {
      GoodIndexesStayGood(db.indexes, m, NextSeqNo(db.seqNo, m), n);
    }
  }

  lemma NewIndexIsGood(name: string, settings: Value, mappings: Value)
    ensures GoodIndex(name, NewIndex(name, settings, mappings))
  {
    hide IndexBytes;
  }

  // ----- Aliases -----

  lemma AliasNamesAfter(ix: IndexMetadata, m: Mutation, seqNo: nat)
    ensures IndexEffect(ix, m, seqNo).aliases ==
      if m.PutAlias? then ix.aliases + {m.alias}
      else if m.DeleteAlias? then ix.aliases - {m.alias} else ix.aliases
  {
    hide IndexBytes;
  }

  ghost predicate TargetIn(a: string, alias: AliasMetadata, indexes: map<string, IndexMetadata>) {
    alias.index in indexes && a in indexes[alias.index].aliases
  }

  /** An alias that survives the mutation, unless it is the one being put, keeps its target. */
  lemma TargetStays(
      db: Database, m: Mutation, seqNo: nat, a: string)
    requires a in db.aliases && a in AliasesAfter(db.aliases, m)
    requires AliasesAfter(db.aliases, m)[a] == db.aliases[a]
    requires TargetIn(a, db.aliases[a], db.indexes)
    ensures TargetIn(a, db.aliases[a], IndexesAfter(db.indexes, m, seqNo))
  {
    hide IndexEffect, NewIndex, ChangesAnIndex;
    AliasNamesAfter(db.indexes[db.aliases[a].index], m, seqNo);
  }

  /** Every alias keeps a target that lists it. */
  lemma AliasesKeepTargets(limits: StoreLimits, db: Database, m: Mutation)
    requires AliasesHaveTargets(db) && ValidateMutation(limits, db, m).Ok?
    ensures AliasesHaveTargets(Applied(db, m))
  {
    hide ValidateDocumentMutation, IndexEffect, IsBlank, NewIndex;
    var seqNo := NextSeqNo(db.seqNo, m);
    forall a | a in AliasesAfter(db.aliases, m)
      ensures TargetIn(a, AliasesAfter(db.aliases, m)[a], IndexesAfter(db.indexes, m, seqNo))
    {
      if m.PutAlias? && a == m.alias {
        AliasNamesAfter(db.indexes[m.index], m, seqNo);
      } else {
        hide IndexesAfter;
        TargetStays(db, m, seqNo, a);
      }
    }
    hide IndexesAfter, AliasesAfter;
  }

  // ----- Sequence numbers -----

  /** The one place a mutation can stamp with a fresh number. */
  ghost function FreshSlot(m: Mutation): Slot
    requires IsDocumentMutation(m) && !m.RenameDocument?
  {
    Slot(m.index, m.id, m.DeleteDocument?)
  }

  /** Where the occupant of a place was before the mutation. */
  ghost function Origin(m: Mutation, s: Slot): Slot {
    if m.RenameDocument? && s == Slot(m.index, m.newId, false) then Slot(m.index, m.oldId, false) else s
  }

  ghost predicate IndexOccupied(ix: IndexMetadata, id: string, dead: bool) {
    if dead then id in ix.tombstones else id in ix.documents
  }

  ghost function IndexStamp(ix: IndexMetadata, id: string, dead: bool): nat
    requires IndexOccupied(ix, id, dead)
  {
    if dead then ix.tombstones[id] else ix.documents[id].seqNo
  }

  lemma IndexStampAfter(ix: IndexMetadata, m: Mutation, seqNo: nat, id: string, dead: bool)
    requires IndexOccupied(IndexEffect(ix, m, seqNo), id, dead)
    requires m.RenameDocument? ==> m.oldId in ix.documents && m.newId !in ix.documents
    requires ChangesAnIndex(m)
    ensures
      (IsDocumentMutation(m) && !m.RenameDocument? && Slot(m.index, id, dead) == FreshSlot(m)
       && IndexStamp(IndexEffect(ix, m, seqNo), id, dead) == seqNo)
      || (var o := Origin(m, Slot(m.index, id, dead));
          IndexOccupied(ix, o.id, o.dead)
          && IndexStamp(ix, o.id, o.dead) == IndexStamp(IndexEffect(ix, m, seqNo), id, dead))
    ensures m.RenameDocument? ==> dead || id != m.oldId
  {
    hide IndexBytes;
  }

  lemma StampAfter(limits: StoreLimits, db: Database, m: Mutation, s: Slot)
    requires ValidateMutation(limits, db, m).Ok? && Occupied(Applied(db, m), s)
    ensures
      (IsDocumentMutation(m) && !m.RenameDocument? && s == FreshSlot(m)
       && Stamp(Applied(db, m), s) == db.seqNo + 1)
      || (Occupied(db, Origin(m, s)) && Stamp(db, Origin(m, s)) == Stamp(Applied(db, m), s))
    ensures m.RenameDocument? ==> s != Slot(m.index, m.oldId, false)
  {
    hide IndexEffect, DocumentCount, IsBlank, IndexBytes, TemplatesAfter, RegistriesAfter, AliasesAfter,
      ValidateCatalogMutation;
    if ChangesAnIndex(m) && s.index == m.index && m.index in db.indexes {
      IndexStampAfter(db.indexes[m.index], m, NextSeqNo(db.seqNo, m), s.id, s.dead);
    }
  }

  /** No two documents or tombstones come to share a sequence number. */
  lemma SeqNosStayDistinct(limits: StoreLimits, db: Database, m: Mutation)
    requires SeqNosDistinct(db) && ValidateMutation(limits, db, m).Ok?
    ensures SeqNosDistinct(Applied(db, m))
  {
    hide Stamp, Occupied, ValidateMutation, IndexesAfter, TemplatesAfter, AliasesAfter, RegistriesAfter;
    var after := Applied(db, m);
    forall s | Occupied(after, s) ensures Stamp(after, s) <= after.seqNo {
      StampAfter(limits, db, m, s);
    }
    forall s, t | Occupied(after, s) && Occupied(after, t) && s != t ensures Stamp(after, s) != Stamp(after, t) {
      StampAfter(limits, db, m, s);
      StampAfter(limits, db, m, t);
    }
  }

  // ----- Limits -----

  /** The mutation stores a document that was not there. */
  predicate AddsDocument(ix: IndexMetadata, m: Mutation) {
    (m.IndexDocument? || m.CreateDocument? || m.UpdateDocument?) && m.id !in ix.documents
  }

  lemma StoringCounts(ix: IndexMetadata, id: string, source: Value, seqNo: nat)
    ensures |WithDocument(ix, id, source, seqNo).documents| == |ix.documents| + if id in ix.documents then 0 else 1
    ensures |WithoutDocument(ix, id, seqNo).documents| <= |ix.documents|
  {
    hide UpdatedSource, SaturatingSub, LiveBytes, DeadBytes, DocumentBytes, TombstoneBytes, NextVersion;
    MapSizes(ix.documents, id, StoredDocument(id, source, NextVersion(ix, id), seqNo, 1));
  }

  lemma RenamingCounts(ix: IndexMetadata, oldId: string, newId: string)
    requires oldId in ix.documents
    ensures |WithRenamed(ix, oldId, newId).documents| <= |ix.documents|
  {
    hide IndexBytes;
    var document := ix.documents[oldId];
    MapSizes(ix.documents, oldId, document);
    MapSizes(ix.documents - {oldId}, newId, document.(id := newId));
  }

  lemma EffectAddsAtMostOne(ix: IndexMetadata, m: Mutation, seqNo: nat)
    ensures |IndexEffect(ix, m, seqNo).documents| <= |ix.documents| + if AddsDocument(ix, m) then 1 else 0
  {
    hide UpdatedSource, WithDocument, WithoutDocument, WithRenamed, NamesBytes, MapSum;
    match m {
      case IndexDocument(_, id, source) => StoringCounts(ix, id, source, seqNo);
      case CreateDocument(_, id, source) => StoringCounts(ix, id, source, seqNo);
      case UpdateDocument(_, id, doc, _) => StoringCounts(ix, id, UpdatedSource(ix, id, doc), seqNo);
      case DeleteDocument(_, id) => StoringCounts(ix, id, Null, seqNo);
      case RenameDocument(_, oldId, newId) => if oldId in ix.documents { RenamingCounts(ix, oldId, newId); }
      case _ =>
    }
  }

  lemma DocumentsAfterEffect(limits: StoreLimits, db: Database, m: Mutation)
    requires ValidateMutation(limits, db, m).Ok? && ChangesAnIndex(m) && m.index in db.indexes
    requires DocumentCount(db) <= limits.maxDocuments
    ensures
      var ix := db.indexes[m.index];
      var after := IndexEffect(ix, m, NextSeqNo(db.seqNo, m));
      |after.documents| <= |ix.documents|
      || (|after.documents| == |ix.documents| + 1 && DocumentCount(db) < limits.maxDocuments)
  {
    hide IndexEffect, DocumentCount, IsBlank, ValidateCatalogMutation;
    EffectAddsAtMostOne(db.indexes[m.index], m, NextSeqNo(db.seqNo, m));
  }

  /** A validated mutation stays within both limits. */
  lemma LimitsStayKept(limits: StoreLimits, db: Database, m: Mutation)
    requires WithinLimits(limits, db) && ValidateMutation(limits, db, m).Ok?
    ensures WithinLimits(limits, Applied(db, m))
  {
    hide MapSum, IndexEffect, IsBlank, IndexBytes;
    var seqNo := NextSeqNo(db.seqNo, m);
    if ChangesAnIndex(m) {
      if m.index in db.indexes {
        DocumentsAfterEffect(limits, db, m);
        MapSumInsert(db.indexes, m.index, IndexEffect(db.indexes[m.index], m, seqNo), DocumentsIn);
      }
    } else if m.CreateIndex? {
      MapSumInsert(db.indexes, m.name, NewIndex(m.name, m.settings, m.mappings), DocumentsIn);
    } else if m.DeleteIndex? {
      MapSumRemove(db.indexes, m.name, DocumentsIn);
    }
  }

  // ----- Every validated mutation keeps the invariant -----

  /** One validated mutation keeps the whole invariant. */
  lemma ValidatedMutationKeepsSound(limits: StoreLimits, db: Database, m: Mutation)
    requires Sound(db) && ValidateMutation(limits, db, m).Ok?
    ensures Sound(Applied(db, m))
    ensures WithinLimits(limits, db) ==> WithinLimits(limits, Applied(db, m))
  {
    hide NamesAgree, AliasesHaveTargets, SeqNosDistinct, WithinLimits, Applied, ValidateMutation;
    NamesStayAgreed(db, m);
    AliasesKeepTargets(limits, db, m);
    SeqNosStayDistinct(limits, db, m);
    if WithinLimits(limits, db) {
      LimitsStayKept(limits, db, m);
    }
  }

  lemma EmptyIsSound(limits: StoreLimits)
    ensures Sound(EMPTY_DATABASE) && WithinLimits(limits, EMPTY_DATABASE)
  {
  }

  /** Each mutation passes validation where it is applied. */
  ghost predicate Admitted(limits: StoreLimits, db: Database, ms: seq<Mutation>) {
    forall i :: 0 <= i < |ms| ==> ValidateMutation(limits, ApplyAll(db, ms[..i]), ms[i]).Ok?
  }

  /** So does every run of them from the empty store. */
  lemma {:induction false} ReachableIsSound(limits: StoreLimits, ms: seq<Mutation>)
    requires Admitted(limits, EMPTY_DATABASE, ms)
    ensures Sound(ApplyAll(EMPTY_DATABASE, ms)) && WithinLimits(limits, ApplyAll(EMPTY_DATABASE, ms))
  {
    hide Sound, WithinLimits, ValidateMutation, Applied;
    if ms == [] {
      EmptyIsSound(limits);
    } else {
      var n := |ms| - 1;
      forall i | 0 <= i < n ensures ValidateMutation(limits, ApplyAll(EMPTY_DATABASE, ms[..n][..i]), ms[..n][i]).Ok? {
        assert ms[..n][..i] == ms[..i];
      }
      ReachableIsSound(limits, ms[..n]);
      ValidatedMutationKeepsSound(limits, ApplyAll(EMPTY_DATABASE, ms[..n]), ms[n]);
    }
  }
}
