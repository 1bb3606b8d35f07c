/** What each mutation changes, field by field and key by key. */
module Effects {
  import opened Prelude
  import opened Json
  import opened Catalog

  // ----- Parts of a database -----

  /** `after` is `before` with the patch's top-level fields put over its own; a patch that
      is no object, or has none to go on, takes its place. */
  ghost predicate Merged(before: Value, patch: Value, after: Value) {
    if before.Object? && patch.Object? then
      after.Object? && after.fields.Keys == before.fields.Keys + patch.fields.Keys
      && forall k :: k in after.fields ==>
           after.fields[k] == if k in patch.fields then patch.fields[k] else before.fields[k]
    else after == patch
  }

  ghost predicate OthersSame(before: map<string, IndexMetadata>, after: map<string, IndexMetadata>, index: string) {
    forall n :: n != index ==> (n in before <==> n in after) && (n in before ==> before[n] == after[n])
  }

  ghost predicate OnlyIndexChanges(before: Database, after: Database, index: string) {
    index in before.indexes && index in after.indexes && OthersSame(before.indexes, after.indexes, index)
    && after.templates == before.templates && after.registries == before.registries
  }

  ghost predicate SameHeader(x: IndexMetadata, y: IndexMetadata) {
    y.name == x.name && y.settings == x.settings && y.mappings == x.mappings && y.aliases == x.aliases
  }

  ghost predicate SameDocuments(x: IndexMetadata, y: IndexMetadata) {
    y.documents == x.documents && y.tombstones == x.tombstones
  }

  ghost predicate OtherIdsSame(x: IndexMetadata, y: IndexMetadata, id: string) {
    forall d :: d != id ==>
      (d in x.documents <==> d in y.documents) && (d in x.documents ==> y.documents[d] == x.documents[d])
      && (d in x.tombstones <==> d in y.tombstones) && (d in x.tombstones ==> y.tombstones[d] == x.tombstones[d])
  }

  /** Only the counter may differ. */
  ghost predicate NothingBut(before: Database, after: Database, seqNo: nat) {
    after == before.(seqNo := seqNo)
  }

  // ----- Documents -----

  ghost predicate Stores(db: Database, m: Mutation)
    requires m.IndexDocument? || m.CreateDocument? || m.UpdateDocument?
  {
    m.index in db.indexes
    && var there := m.id in db.indexes[m.index].documents;
       m.IndexDocument? || (m.CreateDocument? && !there) || (m.UpdateDocument? && (there || m.docAsUpsert))
  }

  /** What a stored document holds: what was sent, or for an update what was there with the
      sent fields over it, starting from an empty object. */
  ghost predicate HoldsAsSent(db: Database, m: Mutation, source: Value)
    requires (m.IndexDocument? || m.CreateDocument? || m.UpdateDocument?) && m.index in db.indexes
  {
    var documents := db.indexes[m.index].documents;
    if m.UpdateDocument? then
      Merged(if m.id in documents then documents[m.id].source else Object(map[]), m.doc, source)
    else source == m.source
  }

  /** Indexing, creating and updating store one document, a version above the one before,
      under the next sequence number, and take away its tombstone. */
  lemma StoringStores(db: Database, m: Mutation)
    requires (m.IndexDocument? || m.CreateDocument? || m.UpdateDocument?) && Stores(db, m)
    ensures
      var after := Applied(db, m);
      OnlyIndexChanges(db, after, m.index) && after.aliases == db.aliases && after.seqNo == db.seqNo + 1
      && var x, y := db.indexes[m.index], after.indexes[m.index];
         SameHeader(x, y) && OtherIdsSame(x, y, m.id) && m.id in y.documents && m.id !in y.tombstones
         && var d := y.documents[m.id];
            d.id == m.id && d.seqNo == db.seqNo + 1 && d.primaryTerm == 1 && HoldsAsSent(db, m, d.source)
            && d.version == if m.id in x.documents then x.documents[m.id].version + 1 else 1
  {
  }

  /** A delete leaves a tombstone under the next sequence number. */
  lemma DeletingRemoves(db: Database, m: Mutation)
    requires m.DeleteDocument? && m.index in db.indexes && m.id in db.indexes[m.index].documents
    ensures
      var after := Applied(db, m);
      OnlyIndexChanges(db, after, m.index) && after.aliases == db.aliases && after.seqNo == db.seqNo + 1
      && var x, y := db.indexes[m.index], after.indexes[m.index];
         SameHeader(x, y) && OtherIdsSame(x, y, m.id) && m.id !in y.documents
         && m.id in y.tombstones && y.tombstones[m.id] == db.seqNo + 1
  {
  }

  /** A rename moves a document with all it has but its id, and takes no number. */
  lemma RenamingMoves(db: Database, m: Mutation)
    requires m.RenameDocument? && m.index in db.indexes
    requires m.oldId in db.indexes[m.index].documents && m.newId !in db.indexes[m.index].documents
    ensures
      var after := Applied(db, m);
      OnlyIndexChanges(db, after, m.index) && after.aliases == db.aliases && after.seqNo == db.seqNo
      && var x, y := db.indexes[m.index], after.indexes[m.index];
         SameHeader(x, y) && y.tombstones == x.tombstones
         && y.documents.Keys == x.documents.Keys - {m.oldId} + {m.newId}
         && (forall d :: d in y.documents && d != m.newId ==> y.documents[d] == x.documents[d])
         && y.documents[m.newId] == x.documents[m.oldId].(id := m.newId)
  {
  }

  /** Where a document mutation finds nothing to do it does nothing, but takes its number. */
  lemma OtherwiseNothing(db: Database, m: Mutation)
    requires IsDocumentMutation(m)
    requires m.index in db.indexes ==>
               var documents := db.indexes[m.index].documents;
               match m
               case IndexDocument(_, _, _) => false
               case CreateDocument(_, id, _) => id in documents
               case UpdateDocument(_, id, _, upsert) => id !in documents && !upsert
               case DeleteDocument(_, id) => id !in documents
               case RenameDocument(_, oldId, newId) => oldId !in documents || newId in documents
               case _ => true
    ensures NothingBut(db, Applied(db, m), if m.RenameDocument? then db.seqNo else db.seqNo + 1)
  {
    if m.index in db.indexes {
      assert db.indexes[m.index := db.indexes[m.index]] == db.indexes;
    }
  }

  // ----- Settings, mappings and aliases -----

  /** New settings or mappings go over the old ones. */
  lemma HeaderMerges(db: Database, m: Mutation)
    requires (m.PutMapping? || m.PutSettings?) && m.index in db.indexes
    ensures
      var after := Applied(db, m);
      OnlyIndexChanges(db, after, m.index) && after.aliases == db.aliases && after.seqNo == db.seqNo
      && var x, y := db.indexes[m.index], after.indexes[m.index];
         SameDocuments(x, y) && y.name == x.name && y.aliases == x.aliases
         && (if m.PutMapping? then Merged(x.mappings, m.mappings, y.mappings) else y.mappings == x.mappings)
         && (if m.PutSettings? then Merged(x.settings, m.settings, y.settings) else y.settings == x.settings)
  {
  }

  /** An alias is entered and listed, or struck out of both. */
  lemma AliasesChange(db: Database, m: Mutation)
    requires (m.PutAlias? || m.DeleteAlias?) && m.index in db.indexes
    ensures
      var after := Applied(db, m);
      OnlyIndexChanges(db, after, m.index) && after.seqNo == db.seqNo
      && (forall a :: a != m.alias ==>
            (a in after.aliases <==> a in db.aliases) && (a in db.aliases ==> after.aliases[a] == db.aliases[a]))
      && (m.PutAlias? ==> m.alias in after.aliases && after.aliases[m.alias] == AliasMetadata(m.alias, m.index, m.raw))
      && (m.DeleteAlias? ==> m.alias !in after.aliases)
      && var x, y := db.indexes[m.index], after.indexes[m.index];
         SameDocuments(x, y) && y.name == x.name && y.settings == x.settings && y.mappings == x.mappings
         && forall a :: a in y.aliases <==> if a == m.alias then m.PutAlias? else a in x.aliases
  {
  }

  // ----- Indexes, templates and registries -----

  /** A new index is empty and has what it was created with; an old one stays as it is. */
  lemma CreatingCreates(db: Database, m: Mutation)
    requires m.CreateIndex?
    ensures m.name in db.indexes ==> Applied(db, m) == db
    ensures m.name !in db.indexes ==>
      var after := Applied(db, m);
      NothingBut(db.(indexes := after.indexes), after, db.seqNo) && OthersSame(db.indexes, after.indexes, m.name)
      && m.name in after.indexes
      && var y := after.indexes[m.name];
         y.name == m.name && y.settings == m.settings && y.mappings == m.mappings && y.aliases == {}
         && y.documents == map[] && y.tombstones == map[]
  {
  }

  /** An index goes with every alias that points at it. */
  lemma DeletingIndexDeletes(db: Database, m: Mutation)
    requires m.DeleteIndex?
    ensures
      var after := Applied(db, m);
      NothingBut(db.(indexes := after.indexes, aliases := after.aliases), after, db.seqNo)
      && m.name !in after.indexes && OthersSame(db.indexes, after.indexes, m.name)
      && forall a :: (a in after.aliases <==> a in db.aliases && db.aliases[a].index != m.name)
                     && (a in after.aliases ==> after.aliases[a] == db.aliases[a])
  {
  }

  lemma TemplatesChange(db: Database, m: Mutation)
    requires m.PutTemplate? || m.DeleteTemplate?
    ensures
      var after := Applied(db, m);
      NothingBut(db.(templates := after.templates), after, db.seqNo)
      && (forall t :: t != m.name ==>
            (t in after.templates <==> t in db.templates)
            && (t in db.templates ==> after.templates[t] == db.templates[t]))
      && (m.name in after.templates <==> m.PutTemplate?)
      && (m.PutTemplate? ==> after.templates[m.name] == IndexTemplate(m.name, m.indexPatterns, m.template, m.raw))
  {
  }

  /** The object registered under a name of a namespace. */
  ghost function Registered(db: Database, namespace: string, name: string): Option<Value> {
    if namespace in db.registries && name in db.registries[namespace] then Some(db.registries[namespace][name])
    else None
  }

  lemma RegistriesChange(db: Database, m: Mutation)
    requires m.PutRegistryObject? || m.DeleteRegistryObject?
    ensures
      var after := Applied(db, m);
      NothingBut(db.(registries := after.registries), after, db.seqNo)
      && (forall s, n :: s != m.namespace || n != m.name ==> Registered(after, s, n) == Registered(db, s, n))
      && Registered(after, m.namespace, m.name) == (if m.PutRegistryObject? then Some(m.raw) else None)
  {
    var after := Applied(db, m);
    forall s, n | s != m.namespace || n != m.name ensures Registered(after, s, n) == Registered(db, s, n) {
      if m.DeleteRegistryObject? && s == m.namespace && s in db.registries && n in db.registries[s] {
        assert n in db.registries[s] - {m.name};
      }
    }
  }

  /** A namespace that loses its last object disappears. */
  lemma NoEmptyNamespaces(db: Database, m: Mutation)
    requires forall s :: s in db.registries ==> db.registries[s] != map[]
    ensures forall s :: s in Applied(db, m).registries ==> Applied(db, m).registries[s] != map[]
  {
    if m.PutRegistryObject? {
      assert m.name in Applied(db, m).registries[m.namespace];
    }
  }
}
