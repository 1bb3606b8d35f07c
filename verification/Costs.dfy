/** What each mutation adds to the memory estimate and takes off it. */
module Costs {
  import opened Prelude
  import opened Json
  import opened Catalog
  import opened SizeCache
  import opened Effects

  /** What an id holds that storing under it sets free. */
  ghost function Held(ix: IndexMetadata, id: string): nat {
    (if id in ix.documents then Utf8Len(id) + 64 + ValueBytes(ix.documents[id].source) else 0)
    + (if id in ix.tombstones then Utf8Len(id) + 16 else 0)
  }

  lemma EstimateOfDocumentMutation(db: Database, m: Mutation)
    requires Covered(db) && IsDocumentMutation(m) && !m.RenameDocument? && m.index in db.indexes
    ensures MutationSizeDelta(db, m).Some?
    ensures var delta := MutationSizeDelta(db, m).value;
            DatabaseBytes(Applied(db, m)) + delta.subtract == DatabaseBytes(db) + delta.add
  {
    hide MapSum, DocumentEffect, MutationSizeDelta, Applied, NextSeqNo, IndexesAfter, IndexBytes;
    var ix := db.indexes[m.index];
    FastCheckOfDocumentMutation(db, m);
    DocumentDeltaIsTheCacheChange(ix, m, db);
    ReplacingOneIndex(db, m.index, ix);
  }

  /** A stored document costs its id, its source and 64 bytes, and frees what its id held. */
  lemma StoringCosts(db: Database, m: Mutation)
    requires Covered(db) && (m.IndexDocument? || m.CreateDocument? || m.UpdateDocument?) && Stores(db, m)
    ensures
      var after := Applied(db, m);
      HasDocument(after, m.index, m.id)
      && DatabaseBytes(after) + Held(db.indexes[m.index], m.id)
         == DatabaseBytes(db) + Utf8Len(m.id) + 64 + ValueBytes(after.indexes[m.index].documents[m.id].source)
  {
    hide MapSum, IndexBytes, DatabaseBytes, MergeObject;
    EstimateOfDocumentMutation(db, m);
  }

  /** A delete swaps a document for a tombstone: the id and 16 bytes stay. */
  lemma DeletingCosts(db: Database, m: Mutation)
    requires Covered(db) && m.DeleteDocument? && HasDocument(db, m.index, m.id)
    ensures DatabaseBytes(Applied(db, m)) + 48 + ValueBytes(db.indexes[m.index].documents[m.id].source)
         == DatabaseBytes(db)
  {
    hide MapSum, IndexBytes, DatabaseBytes, Applied;
    EstimateOfDocumentMutation(db, m);
  }

  /** A new index costs its name, its settings and its mappings. */
  lemma CreatingCosts(db: Database, m: Mutation)
    requires m.CreateIndex? && m.name !in db.indexes
    ensures DatabaseBytes(Applied(db, m))
         == DatabaseBytes(db) + Utf8Len(m.name) + ValueBytes(m.settings) + ValueBytes(m.mappings)
  {
    hide MapSum;
    MapSumInsert(db.indexes, m.name, NewIndex(m.name, m.settings, m.mappings), IndexWeight);
    EmptySums();
  }

  lemma EmptySums()
    ensures MapSum<StoredDocument>(map[], DocumentWeight) == 0 && MapSum<nat>(map[], TombstoneWeight) == 0
    ensures DatabaseBytes(EMPTY_DATABASE) == 128 && NamesBytes(InOrder({})) == 0
  {
  }

  lemma HeaderReplacesIndex(db: Database, m: Mutation)
    requires (IsHeaderMutation(m) || m.RenameDocument?) && m.index in db.indexes
    ensures var after := Applied(db, m);
            DatabaseBytes(after.(aliases := db.aliases)) + db.indexes[m.index].storeSizeBytes
            == DatabaseBytes(db) + after.indexes[m.index].storeSizeBytes
  {
    hide MapSum, IndexEffect;
    var after := IndexEffect(db.indexes[m.index], m, NextSeqNo(db.seqNo, m));
    ReplacingOneIndex(db, m.index, after);
  }

  /** Settings and mappings cost what they weigh, in an index whose cached size is exact. */
  lemma HeaderCosts(db: Database, m: Mutation)
    requires (m.PutMapping? || m.PutSettings?) && m.index in db.indexes && Slack(db.indexes[m.index]) == 0
    ensures var after := Applied(db, m);
            var x, y := db.indexes[m.index], after.indexes[m.index];
            DatabaseBytes(after) + ValueBytes(x.settings) + ValueBytes(x.mappings)
            == DatabaseBytes(db) + ValueBytes(y.settings) + ValueBytes(y.mappings)
  {
    hide MapSum, DatabaseBytes, MergeObject;
    HeaderReplacesIndex(db, m);
  }

  /** A rename costs the difference of the ids. */
  lemma RenamingCosts(db: Database, m: Mutation)
    requires m.RenameDocument? && m.index in db.indexes && Slack(db.indexes[m.index]) == 0
    requires m.oldId in db.indexes[m.index].documents && m.newId !in db.indexes[m.index].documents
    ensures DatabaseBytes(Applied(db, m)) + Utf8Len(m.oldId) == DatabaseBytes(db) + Utf8Len(m.newId)
  {
    hide MapSum, DatabaseBytes;
    HeaderReplacesIndex(db, m);
    var documents := db.indexes[m.index].documents;
    var document := documents[m.oldId].(id := m.newId);
    MapSumRemove(documents, m.oldId, DocumentWeight);
    MapSumInsert(documents - {m.oldId}, m.newId, document, DocumentWeight);
    assert (documents - {m.oldId}) - {m.newId} == documents - {m.oldId};
  }

  function Flags(names: set<string>): (flags: map<string, bool>)
    ensures flags.Keys == names
  {
    map a | a in names :: true
  }

  lemma OneMoreFlag(names: set<string>, name: string)
    requires name !in names
    ensures Flags(names + {name}) == Flags(names)[name := true] && Flags(names + {name}) - {name} == Flags(names)
  {
  }

  function NameWeight(name: string, there: bool): nat {
    Utf8Len(name)
  }

  lemma {:induction false} NamesBytesIsSum(names: set<string>)
    ensures NamesBytes(InOrder(names)) == MapSum(Flags(names), NameWeight)
    decreases |names|
  {
    if names != {} {
      var k := Least(names);
      NamesBytesIsSum(names - {k});
      assert names - {k} + {k} == names;
      OneMoreFlag(names - {k}, k);
      assert InOrder(names) == [k] + InOrder(names - {k});
    }
  }

  lemma NamesBytesMore(names: set<string>, name: string)
    requires name !in names
    ensures NamesBytes(InOrder(names + {name})) == NamesBytes(InOrder(names)) + Utf8Len(name)
  {
    hide MapSum, InOrder, NamesBytes, Flags;
    NamesBytesIsSum(names);
    NamesBytesIsSum(names + {name});
    OneMoreFlag(names, name);
    MapSumInsert(Flags(names), name, true, NameWeight);
  }

  ghost function AliasCost(db: Database, alias: string): nat {
    if alias in db.aliases then
      Utf8Len(db.aliases[alias].alias) + Utf8Len(db.aliases[alias].index) + ValueBytes(db.aliases[alias].raw)
    else 0
  }

  ghost function ListingCost(ix: IndexMetadata, alias: string): nat {
    if alias in ix.aliases then Utf8Len(alias) else 0
  }

  lemma ListingCosts(ix: IndexMetadata, m: Mutation)
    requires (m.PutAlias? || m.DeleteAlias?) && Slack(ix) == 0
    ensures var after := HeaderEffect(ix, m);
            after.storeSizeBytes + ListingCost(ix, m.alias) == ix.storeSizeBytes + ListingCost(after, m.alias)
  {
    hide MapSum, InOrder, NamesBytes;
    var after := HeaderEffect(ix, m);
    if m.alias in ix.aliases && m.DeleteAlias? {
      NamesBytesMore(after.aliases, m.alias);
      assert after.aliases + {m.alias} == ix.aliases;
    } else if m.alias !in ix.aliases && m.PutAlias? {
      NamesBytesMore(ix.aliases, m.alias);
    } else {
      assert after.aliases == ix.aliases;
    }
  }

  /** An alias costs its entry and its place in the index's list. */
  lemma AliasCosts(db: Database, m: Mutation)
    requires (m.PutAlias? || m.DeleteAlias?) && m.index in db.indexes && Slack(db.indexes[m.index]) == 0
    ensures var after := Applied(db, m);
            DatabaseBytes(after) + AliasCost(db, m.alias) + ListingCost(db.indexes[m.index], m.alias)
            == DatabaseBytes(db) + AliasCost(after, m.alias) + ListingCost(after.indexes[m.index], m.alias)
  {
    hide MapSum, HeaderEffect, IndexBytes, AliasCost, ListingCost;
    HeaderReplacesIndex(db, m);
    ListingCosts(db.indexes[m.index], m);
    AliasSums(db, m);
  }

  lemma AliasSums(db: Database, m: Mutation)
    requires m.PutAlias? || m.DeleteAlias?
    ensures var after := Applied(db, m);
            MapSum(after.aliases, AliasWeight) + AliasCost(db, m.alias)
            == MapSum(db.aliases, AliasWeight) + AliasCost(after, m.alias)
  {
    hide MapSum;
    if m.PutAlias? {
      MapSumInsert(db.aliases, m.alias, AliasMetadata(m.alias, m.index, m.raw), AliasWeight);
    } else if m.alias in db.aliases {
      MapSumRemove(db.aliases, m.alias, AliasWeight);
    } else {
      assert db.aliases - {m.alias} == db.aliases;
    }
  }

  ghost function TemplateCost(db: Database, name: string): nat {
    if name in db.templates then Utf8Len(db.templates[name].name) + ValueBytes(db.templates[name].raw) else 0
  }

  /** A template costs its name and its body. */
  lemma TemplateCosts(db: Database, m: Mutation)
    requires m.PutTemplate? || m.DeleteTemplate?
    ensures var after := Applied(db, m);
            DatabaseBytes(after) + TemplateCost(db, m.name) == DatabaseBytes(db) + TemplateCost(after, m.name)
  {
    hide MapSum;
    if m.PutTemplate? {
      MapSumInsert(db.templates, m.name, IndexTemplate(m.name, m.indexPatterns, m.template, m.raw), TemplateWeight);
    } else if m.name in db.templates {
      MapSumRemove(db.templates, m.name, TemplateWeight);
    } else {
      assert db.templates - {m.name} == db.templates;
    }
  }

  ghost function ObjectCost(objects: map<string, Value>, name: string): nat {
    if name in objects then Utf8Len(name) + ValueBytes(objects[name]) else 0
  }

  /** A registry object costs its name and its body, and the first of a namespace its name too. */
  lemma RegistryCosts(db: Database, m: Mutation)
    requires m.PutRegistryObject?
    ensures var objects := if m.namespace in db.registries then db.registries[m.namespace] else map[];
            DatabaseBytes(Applied(db, m)) + ObjectCost(objects, m.name)
            == DatabaseBytes(db) + Utf8Len(m.name) + ValueBytes(m.raw)
               + if m.namespace in db.registries then 0 else Utf8Len(m.namespace)
  {
    hide MapSum;
    var objects := if m.namespace in db.registries then db.registries[m.namespace] else map[];
    MapSumInsert(db.registries, m.namespace, objects[m.name := m.raw], RegistryWeight);
    MapSumInsert(objects, m.name, m.raw, RegistryObjectWeight);
    NoObjects();
  }

  lemma NoObjects()
    ensures MapSum<Value>(map[], RegistryObjectWeight) == 0
  {
  }
}
