/** The in-memory database: its entities, the byte estimates, what each mutation does
    to it, and when a mutation is refused. */
module Catalog {
  import opened Prelude
  import opened Json

  datatype StoredDocument = StoredDocument(
    id: string, source: Value, version: nat, seqNo: nat, primaryTerm: nat)

  datatype IndexMetadata = IndexMetadata(
    name: string, settings: Value, mappings: Value, aliases: set<string>,
    documents: map<string, StoredDocument>, tombstones: map<string, nat>, storeSizeBytes: nat)

  datatype IndexTemplate = IndexTemplate(
    name: string, indexPatterns: seq<string>, template: Value, raw: Value)

  datatype AliasMetadata = AliasMetadata(alias: string, index: string, raw: Value)

  datatype Database = Database(
    indexes: map<string, IndexMetadata>, templates: map<string, IndexTemplate>,
    registries: map<string, map<string, Value>>, aliases: map<string, AliasMetadata>, seqNo: nat)

  datatype Mutation =
    | CreateIndex(name: string, settings: Value, mappings: Value)
    | DeleteIndex(name: string)
    | PutTemplate(name: string, indexPatterns: seq<string>, template: Value, raw: Value)
    | DeleteTemplate(name: string)
    | PutRegistryObject(namespace: string, name: string, raw: Value)
    | DeleteRegistryObject(namespace: string, name: string)
    | PutMapping(index: string, mappings: Value)
    | PutSettings(index: string, settings: Value)
    | PutAlias(index: string, alias: string, raw: Value)
    | DeleteAlias(index: string, alias: string)
    | IndexDocument(index: string, id: string, source: Value)
    | CreateDocument(index: string, id: string, source: Value)
    | UpdateDocument(index: string, id: string, doc: Value, docAsUpsert: bool)
    | DeleteDocument(index: string, id: string)
    | RenameDocument(index: string, oldId: string, newId: string)

  datatype StoreLimits = StoreLimits(maxIndexes: nat, maxDocuments: nat, memoryLimitBytes: nat)

  const EMPTY_DATABASE := Database(map[], map[], map[], map[], 0)

  // ----- Lookups -----

  function ResolveIndex(db: Database, indexOrAlias: string): Option<string> {
    if indexOrAlias in db.indexes then Some(indexOrAlias)
    else if indexOrAlias in db.aliases then Some(db.aliases[indexOrAlias].index)
    else None
  }

  predicate HasDocument(db: Database, index: string, id: string) {
    index in db.indexes && id in db.indexes[index].documents
  }

  function DocumentsIn(name: string, ix: IndexMetadata): nat {
    |ix.documents|
  }

  function DocumentCount(db: Database): nat {
    MapSum(db.indexes, DocumentsIn)
  }

  // ----- Byte estimates -----

  function DocumentBytes(id: string, source: Value): nat {
    Utf8Len(id) + 64 + ValueBytes(source)
  }

  function TombstoneBytes(id: string): nat {
    Utf8Len(id) + 16
  }

  function DocumentWeight(id: string, document: StoredDocument): nat {
    DocumentBytes(id, document.source)
  }

  function TombstoneWeight(id: string, seqNo: nat): nat {
    TombstoneBytes(id)
  }

  function NamesBytes(names: seq<string>): nat {
    if names == [] then 0 else Utf8Len(names[0]) + NamesBytes(names[1..])
  }

  /** What an index weighs besides its documents and tombstones. */
  function HeaderBytes(ix: IndexMetadata): nat {
    Utf8Len(ix.name) + ValueBytes(ix.settings) + ValueBytes(ix.mappings) + NamesBytes(InOrder(ix.aliases))
  }

  /** The size of an index counted from scratch; `storeSizeBytes` is the cached copy. */
  function IndexBytes(ix: IndexMetadata): nat {
    HeaderBytes(ix) + MapSum(ix.documents, DocumentWeight) + MapSum(ix.tombstones, TombstoneWeight)
  }

  function IndexWeight(name: string, ix: IndexMetadata): nat {
    ix.storeSizeBytes
  }

  function TemplateWeight(name: string, t: IndexTemplate): nat {
    Utf8Len(t.name) + ValueBytes(t.raw)
  }

  function AliasWeight(name: string, a: AliasMetadata): nat {
    Utf8Len(a.alias) + Utf8Len(a.index) + ValueBytes(a.raw)
  }

  function RegistryObjectWeight(name: string, raw: Value): nat {
    Utf8Len(name) + ValueBytes(raw)
  }

  function RegistryWeight(namespace: string, objects: map<string, Value>): nat {
    Utf8Len(namespace) + MapSum(objects, RegistryObjectWeight)
  }

  /** The memory estimate: it reads every index's cached size. */
  function DatabaseBytes(db: Database): nat {
    128 + MapSum(db.indexes, IndexWeight) + MapSum(db.templates, TemplateWeight)
    + MapSum(db.aliases, AliasWeight) + MapSum(db.registries, RegistryWeight)
  }

  method EstimateDatabaseBytes(db: Database) returns (bytes: nat)
    ensures bytes == DatabaseBytes(db)
  {
    bytes := SumEntries(db.indexes, IndexWeight);
    var templates := SumEntries(db.templates, TemplateWeight);
    var aliases := SumEntries(db.aliases, AliasWeight);
    var registries := SumEntries(db.registries, RegistryWeight);
    bytes := 128 + bytes + templates + aliases + registries;
  }

  function SaturatingSub(a: nat, b: nat): nat {
    if a < b then 0 else a - b
  }

  // ----- What a mutation does -----

  function Recomputed(ix: IndexMetadata): IndexMetadata {
    ix.(storeSizeBytes := IndexBytes(ix))
  }

  function NewIndex(name: string, settings: Value, mappings: Value): IndexMetadata {
    Recomputed(IndexMetadata(name, settings, mappings, {}, map[], map[], 0))
  }

  function LiveBytes(ix: IndexMetadata, id: string): nat {
    if id in ix.documents then DocumentBytes(id, ix.documents[id].source) else 0
  }

  function DeadBytes(ix: IndexMetadata, id: string): nat {
    if id in ix.tombstones then TombstoneBytes(id) else 0
  }

  function NextVersion(ix: IndexMetadata, id: string): nat {
    if id in ix.documents then ix.documents[id].version + 1 else 1
  }

  /** The index with `id` holding `source`: the old copy and any tombstone are gone. */
  function WithDocument(ix: IndexMetadata, id: string, source: Value, seqNo: nat): IndexMetadata {
    ix.(documents := ix.documents[id := StoredDocument(id, source, NextVersion(ix, id), seqNo, 1)],
        tombstones := ix.tombstones - {id},
        storeSizeBytes := SaturatingSub(SaturatingSub(ix.storeSizeBytes, LiveBytes(ix, id)), DeadBytes(ix, id))
                          + DocumentBytes(id, source))
  }

  function WithoutDocument(ix: IndexMetadata, id: string, seqNo: nat): IndexMetadata {
    ix.(documents := ix.documents - {id},
        tombstones := ix.tombstones[id := seqNo],
        storeSizeBytes := SaturatingSub(ix.storeSizeBytes, LiveBytes(ix, id)) + TombstoneBytes(id))
  }

  function WithRenamed(ix: IndexMetadata, oldId: string, newId: string): IndexMetadata
    requires oldId in ix.documents
  {
    Recomputed(ix.(documents := (ix.documents - {oldId})[newId := ix.documents[oldId].(id := newId)]))
  }

  function UpdatedSource(ix: IndexMetadata, id: string, doc: Value): Value {
    MergeObject(if id in ix.documents then ix.documents[id].source else EMPTY_OBJECT, doc)
  }

  /** What a document mutation does to its index; other mutations are not its business. */
  function DocumentEffect(ix: IndexMetadata, m: Mutation, seqNo: nat): IndexMetadata {
    match m
    case IndexDocument(_, id, source) => WithDocument(ix, id, source, seqNo)
    case CreateDocument(_, id, source) =>
      if id in ix.documents then ix else WithDocument(ix, id, source, seqNo)
    case UpdateDocument(_, id, doc, docAsUpsert) =>
      if id !in ix.documents && !docAsUpsert then ix
      else WithDocument(ix, id, UpdatedSource(ix, id, doc), seqNo)
    case DeleteDocument(_, id) =>
      if id in ix.documents then WithoutDocument(ix, id, seqNo) else ix
    case RenameDocument(_, oldId, newId) =>
      if newId in ix.documents || oldId !in ix.documents then ix else WithRenamed(ix, oldId, newId)
    case _ => ix
  }

  predicate IsDocumentMutation(m: Mutation) {
    m.IndexDocument? || m.CreateDocument? || m.UpdateDocument? || m.DeleteDocument? || m.RenameDocument?
  }

  predicate IsHeaderMutation(m: Mutation) {
    m.PutMapping? || m.PutSettings? || m.PutAlias? || m.DeleteAlias?
  }

  /** What a mapping, settings or alias mutation does to its index. */
  function HeaderEffect(ix: IndexMetadata, m: Mutation): IndexMetadata {
    Recomputed(
      match m
      case PutMapping(_, mappings) => ix.(mappings := MergeObject(ix.mappings, mappings))
      case PutSettings(_, settings) => ix.(settings := MergeObject(ix.settings, settings))
      case PutAlias(_, alias, _) => ix.(aliases := ix.aliases + {alias})
      case DeleteAlias(_, alias) => ix.(aliases := ix.aliases - {alias})
      case _ => ix)
  }

  function IndexEffect(ix: IndexMetadata, m: Mutation, seqNo: nat): IndexMetadata {
    if IsHeaderMutation(m) then HeaderEffect(ix, m) else DocumentEffect(ix, m, seqNo)
  }

  /** Every document mutation but a rename takes a sequence number, whether or not it changes anything. */
  function NextSeqNo(seqNo: nat, m: Mutation): nat {
    if IsDocumentMutation(m) && !m.RenameDocument? then seqNo + 1 else seqNo
  }

  predicate ChangesAnIndex(m: Mutation) {
    IsDocumentMutation(m) || IsHeaderMutation(m)
  }

  function IndexesAfter(indexes: map<string, IndexMetadata>, m: Mutation, seqNo: nat): map<string, IndexMetadata> {
    if m.CreateIndex? then
      if m.name in indexes then indexes
      else indexes[m.name := NewIndex(m.name, m.settings, m.mappings)]
    else if m.DeleteIndex? then indexes - {m.name}
    else if ChangesAnIndex(m) && m.index in indexes then
      indexes[m.index := IndexEffect(indexes[m.index], m, seqNo)]
    else indexes
  }

  function TemplatesAfter(templates: map<string, IndexTemplate>, m: Mutation): map<string, IndexTemplate> {
    match m
    case PutTemplate(name, patterns, template, raw) =>
      templates[name := IndexTemplate(name, patterns, template, raw)]
    case DeleteTemplate(name) => templates - {name}
    case _ => templates
  }

  function RegistriesAfter(registries: map<string, map<string, Value>>, m: Mutation): map<string, map<string, Value>> {
    match m
    case PutRegistryObject(namespace, name, raw) =>
      var objects := if namespace in registries then registries[namespace] else map[];
      registries[namespace := objects[name := raw]]
    case DeleteRegistryObject(namespace, name) =>
      if namespace !in registries then registries
      else if registries[namespace] - {name} == map[] then registries - {namespace}
      else registries[namespace := registries[namespace] - {name}]
    case _ => registries
  }

  function AliasesAfter(aliases: map<string, AliasMetadata>, m: Mutation): map<string, AliasMetadata> {
    match m
    case PutAlias(index, alias, raw) => aliases[alias := AliasMetadata(alias, index, raw)]
    case DeleteAlias(_, alias) => aliases - {alias}
    case DeleteIndex(name) => map a | a in aliases && aliases[a].index != name :: aliases[a]
    case _ => aliases
  }

  /** The database after one mutation. */
  function Applied(db: Database, m: Mutation): Database {
    var seqNo := NextSeqNo(db.seqNo, m);
    Database(IndexesAfter(db.indexes, m, seqNo), TemplatesAfter(db.templates, m),
             RegistriesAfter(db.registries, m), AliasesAfter(db.aliases, m), seqNo)
  }

  function ApplyAll(db: Database, ms: seq<Mutation>): Database {
    if ms == [] then db else Applied(ApplyAll(db, ms[..|ms| - 1]), ms[|ms| - 1])
  }

  lemma {:induction false} ApplyAllAppend(db: Database, ms: seq<Mutation>, ns: seq<Mutation>)
    ensures ApplyAll(db, ms + ns) == ApplyAll(ApplyAll(db, ms), ns)
  {
    if ns == [] {
      assert ms + ns == ms;
    } else {
      ApplyAllAppend(db, ms, ns[..|ns| - 1]);
      assert (ms + ns)[..|ms + ns| - 1] == ms + ns[..|ns| - 1];
    }
  }

  /** The database with every cached index size counted afresh, as a load does it. */
  function Normalized(db: Database): Database {
    db.(indexes := map n | n in db.indexes :: Recomputed(db.indexes[n]))
  }

  // ----- When a mutation is refused -----

  predicate IsWhitespace(c: char) {
    var n := c as int;
    9 <= n <= 13 || n == 0x20 || n == 0x85 || n == 0xA0 || n == 0x1680 || 0x2000 <= n <= 0x200A
    || n == 0x2028 || n == 0x2029 || n == 0x202F || n == 0x205F || n == 0x3000
  }

  predicate IsBlank(s: string) {
    forall i :: 0 <= i < |s| ==> IsWhitespace(s[i])
  }

  const REGISTRY_NAMESPACES: set<string> :=
    {"component_template", "legacy_template", "ingest_pipeline", "search_pipeline", "script"}

  function Require(condition: bool, error: StoreError): Result<()> {
    if condition then Ok(()) else Err(error)
  }

  function IndexMissing(): StoreError { StoreError(404, "index_not_found_exception") }
  function DocumentMissing(): StoreError { StoreError(404, "document_missing_exception") }
  function ResourceLimit(): StoreError { StoreError(429, "resource_limit_exception") }
  function VersionConflict(): StoreError { StoreError(409, "version_conflict_engine_exception") }

  function ValidateMutation(limits: StoreLimits, db: Database, m: Mutation): Result<()> {
    if IsDocumentMutation(m) then ValidateDocumentMutation(limits, db, m)
    else ValidateCatalogMutation(limits, db, m)
  }

  function ValidateDocumentMutation(limits: StoreLimits, db: Database, m: Mutation): Result<()>
    requires IsDocumentMutation(m)
  {
    if m.index !in db.indexes then Err(IndexMissing()) else
    var ix := db.indexes[m.index];
    if m.DeleteDocument? then Ok(())
    else if m.RenameDocument? then
      if m.oldId !in ix.documents then Err(DocumentMissing())
      else Require(m.newId !in ix.documents, VersionConflict())
    else
      var existing := m.id in ix.documents;
      if m.CreateDocument? && existing then Err(VersionConflict())
      else if m.UpdateDocument? && !m.docAsUpsert && !existing then Err(DocumentMissing())
      else if !existing && DocumentCount(db) >= limits.maxDocuments then Err(ResourceLimit())
      else Require(!(m.IndexDocument? && IsBlank(ix.name)), StoreError(400, "invalid_index_name_exception"))
  }

  function ValidateCatalogMutation(limits: StoreLimits, db: Database, m: Mutation): Result<()> {
    match m
    case CreateIndex(name, _, _) =>
      if IsBlank(name) then Err(StoreError(400, "invalid_index_name_exception"))
      else if name in db.indexes then Err(StoreError(400, "resource_already_exists_exception"))
      else Require(|db.indexes| < limits.maxIndexes, ResourceLimit())
    case DeleteIndex(name) => Require(name in db.indexes, IndexMissing())
    case PutTemplate(name, patterns, _, _) =>
      Require(!IsBlank(name) && patterns != [], StoreError(400, "invalid_index_template_exception"))
    case DeleteTemplate(name) =>
      Require(name in db.templates, StoreError(404, "index_template_missing_exception"))
    case PutRegistryObject(namespace, name, _) =>
      if namespace !in REGISTRY_NAMESPACES then Err(StoreError(400, "invalid_registry_namespace_exception"))
      else Require(!IsBlank(name), StoreError(400, "invalid_registry_object_exception"))
    case DeleteRegistryObject(namespace, name) =>
      if namespace !in REGISTRY_NAMESPACES then Err(StoreError(400, "invalid_registry_namespace_exception"))
      else Require(namespace in db.registries && name in db.registries[namespace],
                   StoreError(404, "registry_object_missing_exception"))
    case PutMapping(index, _) => Require(index in db.indexes, IndexMissing())
    case PutSettings(index, _) => Require(index in db.indexes, IndexMissing())
    case PutAlias(index, alias, _) =>
      if index !in db.indexes then Err(IndexMissing())
      else Require(!IsBlank(alias) && '*' !in alias && alias !in db.indexes,
                   StoreError(400, "invalid_alias_name_exception"))
    case DeleteAlias(index, alias) =>
      Require(alias in db.aliases && db.aliases[alias].index == index,
              StoreError(404, "aliases_not_found_exception"))
    case _ => Ok(())
  }

  // ----- The live database: one object, changed in place -----

  lemma SubtractNothing(a: nat)
    ensures SaturatingSub(a, 0) == a
  {
  }

  predicate IsCatalogMutation(m: Mutation) {
    m.CreateIndex? || m.DeleteIndex? || m.PutTemplate? || m.DeleteTemplate?
  }

  /** Each kind of mutation leaves the other parts of the database alone. */
  lemma LeavesAlone(db: Database, m: Mutation)
    ensures !IsDocumentMutation(m) ==> NextSeqNo(db.seqNo, m) == db.seqNo
    ensures !m.PutTemplate? && !m.DeleteTemplate? ==> TemplatesAfter(db.templates, m) == db.templates
    ensures !m.PutRegistryObject? && !m.DeleteRegistryObject? ==> RegistriesAfter(db.registries, m) == db.registries
    ensures !m.PutAlias? && !m.DeleteAlias? && !m.DeleteIndex? ==> AliasesAfter(db.aliases, m) == db.aliases
    ensures !ChangesAnIndex(m) && !IsCatalogMutation(m) ==>
      IndexesAfter(db.indexes, m, NextSeqNo(db.seqNo, m)) == db.indexes
  {
  }

  class LiveDatabase {
    var indexes: map<string, IndexMetadata>
    var templates: map<string, IndexTemplate>
    var registries: map<string, map<string, Value>>
    var aliases: map<string, AliasMetadata>
    var seqNo: nat

    function View(): Database
      reads this
    {
      Database(indexes, templates, registries, aliases, seqNo)
    }

    constructor Clone(db: Database)
      ensures View() == db
    {
      indexes, templates, registries, aliases, seqNo :=
        db.indexes, db.templates, db.registries, db.aliases, db.seqNo;
    }

    method RecomputeStoreSizes()
      modifies this`indexes
      ensures View() == Normalized(old(View()))
    {
      hide Recomputed;
      var todo := indexes.Keys;
      while todo != {}
        invariant todo <= indexes.Keys == old(indexes).Keys
        invariant forall n :: n in indexes ==>
          indexes[n] == if n in todo then old(indexes)[n] else Recomputed(old(indexes)[n])
        decreases |todo|
      {
        var n := Least(todo);
        indexes := indexes[n := Recomputed(indexes[n])];
        todo := todo - {n};
      }
    }

    /** Applies one mutation, adjusting the cached index size as it goes. */
    method Apply(m: Mutation)
      modifies this
      ensures View() == Applied(old(View()), m)
    {
      hide IndexesAfter, TemplatesAfter, RegistriesAfter, AliasesAfter;
      LeavesAlone(View(), m);
      match m {
        case CreateIndex(_, _, _) => ApplyToCatalog(m);
        case DeleteIndex(_) => ApplyToCatalog(m);
        case PutTemplate(_, _, _, _) => ApplyToCatalog(m);
        case DeleteTemplate(_) => ApplyToCatalog(m);
        case PutRegistryObject(_, _, _) => ApplyToRegistries(m);
        case DeleteRegistryObject(_, _) => ApplyToRegistries(m);
        case PutMapping(_, _) => ApplyToIndexHeader(m);
        case PutSettings(_, _) => ApplyToIndexHeader(m);
        case PutAlias(_, _, _) => ApplyToIndexHeader(m);
        case DeleteAlias(_, _) => ApplyToIndexHeader(m);
        case _ => ApplyToDocuments(m);
      }
    }

    method ApplyToCatalog(m: Mutation)
      requires IsCatalogMutation(m)
      modifies this`indexes, this`aliases, this`templates
      ensures indexes == IndexesAfter(old(indexes), m, seqNo)
      ensures aliases == AliasesAfter(old(aliases), m) && templates == TemplatesAfter(old(templates), m)
    {
      hide NewIndex;
      match m {
        case CreateIndex(name, settings, mappings) =>
          if name !in indexes {
            indexes := indexes[name := NewIndex(name, settings, mappings)];
          }
        case DeleteIndex(name) =>
          indexes := indexes - {name};
          aliases := map a | a in aliases && aliases[a].index != name :: aliases[a];
        case PutTemplate(name, patterns, template, raw) =>
          templates := templates[name := IndexTemplate(name, patterns, template, raw)];
        case DeleteTemplate(name) =>
          templates := templates - {name};
      }
    }

    method ApplyToRegistries(m: Mutation)
      requires m.PutRegistryObject? || m.DeleteRegistryObject?
      modifies this`registries
      ensures registries == RegistriesAfter(old(registries), m)
    {
      if m.PutRegistryObject? {
        if m.namespace !in registries {
          registries := registries[m.namespace := map[]];
        }
        registries := registries[m.namespace := registries[m.namespace][m.name := m.raw]];
      } else if m.namespace in registries {
        var objects := registries[m.namespace] - {m.name};
        registries := registries[m.namespace := objects];
        if objects == map[] {
          assert registries - {m.namespace} == old(registries) - {m.namespace};
          registries := registries - {m.namespace};
        }
      }
    }

    method ApplyToIndexHeader(m: Mutation)
      requires IsHeaderMutation(m)
      modifies this`indexes, this`aliases
      ensures indexes == IndexesAfter(old(indexes), m, seqNo) && aliases == AliasesAfter(old(aliases), m)
    {
      hide HeaderEffect;
      if m.index in indexes {
        indexes := indexes[m.index := HeaderEffect(indexes[m.index], m)];
      }
      if m.PutAlias? {
        aliases := aliases[m.alias := AliasMetadata(m.alias, m.index, m.raw)];
      } else if m.DeleteAlias? {
        aliases := aliases - {m.alias};
      }
    }

    method ApplyToDocuments(m: Mutation)
      requires IsDocumentMutation(m)
      modifies this`indexes, this`seqNo
      ensures seqNo == NextSeqNo(old(seqNo), m) && indexes == IndexesAfter(old(indexes), m, seqNo)
    {
      if !m.RenameDocument? {
        seqNo := seqNo + 1;
      }
      if m.index in indexes {
        var ix := ChangeDocuments(indexes[m.index], m);
        indexes := indexes[m.index := ix];
      }
    }

    /** The document part of a mutation on its index, adjusting the cached size step by step. */
    method ChangeDocuments(before: IndexMetadata, m: Mutation) returns (ix: IndexMetadata)
      requires IsDocumentMutation(m)
      ensures ix == DocumentEffect(before, m, seqNo)
    {
      hide SaturatingSub, DocumentBytes, TombstoneBytes, IndexBytes, UpdatedSource;
      SubtractNothing(before.storeSizeBytes);
      ix := before;
      match m {
        case IndexDocument(_, id, source) =>
          ix := ForgetCopy(ix, id);
          ix := ForgetTombstone(ix, id);
          ix := Insert(ix, id, source);
        case CreateDocument(_, id, source) =>
          if id !in ix.documents {
            ix := ForgetTombstone(ix, id);
            ix := Insert(ix, id, source);
          }
        case UpdateDocument(_, id, doc, docAsUpsert) =>
          if id in ix.documents || docAsUpsert {
            var source := UpdatedSource(ix, id, doc);
            ix := ForgetCopy(ix, id);
            ix := ForgetTombstone(ix, id);
            ix := Insert(ix, id, source);
          }
        case DeleteDocument(_, id) =>
          if id in ix.documents {
            ix := ForgetCopy(ix, id);
            ix := ix.(documents := ix.documents - {id}, storeSizeBytes := ix.storeSizeBytes + TombstoneBytes(id));
            ix := ix.(tombstones := ix.tombstones[id := seqNo]);
          }
        case RenameDocument(_, oldId, newId) =>
          if newId !in ix.documents && oldId in ix.documents {
            var document := ix.documents[oldId];
            ix := ix.(documents := ix.documents - {oldId});
            ix := ix.(documents := ix.documents[newId := document.(id := newId)]);
            ix := Recomputed(ix);
          }
      }
    }

    /** Takes the size of the stored copy of a document off the cached size. */
    method ForgetCopy(ix: IndexMetadata, id: string) returns (r: IndexMetadata)
      ensures r == ix.(storeSizeBytes := SaturatingSub(ix.storeSizeBytes, LiveBytes(ix, id)))
    {
      r := ix;
      if id in ix.documents {
        r := r.(storeSizeBytes := SaturatingSub(r.storeSizeBytes, DocumentBytes(id, ix.documents[id].source)));
      }
    }

    /** Drops the tombstone of a document, if any, and its size. */
    method ForgetTombstone(ix: IndexMetadata, id: string) returns (r: IndexMetadata)
      ensures r == ix.(tombstones := ix.tombstones - {id},
                       storeSizeBytes := SaturatingSub(ix.storeSizeBytes, DeadBytes(ix, id)))
    {
      r := ix;
      if id in ix.tombstones {
        r := r.(tombstones := r.tombstones - {id});
        r := r.(storeSizeBytes := SaturatingSub(r.storeSizeBytes, TombstoneBytes(id)));
      } else {
        assert ix.tombstones - {id} == ix.tombstones;
      }
    }

    /** Stores the next version of a document and adds its size. */
    method Insert(ix: IndexMetadata, id: string, source: Value) returns (r: IndexMetadata)
      ensures r == ix.(documents := ix.documents[id := StoredDocument(id, source, NextVersion(ix, id), seqNo, 1)],
                       storeSizeBytes := ix.storeSizeBytes + DocumentBytes(id, source))
    {
      var version := NextVersion(ix, id);
      r := ix.(documents := ix.documents[id := StoredDocument(id, source, version, seqNo, 1)]);
      r := r.(storeSizeBytes := r.storeSizeBytes + DocumentBytes(id, source));
    }
  }
}
