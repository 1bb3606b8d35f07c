/** When a mutation is accepted, from what a caller can look up, and with which status it
    is refused otherwise. */
module Admission {
  import opened Prelude
  import opened Json
  import opened Catalog
  import opened CatalogInvariant
  import opened Writes

  const WHITE_SPACE: set<char> := {
    '\t', '\n', '\U{b}', '\U{c}', '\r', ' ', '\U{85}', '\U{a0}', '\U{1680}', '\U{2000}', '\U{2001}', '\U{2002}',
    '\U{2003}', '\U{2004}', '\U{2005}', '\U{2006}', '\U{2007}', '\U{2008}', '\U{2009}', '\U{200a}', '\U{2028}',
    '\U{2029}', '\U{202f}', '\U{205f}', '\U{3000}'}

  /** Something in the name is no white space. */
  ghost predicate HasText(name: string) {
    exists i :: 0 <= i < |name| && name[i] !in WHITE_SPACE
  }

  lemma BlankHasNoText(name: string)
    ensures IsBlank(name) <==> !HasText(name)
  {
    if i :| 0 <= i < |name| && name[i] !in WHITE_SPACE {
      assert !IsWhitespace(name[i]);
    }
    forall i | 0 <= i < |name| && name[i] in WHITE_SPACE ensures IsWhitespace(name[i]) {}
  }

  // ----- Counting documents -----

  /** Every document of every index, by index and id. */
  ghost function Documents(indexes: map<string, IndexMetadata>): set<(string, string)> {
    set n, id | n in indexes && id in indexes[n].documents :: (n, id)
  }

  ghost function IdsUnder(index: string, ids: set<string>): set<(string, string)> {
    set id | id in ids :: (index, id)
  }

  lemma {:induction false} CountIdsUnder(index: string, ids: set<string>)
    ensures |IdsUnder(index, ids)| == |ids|
  {
    if ids != {} {
      var id :| id in ids;
      CountIdsUnder(index, ids - {id});
      assert IdsUnder(index, ids) == IdsUnder(index, ids - {id}) + {(index, id)};
    }
  }

  lemma NothingStored(indexes: map<string, IndexMetadata>)
    requires indexes.Keys == {}
    ensures Documents(indexes) == {}
  {
  }

  lemma DocumentsOfOneMore(indexes: map<string, IndexMetadata>, k: string)
    requires k in indexes
    ensures |Documents(indexes)| == |Documents(indexes - {k})| + |indexes[k].documents|
  {
    var ids, rest := indexes[k].documents.Keys, Documents(indexes - {k});
    CountIdsUnder(k, ids);
    assert Documents(indexes) == rest + IdsUnder(k, ids) && rest !! IdsUnder(k, ids);
    assert |ids| == |indexes[k].documents|;
  }

  /** The count the limit is about is the number of documents stored. */
  lemma {:induction false} DocumentsAreCounted(indexes: map<string, IndexMetadata>)
    ensures MapSum(indexes, DocumentsIn) == |Documents(indexes)|
    decreases |indexes|
  {
    hide Documents;
    if indexes.Keys != {} {
      var k := Least(indexes.Keys);
      DocumentsAreCounted(indexes - {k});
      DocumentsOfOneMore(indexes, k);
    } else {
      NothingStored(indexes);
    }
  }

  // ----- Acceptance -----

  ghost predicate Stored(db: Database, index: string, id: string) {
    index in db.indexes && id in db.indexes[index].documents
  }

  ghost predicate RoomForIndex(limits: StoreLimits, db: Database) {
    |db.indexes| < limits.maxIndexes
  }

  ghost predicate RoomForDocument(limits: StoreLimits, db: Database) {
    |Documents(db.indexes)| < limits.maxDocuments
  }

  /** What the mutation needs of the names and documents there are. */
  ghost predicate Welcome(limits: StoreLimits, db: Database, m: Mutation) {
    match m
    case CreateIndex(name, _, _) => HasText(name) && name !in db.indexes && RoomForIndex(limits, db)
    case DeleteIndex(name) => name in db.indexes
    case PutTemplate(name, patterns, _, _) => HasText(name) && patterns != []
    case DeleteTemplate(name) => name in db.templates
    case PutRegistryObject(namespace, name, _) => Namespace(namespace) && HasText(name)
    case DeleteRegistryObject(namespace, name) =>
      Namespace(namespace) && namespace in db.registries && name in db.registries[namespace]
    case PutMapping(index, _) => index in db.indexes
    case PutSettings(index, _) => index in db.indexes
    case PutAlias(index, alias, _) =>
      index in db.indexes && HasText(alias) && '*' !in alias && alias !in db.indexes
    case DeleteAlias(index, alias) => alias in db.aliases && db.aliases[alias].index == index
    case IndexDocument(index, id, _) =>
      index in db.indexes && HasText(db.indexes[index].name)
      && (Stored(db, index, id) || RoomForDocument(limits, db))
    case CreateDocument(index, id, _) =>
      index in db.indexes && !Stored(db, index, id) && RoomForDocument(limits, db)
    case UpdateDocument(index, id, _, docAsUpsert) =>
      Stored(db, index, id) || (index in db.indexes && docAsUpsert && RoomForDocument(limits, db))
    case DeleteDocument(index, _) => index in db.indexes
    case RenameDocument(index, oldId, newId) => Stored(db, index, oldId) && !Stored(db, index, newId)
  }

  ghost predicate Namespace(namespace: string) {
    namespace == "component_template" || namespace == "legacy_template" || namespace == "ingest_pipeline"
    || namespace == "search_pipeline" || namespace == "script"
  }

  /** And the estimate afterwards is within the memory limit. */
  ghost predicate Acceptable(limits: StoreLimits, db: Database, m: Mutation) {
    Welcome(limits, db, m) && DatabaseBytes(Applied(db, m)) <= limits.memoryLimitBytes
  }

  lemma NamespacesAreListed(namespace: string)
    ensures Namespace(namespace) <==> namespace in REGISTRY_NAMESPACES
  {
  }

  lemma ValidDocumentMutation(limits: StoreLimits, db: Database, m: Mutation)
    requires IsDocumentMutation(m)
    ensures ValidateDocumentMutation(limits, db, m).Ok? <==> Welcome(limits, db, m)
  {
    hide MapSum, IsBlank, HasText, Documents, Namespace;
    DocumentsAreCounted(db.indexes);
    if m.IndexDocument? && m.index in db.indexes {
      BlankHasNoText(db.indexes[m.index].name);
    }
  }

  lemma ValidCatalogMutation(limits: StoreLimits, db: Database, m: Mutation)
    requires !IsDocumentMutation(m)
    ensures ValidateCatalogMutation(limits, db, m).Ok? <==> Welcome(limits, db, m)
  {
    hide IsBlank, HasText, Documents, Namespace;
    match m {
      case CreateIndex(name, _, _) => BlankHasNoText(name);
      case PutTemplate(name, _, _, _) => BlankHasNoText(name);
      case PutRegistryObject(namespace, name, _) => BlankHasNoText(name); NamespacesAreListed(namespace);
      case DeleteRegistryObject(namespace, _) => NamespacesAreListed(namespace);
      case PutAlias(_, alias, _) => BlankHasNoText(alias);
      case _ =>
    }
  }

  lemma ValidExactlyWhenWelcome(limits: StoreLimits, db: Database, m: Mutation)
    ensures ValidateMutation(limits, db, m).Ok? <==> Welcome(limits, db, m)
  {
    hide ValidateDocumentMutation, ValidateCatalogMutation, Welcome;
    if IsDocumentMutation(m) {
      ValidDocumentMutation(limits, db, m);
    } else {
      ValidCatalogMutation(limits, db, m);
    }
  }

  /** One mutation is admitted exactly when it is acceptable, and then it is applied. */
  lemma AdmittedExactlyWhen(limits: StoreLimits, db: Database, m: Mutation)
    ensures AdmitOne(limits, db, m).Ok? <==> Acceptable(limits, db, m)
    ensures AdmitOne(limits, db, m).Ok? ==> AdmitOne(limits, db, m).value == Applied(db, m)
  {
    hide ValidateMutation, Welcome, Applied, DatabaseBytes;
    ValidExactlyWhenWelcome(limits, db, m);
  }

  /** A run of mutations, each where its turn comes. */
  ghost predicate AllAcceptable(limits: StoreLimits, db: Database, ms: seq<Mutation>) {
    forall i :: 0 <= i < |ms| ==> Acceptable(limits, ApplyAll(db, ms[..i]), ms[i])
  }

  lemma {:induction false} BatchAdmittedExactlyWhen(limits: StoreLimits, db: Database, ms: seq<Mutation>)
    ensures Admit(limits, db, ms).Ok? <==> AllAcceptable(limits, db, ms)
    ensures Admit(limits, db, ms).Ok? ==> Admit(limits, db, ms).value == ApplyAll(db, ms)
  {
    hide AdmitOne, Acceptable, Applied;
    if ms != [] {
      var n := |ms| - 1;
      BatchAdmittedExactlyWhen(limits, db, ms[..n]);
      AdmittedExactlyWhen(limits, ApplyAll(db, ms[..n]), ms[n]);
      forall i | 0 <= i < n ensures ms[..n][..i] == ms[..i] && ms[..n][i] == ms[i] {}
      assert AllAcceptable(limits, db, ms) <==>
          AllAcceptable(limits, db, ms[..n]) && Acceptable(limits, ApplyAll(db, ms[..n]), ms[n]);
    }
  }

  // ----- Refusals -----

  /** The mutation is about something that is not there. */
  ghost predicate NamesNothing(db: Database, m: Mutation) {
    match m
    case DeleteIndex(name) => name !in db.indexes
    case DeleteTemplate(name) => name !in db.templates
    case DeleteRegistryObject(namespace, name) =>
      Namespace(namespace) && !(namespace in db.registries && name in db.registries[namespace])
    case PutMapping(index, _) => index !in db.indexes
    case PutSettings(index, _) => index !in db.indexes
    case PutAlias(index, _, _) => index !in db.indexes
    case DeleteAlias(index, alias) => !(alias in db.aliases && db.aliases[alias].index == index)
    case UpdateDocument(index, id, _, docAsUpsert) => index !in db.indexes || !(docAsUpsert || Stored(db, index, id))
    case RenameDocument(index, oldId, _) => !Stored(db, index, oldId)
    case IndexDocument(index, _, _) => index !in db.indexes
    case CreateDocument(index, _, _) => index !in db.indexes
    case DeleteDocument(index, _) => index !in db.indexes
    case _ => false
  }

  /** The document it would make is there already. */
  ghost predicate Conflicts(db: Database, m: Mutation) {
    (m.CreateDocument? && Stored(db, m.index, m.id))
    || (m.RenameDocument? && Stored(db, m.index, m.oldId) && Stored(db, m.index, m.newId))
  }

  /** Its name is blank, taken, or not of a kind there is. */
  ghost predicate IllNamed(db: Database, m: Mutation) {
    match m
    case CreateIndex(name, _, _) => !HasText(name) || name in db.indexes
    case PutTemplate(name, patterns, _, _) => !HasText(name) || patterns == []
    case PutRegistryObject(namespace, name, _) => !Namespace(namespace) || !HasText(name)
    case DeleteRegistryObject(namespace, _) => !Namespace(namespace)
    case PutAlias(index, alias, _) =>
      index in db.indexes && (!HasText(alias) || '*' in alias || alias in db.indexes)
    case _ => false
  }

  ghost function RefusalStatus(db: Database, m: Mutation): nat {
    if NamesNothing(db, m) then 404 else if Conflicts(db, m) then 409 else if IllNamed(db, m) then 400 else 429
  }

  lemma DocumentRefusedWith(limits: StoreLimits, db: Database, m: Mutation)
    requires IsDocumentMutation(m) && ValidateDocumentMutation(limits, db, m).Err?
    requires forall n :: n in db.indexes ==> HasText(db.indexes[n].name)
    ensures ValidateDocumentMutation(limits, db, m).error.status == RefusalStatus(db, m)
  {
    hide DocumentCount, IsBlank, HasText, Namespace;
    if m.IndexDocument? && m.index in db.indexes {
      BlankHasNoText(db.indexes[m.index].name);
    }
  }

  lemma CatalogRefusedWith(limits: StoreLimits, db: Database, m: Mutation)
    requires !IsDocumentMutation(m) && ValidateCatalogMutation(limits, db, m).Err?
    ensures ValidateCatalogMutation(limits, db, m).error.status == RefusalStatus(db, m)
  {
    hide IsBlank, HasText, Namespace;
    match m {
      case CreateIndex(name, _, _) => BlankHasNoText(name);
      case PutTemplate(name, _, _, _) => BlankHasNoText(name);
      case PutRegistryObject(namespace, name, _) => BlankHasNoText(name); NamespacesAreListed(namespace);
      case DeleteRegistryObject(namespace, _) => NamespacesAreListed(namespace);
      case PutAlias(_, alias, _) => BlankHasNoText(alias);
      case _ =>
    }
  }

  lemma WelcomeIsNoFault(limits: StoreLimits, db: Database, m: Mutation)
    requires Welcome(limits, db, m)
    ensures RefusalStatus(db, m) == 429
  {
    hide HasText, Namespace, Documents;
  }

  /** What refuses a mutation of a database whose indexes all have a name: status 404 for
      what is not there, 409 for a conflict, 400 for a name, and 429 for a limit. */
  lemma RefusedWith(limits: StoreLimits, db: Database, m: Mutation)
    requires AdmitOne(limits, db, m).Err?
    requires forall n :: n in db.indexes ==> HasText(db.indexes[n].name)
    ensures AdmitOne(limits, db, m).error.status == RefusalStatus(db, m)
  {
    hide ValidateDocumentMutation, ValidateCatalogMutation, DatabaseBytes, Applied, RefusalStatus, HasText, Welcome;
    ValidExactlyWhenWelcome(limits, db, m);
    if ValidateMutation(limits, db, m).Ok? {
      WelcomeIsNoFault(limits, db, m);
    } else if IsDocumentMutation(m) {
      DocumentRefusedWith(limits, db, m);
    } else {
      CatalogRefusedWith(limits, db, m);
    }
  }
}
