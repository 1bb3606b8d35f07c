/** Document writes: how an operation becomes mutations, how a batch is admitted, and
    how the three commit paths differ in what they keep of a refused operation. */
module Writes {
  import opened Prelude
  import opened Json
  import opened Catalog
  import opened CatalogInvariant
  import opened SizeCache

  datatype WriteOperation =
    | IndexOp(index: string, id: string, source: Value)
    | CreateOp(index: string, id: string, source: Value)
    | UpdateOp(index: string, id: string, doc: Value, docAsUpsert: bool, upsert: Option<Value>)
    | DeleteOp(index: string, id: string)

  datatype PreparedOutcome = DocumentAt(index: string, id: string) | DeletedIf(found: bool)

  datatype PreparedWrite = PreparedWrite(mutations: seq<Mutation>, outcome: PreparedOutcome)

  datatype WriteOutcome = Document(document: StoredDocument) | Deleted(found: bool)

  // ----- Preparing -----

  function FirstStar(pattern: string): Option<nat> {
    if pattern == [] then None
    else if pattern[0] == '*' then Some(0)
    else
      var rest := FirstStar(pattern[1..]);
      if rest.None? then None else Some(rest.value + 1)
  }

  predicate EndsWith(s: string, suffix: string) {
    |suffix| <= |s| && s[|s| - |suffix|..] == suffix
  }

  /** Template patterns: everything before the first star is a prefix, everything after it a suffix. */
  predicate PatternMatches(pattern: string, value: string) {
    match FirstStar(pattern)
    case None => pattern == value
    case Some(k) => k < |pattern| && (pattern == "*" || (pattern[..k] <= value && EndsWith(value, pattern[k + 1..])))
  }

  function FieldOrEmpty(v: Value, key: string): Value {
    match Get(v, key)
    case None => EMPTY_OBJECT
    case Some(field) => field
  }

  predicate AnyMatches(patterns: seq<string>, name: string) {
    exists i :: 0 <= i < |patterns| && PatternMatches(patterns[i], name)
  }

  /** Settings and mappings of the first template, by name, with a matching pattern. */
  function TemplateConfig(templates: seq<IndexTemplate>, name: string): (Value, Value) {
    if templates == [] then (EMPTY_OBJECT, EMPTY_OBJECT)
    else if AnyMatches(templates[0].indexPatterns, name) then
      (FieldOrEmpty(templates[0].template, "settings"), FieldOrEmpty(templates[0].template, "mappings"))
    else TemplateConfig(templates[1..], name)
  }

  function TemplatesInOrder(db: Database): seq<IndexTemplate> {
    var names := InOrder(db.templates.Keys);
    seq(|names|, i requires 0 <= i < |names| => db.templates[names[i]])
  }

  /** The concrete index for a write, and the mutation that creates it when there is none. */
  function ResolveOrCreate(db: Database, name: string): (string, seq<Mutation>) {
    match ResolveIndex(db, name)
    case Some(index) => (index, [])
    case None =>
      var (settings, mappings) := TemplateConfig(TemplatesInOrder(db), name);
      (name, [CreateIndex(name, settings, mappings)])
  }

  function Prepare(db: Database, op: WriteOperation): Result<PreparedWrite> {
    match op
    case IndexOp(name, id, source) =>
      var (index, ms) := ResolveOrCreate(db, name);
      Ok(PreparedWrite(ms + [IndexDocument(index, id, source)], DocumentAt(index, id)))
    case CreateOp(name, id, source) =>
      var (index, ms) := ResolveOrCreate(db, name);
      Ok(PreparedWrite(ms + [CreateDocument(index, id, source)], DocumentAt(index, id)))
    case UpdateOp(name, id, doc, docAsUpsert, upsert) =>
      if ResolveIndex(db, name).None? && !docAsUpsert && upsert.None? then Err(IndexMissing()) else
      var (index, ms) := ResolveOrCreate(db, name);
      if HasDocument(db, index, id) then
        Ok(PreparedWrite(ms + [UpdateDocument(index, id, doc, docAsUpsert)], DocumentAt(index, id)))
      else if !docAsUpsert && upsert.None? then Err(DocumentMissing())
      else
        var source := if upsert.Some? then upsert.value else doc;
        Ok(PreparedWrite(ms + [CreateDocument(index, id, source)], DocumentAt(index, id)))
    case DeleteOp(name, id) =>
      match ResolveIndex(db, name)
      case None => Err(IndexMissing())
      case Some(index) =>
        var found := HasDocument(db, index, id);
        Ok(PreparedWrite(if found then [DeleteDocument(index, id)] else [], DeletedIf(found)))
  }

  function Outcome(db: Database, outcome: PreparedOutcome): Result<WriteOutcome> {
    match outcome
    case DocumentAt(index, id) =>
      if HasDocument(db, index, id) then Ok(Document(db.indexes[index].documents[id]))
      else Err(StoreError(500, "document_missing_exception"))
    case DeletedIf(found) => Ok(Deleted(found))
  }

  // ----- Admitting -----

  function AdmitOne(limits: StoreLimits, db: Database, m: Mutation): Result<Database> {
    match ValidateMutation(limits, db, m)
    case Err(e) => Err(e)
    case Ok(_) =>
      var after := Applied(db, m);
      if DatabaseBytes(after) > limits.memoryLimitBytes then Err(ResourceLimit()) else Ok(after)
  }

  function AdmitNext(limits: StoreLimits, before: Result<Database>, m: Mutation): Result<Database> {
    if before.Err? then before else AdmitOne(limits, before.value, m)
  }

  /** All or nothing. */
  function Admit(limits: StoreLimits, db: Database, ms: seq<Mutation>): Result<Database> {
    if ms == [] then Ok(db) else AdmitNext(limits, Admit(limits, db, ms[..|ms| - 1]), ms[|ms| - 1])
  }

  datatype Admission = Admission(db: Database, refusal: Option<StoreError>)

  function AttemptNext(limits: StoreLimits, before: Admission, m: Mutation): Admission {
    if before.refusal.Some? then before else
    var r := AdmitOne(limits, before.db, m);
    if r.Err? then Admission(before.db, Some(r.error)) else Admission(r.value, None)
  }

  /** Up to the first refusal, keeping what went before it. */
  function AdmitUntilRefused(limits: StoreLimits, db: Database, ms: seq<Mutation>): Admission {
    if ms == [] then Admission(db, None)
    else AttemptNext(limits, AdmitUntilRefused(limits, db, ms[..|ms| - 1]), ms[|ms| - 1])
  }

  lemma {:induction false} AdmittedIsApplied(limits: StoreLimits, db: Database, ms: seq<Mutation>)
    requires Admit(limits, db, ms).Ok?
    ensures Admit(limits, db, ms).value == ApplyAll(db, ms)
    ensures AdmitUntilRefused(limits, db, ms) == Admission(ApplyAll(db, ms), None)
    ensures Admitted(limits, db, ms)
    ensures Sound(db) ==> Sound(ApplyAll(db, ms))
    ensures Sound(db) && WithinLimits(limits, db) ==> WithinLimits(limits, ApplyAll(db, ms))
  {
    hide Sound, WithinLimits, ValidateMutation, Applied, DatabaseBytes;
    if ms != [] {
      var n := |ms| - 1;
      AdmittedIsApplied(limits, db, ms[..n]);
      var before := ApplyAll(db, ms[..n]);
      if Sound(db) {
        ValidatedMutationKeepsSound(limits, before, ms[n]);
      }
      forall i | 0 <= i < |ms| ensures ValidateMutation(limits, ApplyAll(db, ms[..i]), ms[i]).Ok? {
        if i < n { assert ms[..n][..i] == ms[..i]; }
      }
    }
  }

  // ----- The atomic path -----

  datatype Batch = Batch(db: Database, mutations: seq<Mutation>, outcomes: seq<WriteOutcome>)

  function AtomicStep(limits: StoreLimits, st: Batch, op: WriteOperation): Result<Batch> {
    match Prepare(st.db, op)
    case Err(e) => Err(e)
    case Ok(prepared) =>
      match Admit(limits, st.db, prepared.mutations)
      case Err(e) => Err(e)
      case Ok(db) =>
        match Outcome(db, prepared.outcome)
        case Err(e) => Err(e)
        case Ok(outcome) => Ok(Batch(db, st.mutations + prepared.mutations, st.outcomes + [outcome]))
  }

  /** Every operation or none. */
  function RunAtomic(limits: StoreLimits, before: Database, ops: seq<WriteOperation>): Result<Batch> {
    if ops == [] then Ok(Batch(before, [], [])) else
    match RunAtomic(limits, before, ops[..|ops| - 1])
    case Err(e) => Err(e)
    case Ok(st) => AtomicStep(limits, st, ops[|ops| - 1])
  }

  lemma {:induction false} AdmitAppend(limits: StoreLimits, db: Database, ms: seq<Mutation>, ns: seq<Mutation>)
    requires Admit(limits, db, ms).Ok?
    ensures Admit(limits, db, ms + ns) == Admit(limits, Admit(limits, db, ms).value, ns)
  {
    if ns == [] {
      assert ms + ns == ms;
    } else {
      AdmitAppend(limits, db, ms, ns[..|ns| - 1]);
      assert (ms + ns)[..|ms + ns| - 1] == ms + ns[..|ns| - 1];
    }
  }

  /** The atomic path ends where replaying its mutations ends. */
  lemma {:induction false} AtomicBatchIsItsMutations(limits: StoreLimits, before: Database, ops: seq<WriteOperation>)
    requires RunAtomic(limits, before, ops).Ok?
    ensures var st := RunAtomic(limits, before, ops).value;
            Admit(limits, before, st.mutations) == Ok(st.db) && st.db == ApplyAll(before, st.mutations)
            && |st.outcomes| == |ops|
  {
    hide Prepare, AdmitOne, Outcome;
    if ops != [] {
      var n := |ops| - 1;
      AtomicBatchIsItsMutations(limits, before, ops[..n]);
      var st := RunAtomic(limits, before, ops[..n]).value;
      AdmitAppend(limits, before, st.mutations, Prepare(st.db, ops[n]).value.mutations);
    }
    AdmittedIsApplied(limits, before, RunAtomic(limits, before, ops).value.mutations);
  }

  // ----- The bulk path -----

  datatype BulkState = BulkState(db: Database, mutations: seq<Mutation>, results: seq<Result<WriteOutcome>>)

  function Attempt(limits: StoreLimits, db: Database, op: WriteOperation): Admission {
    match Prepare(db, op)
    case Err(e) => Admission(db, Some(e))
    case Ok(prepared) => AdmitUntilRefused(limits, db, prepared.mutations)
  }

  function BulkStep(limits: StoreLimits, st: BulkState, op: WriteOperation): BulkState {
    var attempt := Attempt(limits, st.db, op);
    if attempt.refusal.Some? then
      BulkState(attempt.db, st.mutations, st.results + [Err(attempt.refusal.value)])
    else
      var prepared := Prepare(st.db, op).value;
      match Outcome(attempt.db, prepared.outcome)
      case Err(e) => BulkState(attempt.db, st.mutations, st.results + [Err(e)])
      case Ok(outcome) => BulkState(attempt.db, st.mutations + prepared.mutations, st.results + [Ok(outcome)])
  }

  /** Each operation on its own: a refused one is reported and the batch goes on. */
  function RunBulk(limits: StoreLimits, before: Database, ops: seq<WriteOperation>): BulkState {
    if ops == [] then BulkState(before, [], []) else
    BulkStep(limits, RunBulk(limits, before, ops[..|ops| - 1]), ops[|ops| - 1])
  }

  /** The operation creates its index and is then refused: the index stays behind. */
  predicate LeavesStray(limits: StoreLimits, db: Database, op: WriteOperation) {
    Attempt(limits, db, op).refusal.Some? && Attempt(limits, db, op).db != db
  }

  ghost predicate NoStrays(limits: StoreLimits, before: Database, ops: seq<WriteOperation>) {
    forall i :: 0 <= i < |ops| ==> !LeavesStray(limits, RunBulk(limits, before, ops[..i]).db, ops[i])
  }

  /** A prepared write is at most an index creation followed by one mutation of a document. */
  ghost predicate Shaped(db: Database, op: WriteOperation, prepared: PreparedWrite) {
    var ms, outcome := prepared.mutations, prepared.outcome;
    if ms == [] then op.DeleteOp? && outcome == DeletedIf(false)
    else
      var m := ms[|ms| - 1];
      IsDocumentMutation(m) && !m.RenameDocument? && m.id == op.id
      && (outcome == if op.DeleteOp? then DeletedIf(true) else DocumentAt(m.index, op.id))
      && (op.DeleteOp? <==> m.DeleteDocument?)
      && (m.UpdateDocument? || m.DeleteDocument? ==> HasDocument(db, m.index, op.id))
      && if |ms| == 1 then ResolveIndex(db, op.index) == Some(m.index)
         else |ms| == 2 && ms[0].CreateIndex? && ms[0].name == op.index == m.index && ResolveIndex(db, op.index) == None
  }

  /** What a prepared write looks like: at most an index, then one document mutation. */
  lemma PreparedShape(db: Database, op: WriteOperation)
    requires Prepare(db, op).Ok?
    ensures Shaped(db, op, Prepare(db, op).value)
  {
    hide TemplateConfig, TemplatesInOrder;
  }

  // ----- Prepared writes resolve -----

  lemma StoredAfter(db: Database, m: Mutation)
    requires IsDocumentMutation(m) && !m.RenameDocument? && !m.DeleteDocument? && m.index in db.indexes
    requires m.CreateDocument? ==> !HasDocument(db, m.index, m.id)
    requires m.UpdateDocument? ==> HasDocument(db, m.index, m.id)
    ensures HasDocument(Applied(db, m), m.index, m.id)
    ensures Applied(db, m).indexes[m.index].documents[m.id].version == NextVersion(db.indexes[m.index], m.id)
  {
  }

  lemma CreatedIndexIsEmpty(db: Database, m: Mutation, id: string)
    requires m.CreateIndex? && m.name !in db.indexes
    ensures m.name in Applied(db, m).indexes && !HasDocument(Applied(db, m), m.name, id)
    ensures Applied(db, m).indexes.Keys == db.indexes.Keys + {m.name}
  {
    hide IndexBytes;
  }

  lemma DocumentMutationKeepsNames(db: Database, m: Mutation)
    requires IsDocumentMutation(m)
    ensures Applied(db, m).indexes.Keys == db.indexes.Keys
  {
    hide DocumentEffect;
  }

  lemma {:induction false} AdmitOneOrTwo(limits: StoreLimits, db: Database, ms: seq<Mutation>)
    requires 1 <= |ms| <= 2
    ensures |ms| == 1 ==> Admit(limits, db, ms) == AdmitOne(limits, db, ms[0])
    ensures |ms| == 2 ==> Admit(limits, db, ms) == AdmitNext(limits, AdmitOne(limits, db, ms[0]), ms[1])
    ensures |ms| == 1 ==> AdmitUntilRefused(limits, db, ms) == AttemptNext(limits, Admission(db, None), ms[0])
    ensures |ms| == 2 ==>
      AdmitUntilRefused(limits, db, ms) == AttemptNext(limits, AttemptNext(limits, Admission(db, None), ms[0]), ms[1])
  {
    hide AdmitOne;
    var n := |ms| - 1;
    assert ms[..n][..0] == [];
    if n == 1 {
      AdmitOneOrTwo(limits, db, ms[..1]);
      assert ms[..1][0] == ms[0];
    }
  }

  /** The database the last mutation of a prepared write meets. */
  ghost function BeforeLast(db: Database, ms: seq<Mutation>): Database {
    if |ms| == 2 then Applied(db, ms[0]) else db
  }

  lemma AdmittedOneIsApplied(limits: StoreLimits, db: Database, m: Mutation)
    requires AdmitOne(limits, db, m).Ok?
    ensures AdmitOne(limits, db, m).value == Applied(db, m) && ValidateMutation(limits, db, m).Ok?
  {
    hide ValidateMutation, Applied, DatabaseBytes;
  }

  lemma ValidatedDocumentMutation(limits: StoreLimits, db: Database, m: Mutation)
    requires IsDocumentMutation(m) && ValidateMutation(limits, db, m).Ok?
    ensures m.index in db.indexes
    ensures m.CreateDocument? ==> !HasDocument(db, m.index, m.id)
  {
    hide DocumentCount, IsBlank, ValidateCatalogMutation;
  }

  lemma LastMutationMeets(limits: StoreLimits, db: Database, op: WriteOperation, prepared: PreparedWrite)
    requires Shaped(db, op, prepared) && prepared.mutations != [] && Admit(limits, db, prepared.mutations).Ok?
    ensures
      var ms := prepared.mutations;
      var m, mid := ms[|ms| - 1], BeforeLast(db, ms);
      Admit(limits, db, ms) == Ok(Applied(mid, m)) && ValidateMutation(limits, mid, m).Ok?
      && m.index in mid.indexes && HasDocument(mid, m.index, op.id) == HasDocument(db, m.index, op.id)
      && (|ms| == 2 ==> mid.indexes.Keys == db.indexes.Keys + {m.index} && m.index !in db.indexes)
  {
    hide AdmitOne, Applied, ValidateMutation;
    var ms := prepared.mutations;
    var m := ms[|ms| - 1];
    AdmitOneOrTwo(limits, db, ms);
    AdmittedOneIsApplied(limits, db, ms[0]);
    if |ms| == 2 {
      AdmittedOneIsApplied(limits, Applied(db, ms[0]), m);
      CreatedIndexIsEmpty(db, ms[0], op.id);
    }
    ValidatedDocumentMutation(limits, BeforeLast(db, ms), m);
  }

  lemma DeletedAfter(db: Database, m: Mutation)
    requires m.DeleteDocument? && m.index in db.indexes
    ensures !HasDocument(Applied(db, m), m.index, m.id)
  {
  }

  /** What a client sees of an admitted write: never the internal "missing" error, and
      version 1 exactly when the document did not exist before. */
  lemma PreparedWriteResolves(limits: StoreLimits, db: Database, op: WriteOperation)
    requires Sound(db) && Prepare(db, op).Ok? && Admit(limits, db, Prepare(db, op).value.mutations).Ok?
    ensures
      var prepared := Prepare(db, op).value;
      var after := Admit(limits, db, prepared.mutations).value;
      Outcome(after, prepared.outcome).Ok?
      && match prepared.outcome
         case DocumentAt(index, id) =>
           var document := Outcome(after, prepared.outcome).value.document;
           document.id == id == op.id && (document.version == 1 <==> !HasDocument(db, index, id))
         case DeletedIf(found) =>
           var index := ResolveIndex(db, op.index);
           index.Some? && found == HasDocument(db, index.value, op.id) && !HasDocument(after, index.value, op.id)
  {
    hide Prepare, Admit, Applied, ValidateMutation;
    PreparedShape(db, op);
    var prepared := Prepare(db, op).value;
    var ms := prepared.mutations;
    if ms == [] {
      NothingToDelete(db, op);
      AdmitNothing(limits, db);
    } else {
      LastMutationMeets(limits, db, op, prepared);
      var m, mid := ms[|ms| - 1], BeforeLast(db, ms);
      if op.DeleteOp? {
        DeletedAfter(mid, m);
      } else {
        ValidatedDocumentMutation(limits, mid, m);
        StoredAfter(mid, m);
        SoundAfterFirst(limits, db, ms);
      }
    }
  }

  lemma AdmitNothing(limits: StoreLimits, db: Database)
    ensures Admit(limits, db, []) == Ok(db)
  {
  }

  lemma SoundAfterFirst(limits: StoreLimits, db: Database, ms: seq<Mutation>)
    requires Sound(db) && 1 <= |ms| <= 2 && Admit(limits, db, ms).Ok?
    ensures Sound(BeforeLast(db, ms)) && Sound(ApplyAll(db, ms)) && Admit(limits, db, ms).value == ApplyAll(db, ms)
  {
    hide Sound, AdmitOne, Applied, ValidateMutation;
    AdmittedIsApplied(limits, db, ms);
    AdmitOneOrTwo(limits, db, ms);
    if |ms| == 2 {
      AdmittedOneIsApplied(limits, db, ms[0]);
      ValidatedMutationKeepsSound(limits, db, ms[0]);
    }
  }

  lemma NothingToDelete(db: Database, op: WriteOperation)
    requires Prepare(db, op).Ok? && Prepare(db, op).value.mutations == []
    ensures op.DeleteOp? && ResolveIndex(db, op.index).Some?
    ensures !HasDocument(db, ResolveIndex(db, op.index).value, op.id)
  {
    hide TemplateConfig, TemplatesInOrder;
  }

  // ----- When bulk memory equals the log -----

  /** The three ways an attempt can end, and what each leaves. */
  lemma AttemptEnds(limits: StoreLimits, db: Database, op: WriteOperation)
    requires Sound(db)
    ensures
      var a := Attempt(limits, db, op);
      Sound(a.db)
      && (a.refusal.None? ==> Prepare(db, op).Ok? && a.db == ApplyAll(db, Prepare(db, op).value.mutations)
                              && Outcome(a.db, Prepare(db, op).value.outcome).Ok?)
      && (a.refusal.Some? ==>
        a.db.indexes.Keys == db.indexes.Keys + if LeavesStray(limits, db, op) then {op.index} else {})
      && (LeavesStray(limits, db, op) ==> op.index !in db.indexes)
  {
    hide Prepare, AdmitOne, Applied, Sound, Outcome, Admit, AdmitUntilRefused;
    if Prepare(db, op).Ok? {
      PreparedShape(db, op);
      var ms := Prepare(db, op).value.mutations;
      if ms == [] {
        AdmitNothing(limits, db);
        AttemptNothing(limits, db);
        PreparedWriteResolves(limits, db, op);
        AdmittedIsApplied(limits, db, ms);
      } else {
        AdmitOneOrTwo(limits, db, ms);
        var a := AdmitUntilRefused(limits, db, ms);
        if a.refusal.None? {
          PreparedWriteResolves(limits, db, op);
          AdmittedIsApplied(limits, db, ms);
        } else if AdmitOne(limits, db, ms[0]).Ok? {
          AdmittedOneIsApplied(limits, db, ms[0]);
          ValidatedMutationKeepsSound(limits, db, ms[0]);
          ResolvesToNothing(db, op.index);
          CreatedIndexIsEmpty(db, ms[0], op.id);
        }
      }
    }
  }

  lemma AttemptNothing(limits: StoreLimits, db: Database)
    ensures AdmitUntilRefused(limits, db, []) == Admission(db, None)
  {
  }

  lemma ResolvesToNothing(db: Database, name: string)
    ensures ResolveIndex(db, name) == None ==> name !in db.indexes
  {
  }

  /** Index names the batch's database has and the replay of its mutations lacks. */
  ghost function Strays(before: Database, st: BulkState): set<string> {
    st.db.indexes.Keys - ApplyAll(before, st.mutations).indexes.Keys
  }

  lemma {:induction false} ApplyUpToTwo(db: Database, ms: seq<Mutation>)
    ensures |ms| == 0 ==> ApplyAll(db, ms) == db
    ensures |ms| == 1 ==> ApplyAll(db, ms) == Applied(db, ms[0])
    ensures |ms| == 2 ==> ApplyAll(db, ms) == Applied(Applied(db, ms[0]), ms[1])
  {
    hide Applied;
    if |ms| == 1 {
      assert ms[..0] == [];
    } else if |ms| == 2 {
      ApplyUpToTwo(db, ms[..1]);
      assert ms[..1][0] == ms[0];
    }
  }

  /** A prepared write adds the same index names to any database that has no others. */
  lemma PreparedNames(small: Database, db: Database, op: WriteOperation)
    requires Prepare(db, op).Ok? && small.indexes.Keys <= db.indexes.Keys
    ensures
      var ms := Prepare(db, op).value.mutations;
      var added := if |ms| == 2 then {op.index} else {};
      ApplyAll(small, ms).indexes.Keys == small.indexes.Keys + added
      && ApplyAll(db, ms).indexes.Keys == db.indexes.Keys + added && added !! db.indexes.Keys
  {
    hide Prepare, Applied, ApplyAll;
    PreparedShape(db, op);
    var ms := Prepare(db, op).value.mutations;
    ApplyUpToTwo(small, ms);
    ApplyUpToTwo(db, ms);
    if |ms| == 1 {
      DocumentMutationKeepsNames(small, ms[0]);
      DocumentMutationKeepsNames(db, ms[0]);
    } else if |ms| == 2 {
      ResolvesToNothing(db, op.index);
      CreatedIndexIsEmpty(small, ms[0], op.id);
      CreatedIndexIsEmpty(db, ms[0], op.id);
      DocumentMutationKeepsNames(Applied(small, ms[0]), ms[1]);
      DocumentMutationKeepsNames(Applied(db, ms[0]), ms[1]);
    }
  }

  /** One bulk operation keeps memory and log together or strays by its created index. */
  lemma BulkStepKeepsOrStrays(limits: StoreLimits, before: Database, st: BulkState, op: WriteOperation)
    requires Sound(st.db) && ApplyAll(before, st.mutations).indexes.Keys <= st.db.indexes.Keys
    ensures
      var next := BulkStep(limits, st, op);
      Sound(next.db) && ApplyAll(before, next.mutations).indexes.Keys <= next.db.indexes.Keys
      && Strays(before, next) == Strays(before, st) + (if LeavesStray(limits, st.db, op) then {op.index} else {})
      && (st.db == ApplyAll(before, st.mutations) && !LeavesStray(limits, st.db, op) ==>
            next.db == ApplyAll(before, next.mutations))
  {
    hide Prepare, Sound, ApplyAll, Outcome, Attempt;
    AttemptEnds(limits, st.db, op);
    if Attempt(limits, st.db, op).refusal.None? {
      var ms := Prepare(st.db, op).value.mutations;
      PreparedNames(ApplyAll(before, st.mutations), st.db, op);
      ApplyAllAppend(before, st.mutations, ms);
    }
  }

  lemma AppliedNothing(db: Database)
    ensures ApplyAll(db, []) == db
  {
  }

  lemma {:induction false} BulkRunStrays(limits: StoreLimits, before: Database, ops: seq<WriteOperation>)
    requires Sound(before)
    ensures
      var st := RunBulk(limits, before, ops);
      Sound(st.db) && ApplyAll(before, st.mutations).indexes.Keys <= st.db.indexes.Keys
      && (NoStrays(limits, before, ops) ==> st.db == ApplyAll(before, st.mutations))
      && (!NoStrays(limits, before, ops) ==> Strays(before, st) != {})
  {
    hide Sound, BulkStep, LeavesStray, ApplyAll;
    if ops == [] {
      AppliedNothing(before);
    } else {
      var n := |ops| - 1;
      BulkRunStrays(limits, before, ops[..n]);
      var st := RunBulk(limits, before, ops[..n]);
      BulkStepKeepsOrStrays(limits, before, st, ops[n]);
      forall i | 0 <= i < n ensures ops[..n][..i] == ops[..i] && ops[..n][i] == ops[i] {}
    }
  }

  /** The database the store installs after a batch: with nothing to log it keeps the one it had. */
  function Installed(before: Database, st: BulkState): Database {
    if st.mutations == [] then before else st.db
  }

  /** After a bulk batch, memory is what replaying the logged mutations gives exactly when
      nothing was logged or no operation was refused after creating its index. */
  lemma BulkMemoryIsItsLogExactlyWhen(limits: StoreLimits, before: Database, ops: seq<WriteOperation>)
    requires Sound(before)
    ensures
      var st := RunBulk(limits, before, ops);
      Installed(before, st) == ApplyAll(before, st.mutations) <==> st.mutations == [] || NoStrays(limits, before, ops)
  {
    hide Sound, RunBulk, ApplyAll, NoStrays;
    BulkRunStrays(limits, before, ops);
    AppliedNothing(before);
  }

  // ----- What the store's loops need -----

  lemma {:induction false} AdmitErrorsStay(limits: StoreLimits, db: Database, ms: seq<Mutation>, i: nat)
    requires i <= |ms| && Admit(limits, db, ms[..i]).Err?
    ensures Admit(limits, db, ms) == Admit(limits, db, ms[..i])
  {
    hide AdmitOne;
    if i < |ms| {
      assert ms[..|ms| - 1][..i] == ms[..i];
      AdmitErrorsStay(limits, db, ms[..|ms| - 1], i);
    } else {
      assert ms[..i] == ms;
    }
  }

  lemma {:induction false} RefusalsStay(limits: StoreLimits, db: Database, ms: seq<Mutation>, i: nat)
    requires i <= |ms| && AdmitUntilRefused(limits, db, ms[..i]).refusal.Some?
    ensures AdmitUntilRefused(limits, db, ms) == AdmitUntilRefused(limits, db, ms[..i])
  {
    hide AdmitOne;
    if i < |ms| {
      assert ms[..|ms| - 1][..i] == ms[..i];
      RefusalsStay(limits, db, ms[..|ms| - 1], i);
    } else {
      assert ms[..i] == ms;
    }
  }

  lemma {:induction false} AtomicErrorsStay(limits: StoreLimits, before: Database, ops: seq<WriteOperation>, i: nat)
    requires i <= |ops| && RunAtomic(limits, before, ops[..i]).Err?
    ensures RunAtomic(limits, before, ops) == RunAtomic(limits, before, ops[..i])
  {
    hide AtomicStep;
    if i < |ops| {
      assert ops[..|ops| - 1][..i] == ops[..i];
      AtomicErrorsStay(limits, before, ops[..|ops| - 1], i);
    } else {
      assert ops[..i] == ops;
    }
  }

  lemma {:induction false} UnrefusedIsAdmitted(limits: StoreLimits, db: Database, ms: seq<Mutation>)
    requires Covered(db)
    ensures var a := AdmitUntilRefused(limits, db, ms);
            Covered(a.db) && (a.refusal.None? ==> Admit(limits, db, ms) == Ok(a.db))
  {
    hide Covered, ValidateMutation, Applied, DatabaseBytes;
    if ms != [] {
      UnrefusedIsAdmitted(limits, db, ms[..|ms| - 1]);
      MutationKeepsCovered(AdmitUntilRefused(limits, db, ms[..|ms| - 1]).db, ms[|ms| - 1]);
    }
  }

  /** A bulk batch without strays is one admitted run of mutations. */
  lemma {:induction false} BulkIsAdmitted(limits: StoreLimits, before: Database, ops: seq<WriteOperation>)
    requires Sound(before) && Covered(before)
    ensures var st := RunBulk(limits, before, ops);
            Covered(st.db) && Sound(st.db)
            && (NoStrays(limits, before, ops) ==> Admit(limits, before, st.mutations) == Ok(st.db))
  {
    hide Sound, Covered, AdmitUntilRefused, Prepare, Outcome, AdmitOne;
    if ops != [] {
      var n := |ops| - 1;
      BulkIsAdmitted(limits, before, ops[..n]);
      var st := RunBulk(limits, before, ops[..n]);
      AttemptEnds(limits, st.db, ops[n]);
      forall i | 0 <= i < n ensures ops[..n][..i] == ops[..i] && ops[..n][i] == ops[i] {}
      if Prepare(st.db, ops[n]).Ok? {
        var ms := Prepare(st.db, ops[n]).value.mutations;
        UnrefusedIsAdmitted(limits, st.db, ms);
        if Admit(limits, before, st.mutations).Ok? {
          AdmitAppend(limits, before, st.mutations, ms);
        }
      }
    }
  }

  /** Strays included, a bulk batch keeps the limits. */
  lemma {:induction false} BulkKeepsLimits(limits: StoreLimits, before: Database, ops: seq<WriteOperation>)
    requires Sound(before) && WithinLimits(limits, before)
    ensures var st := RunBulk(limits, before, ops); Sound(st.db) && WithinLimits(limits, st.db)
  {
    hide Sound, WithinLimits, AdmitUntilRefused, Prepare, Outcome;
    if ops != [] {
      var n := |ops| - 1;
      BulkKeepsLimits(limits, before, ops[..n]);
      var st := RunBulk(limits, before, ops[..n]);
      if Prepare(st.db, ops[n]).Ok? {
        AttemptKeepsLimits(limits, st.db, Prepare(st.db, ops[n]).value.mutations);
      }
    }
  }

  lemma {:induction false} AttemptKeepsLimits(limits: StoreLimits, db: Database, ms: seq<Mutation>)
    requires Sound(db) && WithinLimits(limits, db)
    ensures var attempt := AdmitUntilRefused(limits, db, ms); Sound(attempt.db) && WithinLimits(limits, attempt.db)
  {
    hide Sound, WithinLimits, ValidateMutation, Applied, DatabaseBytes;
    if ms != [] {
      var n := |ms| - 1;
      AttemptKeepsLimits(limits, db, ms[..n]);
      var before := AdmitUntilRefused(limits, db, ms[..n]);
      if before.refusal.None? && AdmitOne(limits, before.db, ms[n]).Ok? {
        AdmittedOneIsApplied(limits, before.db, ms[n]);
        ValidatedMutationKeepsSound(limits, before.db, ms[n]);
      }
    }
  }

  /** The write creates its index, for which there is room, and its document then finds the
      document limit used up or the memory too small. */
  ghost predicate CreatesAndOverflows(limits: StoreLimits, db: Database, op: WriteOperation) {
    Prepare(db, op).Ok? && |Prepare(db, op).value.mutations| == 2
    && var create, store := Prepare(db, op).value.mutations[0], Prepare(db, op).value.mutations[1];
       AdmitOne(limits, db, create).Ok? && (store.IndexDocument? || store.CreateDocument?)
       && (DocumentCount(db) >= limits.maxDocuments
           || DatabaseBytes(Applied(db, create)) + DocumentBytes(op.id, store.source) > limits.memoryLimitBytes)
  }

  /** An operation leaves its index behind exactly when it creates one and its document does not fit. */
  lemma LeavesStrayExactlyWhen(limits: StoreLimits, db: Database, op: WriteOperation)
    requires Sound(db)
    ensures LeavesStray(limits, db, op) <==> CreatesAndOverflows(limits, db, op)
  {
    hide Prepare, AdmitOne, Applied, Sound, AdmitUntilRefused, DatabaseBytes, DocumentCount, DocumentBytes;
    if Prepare(db, op).Ok? {
      PreparedShape(db, op);
      var ms := Prepare(db, op).value.mutations;
      if ms == [] {
        AttemptNothing(limits, db);
      } else {
        AdmitOneOrTwo(limits, db, ms);
        if |ms| == 2 && AdmitOne(limits, db, ms[0]).Ok? {
          SecondOfTwo(limits, db, op, ms[0], ms[1]);
        }
      }
    }
  }

  /** The document after its index: refused exactly when a limit is in the way. */
  lemma SecondOfTwo(limits: StoreLimits, db: Database, op: WriteOperation, create: Mutation, store: Mutation)
    requires AdmitOne(limits, db, create).Ok? && create.CreateIndex? && create.name !in db.indexes
    requires (store.IndexDocument? || store.CreateDocument?) && store.index == create.name && store.id == op.id
    ensures AdmitOne(limits, db, create).value == Applied(db, create) != db
    ensures AdmitOne(limits, Applied(db, create), store).Err? <==>
      DocumentCount(db) >= limits.maxDocuments
      || DatabaseBytes(Applied(db, create)) + DocumentBytes(op.id, store.source) > limits.memoryLimitBytes
  {
    hide Applied, DatabaseBytes, DocumentCount, DocumentBytes, IsBlank, IndexBytes;
    AdmittedOneIsApplied(limits, db, create);
    var mid := Applied(db, create);
    CreatedIndexIsThere(db, create);
    CreatedIndexAddsNoDocuments(db, create);
    FirstDocumentWeighs(mid, store);
    CreatedIsNotBlank(limits, db, create);
  }

  lemma CreatedIsNotBlank(limits: StoreLimits, db: Database, m: Mutation)
    requires m.CreateIndex? && ValidateMutation(limits, db, m).Ok?
    ensures !IsBlank(m.name)
  {
    hide IsBlank;
  }

  lemma CreatedIndexIsThere(db: Database, m: Mutation)
    requires m.CreateIndex? && m.name !in db.indexes
    ensures var mid := Applied(db, m);
            m.name in mid.indexes && mid != db && mid.indexes[m.name] == NewIndex(m.name, m.settings, m.mappings)
  {
    hide NewIndex;
  }

  /** The first document of an empty index adds its own bytes to the estimate. */
  lemma FirstDocumentWeighs(db: Database, m: Mutation)
    requires (m.IndexDocument? || m.CreateDocument?) && m.index in db.indexes
    requires db.indexes[m.index].documents == map[] && db.indexes[m.index].tombstones == map[]
    ensures DatabaseBytes(Applied(db, m)) == DatabaseBytes(db) + DocumentBytes(m.id, m.source)
  {
    hide MapSum, DocumentBytes;
    var after := IndexEffect(db.indexes[m.index], m, db.seqNo + 1);
    ReplacingOneIndex(db, m.index, after);
  }

  /** So a stray arises whenever an admitted index comes with a document and the document
      limit is used up. */
  lemma FullStoreStrays(limits: StoreLimits, db: Database, op: WriteOperation)
    requires Sound(db) && (op.IndexOp? || op.CreateOp?) && ResolveIndex(db, op.index) == None
    requires DocumentCount(db) >= limits.maxDocuments
    requires AdmitOne(limits, db, ResolveOrCreate(db, op.index).1[0]).Ok?
    ensures LeavesStray(limits, db, op)
  {
    hide TemplateConfig, TemplatesInOrder, AdmitOne, Sound, LeavesStray, DatabaseBytes, DocumentCount, DocumentBytes;
    LeavesStrayExactlyWhen(limits, db, op);
  }

  lemma CreatedIndexAddsNoDocuments(db: Database, m: Mutation)
    requires m.CreateIndex? && m.name !in db.indexes
    ensures DocumentCount(Applied(db, m)) == DocumentCount(db)
  {
    hide MapSum, IndexBytes;
    MapSumInsert(db.indexes, m.name, NewIndex(m.name, m.settings, m.mappings), DocumentsIn);
  }

  /** One such batch: a logged rewrite of a stored document, then a stray. Memory keeps an
      index that the log has never heard of. */
  lemma FullStoreDiverges(limits: StoreLimits, db: Database, index: string, id: string, source: Value,
                          op: WriteOperation)
    requires Sound(db) && HasDocument(db, index, id)
    requires AdmitOne(limits, db, IndexDocument(index, id, source)).Ok?
    requires LeavesStray(limits, Applied(db, IndexDocument(index, id, source)), op)
    ensures
      var st := RunBulk(limits, db, [IndexOp(index, id, source), op]);
      st.mutations == [IndexDocument(index, id, source)] && Installed(db, st) != ApplyAll(db, st.mutations)
  {
    hide TemplateConfig, TemplatesInOrder, AdmitOne, Applied, Sound;
    var first := IndexOp(index, id, source);
    var m := IndexDocument(index, id, source);
    assert [first, op][..1] == [first] && [first][..0] == [];
    AdmitOneOrTwo(limits, db, [m]);
    AdmittedOneIsApplied(limits, db, m);
    AttemptEnds(limits, db, first);
    assert [] + [m] == [m];
    assert RunBulk(limits, db, [first]).db == Applied(db, m);
    BulkMemoryIsItsLogExactlyWhen(limits, db, [first, op]);
    assert [first, op][1] == op;
  }

  /** What a stray costs later: a write to it is admitted, logged and shown, and a replay,
      which has never heard of its index, drops it. */
  lemma StrayWriteIsLost(limits: StoreLimits, memory: Database, replayed: Database, index: string, id: string,
                         source: Value)
    requires index in memory.indexes && index !in replayed.indexes
    requires AdmitOne(limits, memory, IndexDocument(index, id, source)).Ok?
    ensures
      var m := IndexDocument(index, id, source);
      HasDocument(AdmitOne(limits, memory, m).value, index, id)
      && Applied(replayed, m).indexes == replayed.indexes && !HasDocument(Applied(replayed, m), index, id)
  {
    hide ValidateMutation, DatabaseBytes, Applied;
    AdmittedOneIsApplied(limits, memory, IndexDocument(index, id, source));
    StoredAfter(memory, IndexDocument(index, id, source));
    MissingIndexStaysMissing(replayed, IndexDocument(index, id, source));
  }

  lemma MissingIndexStaysMissing(db: Database, m: Mutation)
    requires IsDocumentMutation(m) && m.index !in db.indexes
    ensures Applied(db, m).indexes == db.indexes
  {
  }

  /** After a diverging batch: the stray's index, the write, and the loss together. */
  lemma DivergedBatchLosesWrites(limits: StoreLimits, before: Database, ops: seq<WriteOperation>, index: string,
                                 id: string, source: Value)
    requires Sound(before)
    requires var st := RunBulk(limits, before, ops);
             st.mutations != [] && index in st.db.indexes && index !in ApplyAll(before, st.mutations).indexes
             && AdmitOne(limits, st.db, IndexDocument(index, id, source)).Ok?
    ensures
      var st := RunBulk(limits, before, ops);
      var m := IndexDocument(index, id, source);
      HasDocument(AdmitOne(limits, Installed(before, st), m).value, index, id)
      && !HasDocument(ApplyAll(before, st.mutations + [m]), index, id)
  {
    hide RunBulk, ApplyAll, AdmitOne, Applied, Sound;
    var st := RunBulk(limits, before, ops);
    var m := IndexDocument(index, id, source);
    StrayWriteIsLost(limits, st.db, ApplyAll(before, st.mutations), index, id, source);
    ApplyAllAppend(before, st.mutations, [m]);
    ApplyUpToTwo(ApplyAll(before, st.mutations), [m]);
  }
}
