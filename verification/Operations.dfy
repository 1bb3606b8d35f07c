/** What a write operation means to its caller: where it goes, when it is accepted, and
    what is stored afterwards. */
module Operations {
  import opened Prelude
  import opened Json
  import opened Catalog
  import opened CatalogInvariant
  import opened SizeCache
  import opened Writes
  import opened Effects
  import opened Admission
  import Glob

  /** The source stored under an id of an index. */
  function StoredAt(db: Database, name: string, id: string): Option<Value> {
    if HasDocument(db, name, id) then Some(db.indexes[name].documents[id].source) else None
  }

  /** One id of one index has what was asked for, and nothing else changes. */
  ghost predicate StoredAsAsked(before: Database, after: Database, index: string, key: string, wanted: Option<Value>) {
    forall name, id ::
      StoredAt(after, name, id) == if name == index && id == key then wanted else StoredAt(before, name, id)
  }

  // ----- Names and templates -----

  /** A name leads to the index it names, or else to the one its alias entry names. */
  ghost predicate LeadsTo(db: Database, name: string, index: string) {
    if name in db.indexes then index == name else name in db.aliases && db.aliases[name].index == index
  }

  ghost predicate LeadsNowhere(db: Database, name: string) {
    name !in db.indexes && name !in db.aliases
  }

  lemma ResolvesExactlyWhen(db: Database, name: string, index: string)
    ensures ResolveIndex(db, name) == Some(index) <==> LeadsTo(db, name, index)
    ensures ResolveIndex(db, name) == None <==> LeadsNowhere(db, name)
  {
  }

  /** The pattern is the name, or a front of the name, a star and an end of the name. */
  ghost predicate Covers(pattern: string, name: string) {
    if '*' !in pattern then pattern == name
    else exists front, back :: '*' !in front && StarBetween(pattern, front, back) && front <= name && EndsIn(name, back)
  }

  ghost predicate StarBetween(pattern: string, front: string, back: string) {
    pattern == front + "*" + back
  }

  ghost predicate EndsIn(name: string, back: string) {
    exists start :: name == start + back
  }

  lemma {:induction false} FirstStarSplits(pattern: string)
    ensures match FirstStar(pattern)
      case None => '*' !in pattern
      case Some(k) => k < |pattern| && pattern[k] == '*' && '*' !in pattern[..k]
  {
    if pattern != [] && pattern[0] != '*' {
      FirstStarSplits(pattern[1..]);
      var rest := FirstStar(pattern[1..]);
      if rest.Some? {
        assert pattern[..rest.value + 1] == [pattern[0]] + pattern[1..][..rest.value];
      } else {
        assert pattern == [pattern[0]] + pattern[1..];
      }
    }
  }

  lemma EndsWithEndsIn(s: string, suffix: string)
    ensures EndsWith(s, suffix) <==> EndsIn(s, suffix)
  {
    if EndsWith(s, suffix) {
      assert s == s[..|s| - |suffix|] + suffix;
    }
  }

  lemma SplitsOnce(pattern: string, k: nat, front: string, back: string)
    requires k < |pattern| && pattern[k] == '*' && '*' !in pattern[..k]
    requires '*' !in front && StarBetween(pattern, front, back)
    ensures front == pattern[..k] && back == pattern[k + 1..]
  {
    assert pattern[|front|] == '*' && pattern[..|front|] == front;
  }

  /** Template patterns mean that and no more. */
  lemma PatternMatchesExactlyWhen(pattern: string, name: string)
    ensures PatternMatches(pattern, name) <==> Covers(pattern, name)
  {
    FirstStarSplits(pattern);
    match FirstStar(pattern) {
      case None =>
      case Some(k) =>
        var front, back := pattern[..k], pattern[k + 1..];
        assert pattern[k] in pattern;
        assert StarBetween(pattern, front, back) by { assert pattern == front + [pattern[k]] + back; }
        EndsWithEndsIn(name, back);
        if pattern == "*" {
          assert front == [] && back == [] && name == name + back;
        }
        forall f, b | '*' !in f && StarBetween(pattern, f, b) ensures f == front && b == back {
          SplitsOnce(pattern, k, f, b);
        }
    }
  }

  // ----- A template pattern beside the language of patterns -----

  lemma {:induction false} PlainLanguage(pattern: string, name: string)
    requires '*' !in pattern
    ensures Glob.InLanguage(pattern, name) <==> pattern == name
  {
    if pattern != [] && name != [] && name[0] == pattern[0] {
      PlainLanguage(pattern[1..], name[1..]);
      assert pattern == [pattern[0]] + pattern[1..] && name == [name[0]] + name[1..];
    }
  }

  /** With one star a pattern stands for its front, anything, and its back, apart from each other. */
  lemma {:induction false} OneStarLanguage(front: string, back: string, name: string)
    requires '*' !in front && '*' !in back
    ensures Glob.InLanguage(front + "*" + back, name)
      <==> |front| + |back| <= |name| && front <= name && name[|name| - |back|..] == back
  {
    var pattern := front + "*" + back;
    if front == [] {
      assert pattern[1..] == back;
      forall k | 0 <= k <= |name| ensures Glob.InLanguage(back, name[k..]) <==> name[k..] == back {
        PlainLanguage(back, name[k..]);
      }
      if |back| <= |name| && name[|name| - |back|..] == back {
        assert Glob.InLanguage(pattern[1..], name[|name| - |back|..]);
      }
    } else {
      assert pattern[1..] == front[1..] + "*" + back && pattern[0] == front[0];
      if name != [] && name[0] == front[0] {
        OneStarLanguage(front[1..], back, name[1..]);
        assert |front| + |back| <= |name| ==> name[1..][|name[1..]| - |back|..] == name[|name| - |back|..];
      }
    }
  }

  /** Some end of the front is a front of the back. */
  ghost predicate Overlap(front: string, back: string) {
    exists k :: 0 < k <= |front| && k <= |back| && front[|front| - k..] == back[..k]
  }

  lemma OneStarMatches(front: string, back: string, name: string)
    requires '*' !in front
    ensures PatternMatches(front + "*" + back, name)
      <==> front <= name && |back| <= |name| && name[|name| - |back|..] == back
  {
    var pattern := front + "*" + back;
    FirstStarSplits(pattern);
    assert pattern[|front|] == '*';
    SplitsOnce(pattern, FirstStar(pattern).value, front, back);
    if pattern == "*" {
      assert front == [] && back == [];
    }
  }

  lemma ShortMatchOverlaps(front: string, back: string, name: string)
    requires |name| < |front| + |back|
    ensures front <= name && |back| <= |name| && name[|name| - |back|..] == back ==> Overlap(front, back)
  {
    if front <= name && |back| <= |name| && name[|name| - |back|..] == back {
      var k := |front| + |back| - |name|;
      assert front[|front| - k..] == name[|name| - |back|..|front|] == back[..k];
    }
  }

  /** A template pattern with one star decides the language of the pattern exactly when its
      front and its back do not overlap: `aba*aba` also takes in `aba` and `ababa`. */
  lemma TemplatePatternDecidesExactlyWhen(front: string, back: string)
    requires '*' !in front && '*' !in back
    ensures (forall name :: PatternMatches(front + "*" + back, name) <==> Glob.InLanguage(front + "*" + back, name))
      <==> !Overlap(front, back)
  {
    hide PatternMatches, Glob.InLanguage;
    var pattern := front + "*" + back;
    if Overlap(front, back) {
      var k :| 0 < k <= |front| && k <= |back| && front[|front| - k..] == back[..k];
      var name := front + back[k..];
      assert name[|name| - |back|..] == front[|front| - k..] + back[k..] == back;
      OneStarMatches(front, back, name);
      OneStarLanguage(front, back, name);
    } else {
      forall name ensures PatternMatches(pattern, name) <==> Glob.InLanguage(pattern, name) {
        OneStarMatches(front, back, name);
        OneStarLanguage(front, back, name);
        if |name| < |front| + |back| {
          ShortMatchOverlaps(front, back, name);
        }
      }
    }
  }

  // ----- The configuration of a new index -----

  ghost predicate CoversSome(t: IndexTemplate, name: string) {
    exists i :: 0 <= i < |t.indexPatterns| && Covers(t.indexPatterns[i], name)
  }

  ghost predicate IsField(v: Value, key: string, field: Value) {
    if v.Object? && key in v.fields then field == v.fields[key] else field == Object(map[])
  }

  /** The template that decides: the first by name with a pattern that covers the index's name. */
  ghost predicate Configures(db: Database, t: string, name: string) {
    t in db.templates && CoversSome(db.templates[t], name)
    && forall u :: u in db.templates && CoversSome(db.templates[u], name) ==> AtMost(t, u)
  }

  ghost predicate ConfigFor(db: Database, name: string, settings: Value, mappings: Value) {
    if exists t :: Configures(db, t, name) then
      exists t :: Configures(db, t, name)
        && IsField(db.templates[t].template, "settings", settings)
        && IsField(db.templates[t].template, "mappings", mappings)
    else settings == Object(map[]) && mappings == Object(map[])
  }

  lemma AnyMatchesExactlyWhen(t: IndexTemplate, name: string)
    ensures AnyMatches(t.indexPatterns, name) <==> CoversSome(t, name)
  {
    hide PatternMatches, Covers;
    forall i | 0 <= i < |t.indexPatterns|
      ensures PatternMatches(t.indexPatterns[i], name) <==> Covers(t.indexPatterns[i], name)
    {
      PatternMatchesExactlyWhen(t.indexPatterns[i], name);
    }
  }

  /** The first matching template of a list, or none. */
  lemma {:induction false} FirstTemplate(templates: seq<IndexTemplate>, name: string) returns (k: Option<nat>)
    ensures k.Some? ==> k.value < |templates| && CoversSome(templates[k.value], name)
    ensures k.Some? ==> IsField(templates[k.value].template, "settings", TemplateConfig(templates, name).0)
    ensures k.Some? ==> IsField(templates[k.value].template, "mappings", TemplateConfig(templates, name).1)
    ensures forall i :: 0 <= i < (if k.Some? then k.value else |templates|) ==> !CoversSome(templates[i], name)
    ensures k.None? ==> TemplateConfig(templates, name) == (Object(map[]), Object(map[]))
  {
    hide AnyMatches, CoversSome;
    if templates == [] {
      k := None;
    } else {
      AnyMatchesExactlyWhen(templates[0], name);
      if CoversSome(templates[0], name) {
        k := Some(0);
      } else {
        var rest := FirstTemplate(templates[1..], name);
        k := if rest.Some? then Some(rest.value + 1) else None;
      }
    }
  }

  /** A new index is configured by the first template, by name, that covers its name. */
  lemma TemplateDecides(db: Database, name: string)
    ensures var (settings, mappings) := TemplateConfig(TemplatesInOrder(db), name);
            ConfigFor(db, name, settings, mappings)
  {
    hide CoversSome, IsField, InOrder, TemplateConfig, AtMost;
    var templates, names := TemplatesInOrder(db), InOrder(db.templates.Keys);
    var k := FirstTemplate(templates, name);
    InOrderAscends(db.templates.Keys);
    if k.Some? {
      var t := names[k.value];
      assert t in names;
      forall u | u in db.templates && CoversSome(db.templates[u], name) ensures AtMost(t, u) {
        assert u in names;
        var j :| 0 <= j < |names| && names[j] == u;
        assert templates[j] == db.templates[u];
        AtMostTotal(t, t);
        assert k.value < j ==> Less(names[k.value], names[j]);
      }
      assert Configures(db, t, name);
    } else {
      forall t | t in db.templates ensures !CoversSome(db.templates[t], name) {
        assert t in names;
        var j :| 0 <= j < |names| && names[j] == t;
        assert templates[j] == db.templates[t];
      }
    }
  }

  lemma ConfigIsUnique(db: Database, name: string, s: Value, m: Value, s2: Value, m2: Value)
    requires ConfigFor(db, name, s, m) && ConfigFor(db, name, s2, m2)
    ensures s == s2 && m == m2
  {
    hide CoversSome, AtMost, IsField;
    if exists t :: Configures(db, t, name) {
      var t :| Configures(db, t, name) && IsField(db.templates[t].template, "settings", s)
        && IsField(db.templates[t].template, "mappings", m);
      var u :| Configures(db, u, name) && IsField(db.templates[u].template, "settings", s2)
        && IsField(db.templates[u].template, "mappings", m2);
      AtMostAntisymmetric(t, u);
      FieldIsUnique(db.templates[t].template, "settings", s, s2);
      FieldIsUnique(db.templates[t].template, "mappings", m, m2);
    }
  }

  lemma FieldIsUnique(v: Value, key: string, a: Value, b: Value)
    requires IsField(v, key, a) && IsField(v, key, b)
    ensures a == b
  {
  }

  // ----- What an operation becomes -----

  /** The document mutation an operation asks for in the index its name leads to. */
  ghost predicate AsksFor(db: Database, op: WriteOperation, index: string, m: Mutation) {
    match op
    case IndexOp(_, id, source) => m == IndexDocument(index, id, source)
    case CreateOp(_, id, source) => m == CreateDocument(index, id, source)
    case DeleteOp(_, id) => Stored(db, index, id) && m == DeleteDocument(index, id)
    case UpdateOp(_, id, doc, docAsUpsert, upsert) =>
      if Stored(db, index, id) then m == UpdateDocument(index, id, doc, docAsUpsert)
      else if upsert.Some? then m == CreateDocument(index, id, upsert.value)
      else docAsUpsert && m == CreateDocument(index, id, doc)
  }

  /** In an index that is there, one mutation, or none for a delete that finds nothing. */
  ghost predicate BecomesThere(db: Database, op: WriteOperation, index: string, ms: seq<Mutation>) {
    LeadsTo(db, op.index, index)
    && ((op.DeleteOp? && !Stored(db, index, op.id) && ms == []) || (|ms| == 1 && AsksFor(db, op, index, ms[0])))
  }

  /** In no index yet, its creation by its template and the mutation. */
  ghost predicate BecomesNew(db: Database, op: WriteOperation, ms: seq<Mutation>) {
    LeadsNowhere(db, op.index) && !op.DeleteOp? && |ms| == 2 && AsksFor(db, op, op.index, ms[1])
    && ms[0].CreateIndex? && ms[0].name == op.index && ConfigFor(db, op.index, ms[0].settings, ms[0].mappings)
  }

  ghost predicate Becomes(db: Database, op: WriteOperation, ms: seq<Mutation>) {
    (exists index :: BecomesThere(db, op, index, ms)) || BecomesNew(db, op, ms)
  }

  lemma PreparedBecomes(db: Database, op: WriteOperation)
    requires Prepare(db, op).Ok?
    ensures Becomes(db, op, Prepare(db, op).value.mutations)
  {
    hide ConfigFor, TemplateConfig, TemplatesInOrder;
    var ms := Prepare(db, op).value.mutations;
    TemplateDecides(db, op.index);
    if ResolveIndex(db, op.index).Some? {
      var index := ResolveIndex(db, op.index).value;
      ResolvesExactlyWhen(db, op.index, index);
      assert BecomesThere(db, op, index, ms);
    } else {
      ResolvesExactlyWhen(db, op.index, op.index);
      assert BecomesNew(db, op, ms);
    }
  }

  lemma BecomesIsPrepared(db: Database, op: WriteOperation, ms: seq<Mutation>)
    requires Becomes(db, op, ms)
    ensures Prepare(db, op).Ok? && Prepare(db, op).value.mutations == ms
  {
    hide ConfigFor, TemplateConfig, TemplatesInOrder;
    TemplateDecides(db, op.index);
    if index :| BecomesThere(db, op, index, ms) {
      ResolvesExactlyWhen(db, op.index, index);
      assert |ms| == 1 ==> ms == [ms[0]];
    } else {
      ResolvesExactlyWhen(db, op.index, op.index);
      var (settings, mappings) := TemplateConfig(TemplatesInOrder(db), op.index);
      ConfigIsUnique(db, op.index, settings, mappings, ms[0].settings, ms[0].mappings);
      assert ms == [ms[0], ms[1]];
    }
  }

  // ----- When an operation is accepted -----

  /** Nothing to become is a 404: of the index when the name leads nowhere, else of the document. */
  lemma UnpreparedIs404(db: Database, op: WriteOperation)
    requires Prepare(db, op).Err?
    ensures Prepare(db, op).error.status == 404
    ensures Prepare(db, op).error.errorType ==
      if LeadsNowhere(db, op.index) then "index_not_found_exception" else "document_missing_exception"
  {
    hide TemplateConfig, TemplatesInOrder, LeadsNowhere;
    if ResolveIndex(db, op.index).Some? {
      ResolvesExactlyWhen(db, op.index, ResolveIndex(db, op.index).value);
    } else {
      ResolvesExactlyWhen(db, op.index, op.index);
    }
  }

  /** Everything the operation becomes is acceptable where its turn comes. */
  ghost predicate Accepts(limits: StoreLimits, db: Database, op: WriteOperation) {
    exists ms :: Becomes(db, op, ms) && AllAcceptable(limits, db, ms)
  }

  lemma PreparedAcceptedExactlyWhen(limits: StoreLimits, db: Database, op: WriteOperation)
    ensures Accepts(limits, db, op) <==>
      Prepare(db, op).Ok? && Admit(limits, db, Prepare(db, op).value.mutations).Ok?
  {
    hide Becomes, Prepare, Admit, AllAcceptable;
    if Prepare(db, op).Ok? {
      PreparedBecomes(db, op);
      BatchAdmittedExactlyWhen(limits, db, Prepare(db, op).value.mutations);
    }
    forall ms | Becomes(db, op, ms) ensures Prepare(db, op).Ok? && Prepare(db, op).value.mutations == ms {
      BecomesIsPrepared(db, op, ms);
    }
  }

  /** In an atomic batch, an operation goes through exactly when it is accepted. */
  lemma AtomicStepExactlyWhen(limits: StoreLimits, st: Batch, op: WriteOperation)
    requires Sound(st.db)
    ensures AtomicStep(limits, st, op).Ok? <==> Accepts(limits, st.db, op)
  {
    hide Prepare, Admit, Accepts, Sound, Outcome;
    PreparedAcceptedExactlyWhen(limits, st.db, op);
    if Accepts(limits, st.db, op) {
      PreparedWriteResolves(limits, st.db, op);
    }
  }

  /** And in a bulk batch it is answered with success exactly when it is. */
  lemma BulkStepExactlyWhen(limits: StoreLimits, st: BulkState, op: WriteOperation)
    requires Sound(st.db) && Covered(st.db)
    ensures var results := BulkStep(limits, st, op).results;
            |results| == |st.results| + 1 && results[..|st.results|] == st.results
            && (results[|st.results|].Ok? <==> Accepts(limits, st.db, op))
  {
    hide Prepare, Admit, Accepts, Sound, Covered, Outcome, AdmitUntilRefused;
    PreparedAcceptedExactlyWhen(limits, st.db, op);
    AttemptEnds(limits, st.db, op);
    if Prepare(st.db, op).Ok? {
      var ms := Prepare(st.db, op).value.mutations;
      UnrefusedIsAdmitted(limits, st.db, ms);
      if Admit(limits, st.db, ms).Ok? {
        AdmittedIsApplied(limits, st.db, ms);
      }
    }
  }

  /** Whole batches: atomic ones go through exactly when every operation is accepted after
      those before it, and bulk ones answer each so. */
  lemma {:induction false} AtomicBatchExactlyWhen(limits: StoreLimits, before: Database, ops: seq<WriteOperation>)
    requires Sound(before)
    ensures RunAtomic(limits, before, ops).Ok? <==> AllAcceptedInTurn(limits, before, ops)
    ensures RunAtomic(limits, before, ops).Ok? ==> Sound(RunAtomic(limits, before, ops).value.db)
  {
    hide AtomicStep, Accepts, Sound;
    if ops != [] {
      var n := |ops| - 1;
      AtomicBatchExactlyWhen(limits, before, ops[..n]);
      forall i | 0 <= i < n
        ensures AcceptedInTurn(limits, before, ops[..n], i) <==> AcceptedInTurn(limits, before, ops, i)
      {
        assert ops[..n][..i] == ops[..i];
      }
      if RunAtomic(limits, before, ops[..n]).Ok? {
        AtomicStepExactlyWhen(limits, RunAtomic(limits, before, ops[..n]).value, ops[n]);
        assert AcceptedInTurn(limits, before, ops, n) <==> RunAtomic(limits, before, ops).Ok?;
        if RunAtomic(limits, before, ops).Ok? {
          StepStaysSound(limits, RunAtomic(limits, before, ops[..n]).value, ops[n]);
        }
      }
    }
  }

  lemma StepStaysSound(limits: StoreLimits, st: Batch, op: WriteOperation)
    requires Sound(st.db) && AtomicStep(limits, st, op).Ok?
    ensures Sound(AtomicStep(limits, st, op).value.db)
  {
    hide Prepare, Admit, Sound, Outcome, ApplyAll;
    AdmittedIsApplied(limits, st.db, Prepare(st.db, op).value.mutations);
  }

  ghost predicate AllAcceptedInTurn(limits: StoreLimits, before: Database, ops: seq<WriteOperation>) {
    forall i :: 0 <= i < |ops| ==> AcceptedInTurn(limits, before, ops, i)
  }

  ghost predicate AcceptedInTurn(limits: StoreLimits, before: Database, ops: seq<WriteOperation>, i: nat)
    requires i < |ops|
  {
    RunAtomic(limits, before, ops[..i]).Ok? && Accepts(limits, RunAtomic(limits, before, ops[..i]).value.db, ops[i])
  }

  lemma {:induction false} BulkBatchExactlyWhen(limits: StoreLimits, before: Database, ops: seq<WriteOperation>)
    requires Sound(before) && Covered(before)
    ensures AllAnsweredInTurn(limits, before, ops, RunBulk(limits, before, ops).results)
  {
    hide BulkStep, Accepts, Sound, Covered, RunBulk, NoStrays, Admit;
    BulkIsAdmitted(limits, before, ops);
    RunBulkLast(limits, before, ops);
    if ops != [] {
      var n := |ops| - 1;
      BulkBatchExactlyWhen(limits, before, ops[..n]);
      BulkIsAdmitted(limits, before, ops[..n]);
      BulkStepExactlyWhen(limits, RunBulk(limits, before, ops[..n]), ops[n]);
      var results := RunBulk(limits, before, ops).results;
      forall i | 0 <= i < n ensures AnsweredInTurn(limits, before, ops, i, results[i]) {
        assert ops[..n][..i] == ops[..i] && results[..n][i] == results[i];
        assert AnsweredInTurn(limits, before, ops[..n], i, results[i]);
      }
    }
  }

  lemma RunBulkLast(limits: StoreLimits, before: Database, ops: seq<WriteOperation>)
    ensures ops == [] ==> RunBulk(limits, before, ops).results == []
    ensures ops != [] ==>
      RunBulk(limits, before, ops) == BulkStep(limits, RunBulk(limits, before, ops[..|ops| - 1]), ops[|ops| - 1])
  {
    hide BulkStep;
  }

  ghost predicate AllAnsweredInTurn(limits: StoreLimits, before: Database, ops: seq<WriteOperation>,
                                    answers: seq<Result<WriteOutcome>>)
  {
    |answers| == |ops| && forall i :: 0 <= i < |ops| ==> AnsweredInTurn(limits, before, ops, i, answers[i])
  }

  ghost predicate AnsweredInTurn(limits: StoreLimits, before: Database, ops: seq<WriteOperation>, i: nat,
                                 answer: Result<WriteOutcome>)
    requires i < |ops|
  {
    answer.Ok? <==> Accepts(limits, RunBulk(limits, before, ops[..i]).db, ops[i])
  }

  // ----- What an accepted operation stores -----

  /** What a caller finds under the id afterwards: what was sent, and for an update what was
      there with the sent fields over it, or the upsert document. */
  ghost predicate FoundAfter(before: Option<Value>, op: WriteOperation, after: Option<Value>) {
    match op
    case IndexOp(_, _, source) => after == Some(source)
    case CreateOp(_, _, source) => before == None && after == Some(source)
    case DeleteOp(_, _) => after == None
    case UpdateOp(_, _, doc, docAsUpsert, upsert) =>
      after.Some?
      && if before.Some? then Merged(before.value, doc, after.value)
         else if upsert.Some? then after == upsert else docAsUpsert && after == Some(doc)
  }

  /** The index an operation ends in. */
  ghost predicate EndsUpIn(db: Database, op: WriteOperation, index: string) {
    if LeadsNowhere(db, op.index) then index == op.index else LeadsTo(db, op.index, index)
  }

  lemma MutationStores(limits: StoreLimits, db: Database, op: WriteOperation, index: string, m: Mutation)
    requires AsksFor(db, op, index, m) && Welcome(limits, db, m)
    ensures var after := Applied(db, m);
            FoundAfter(StoredAt(db, index, op.id), op, StoredAt(after, index, op.id))
            && StoredAsAsked(db, after, index, op.id, StoredAt(after, index, op.id))
  {
    hide Applied, Documents, RoomForDocument, DatabaseBytes;
    hide HasText, Merged;
    if m.DeleteDocument? {
      DeletingRemoves(db, m);
    } else {
      assert Stores(db, m);
      StoredWell(db, m);
    }
  }

  lemma StoredWell(db: Database, m: Mutation)
    requires (m.IndexDocument? || m.CreateDocument? || m.UpdateDocument?) && Stores(db, m)
    ensures var after := Applied(db, m);
            StoredAt(after, m.index, m.id).Some? && HoldsAsSent(db, m, StoredAt(after, m.index, m.id).value)
            && StoredAsAsked(db, after, m.index, m.id, StoredAt(after, m.index, m.id))
  {
    hide Applied, HoldsAsSent;
    StoringStores(db, m);
  }

  lemma CreationStoresNothing(db: Database, m: Mutation)
    requires m.CreateIndex? && m.name !in db.indexes
    ensures forall name, id :: StoredAt(Applied(db, m), name, id) == StoredAt(db, name, id)
    ensures forall id :: !Stored(Applied(db, m), m.name, id) && !Stored(db, m.name, id)
  {
    hide Applied;
    CreatingCreates(db, m);
  }

  /** An operation of an atomic batch that goes through does what it is for, in the index its
      name leads to, and changes nothing else that is stored. */
  lemma AcceptedOperationStores(limits: StoreLimits, st: Batch, op: WriteOperation, index: string)
    requires Sound(st.db) && AtomicStep(limits, st, op).Ok? && EndsUpIn(st.db, op, index)
    ensures var after := AtomicStep(limits, st, op).value.db;
            FoundAfter(StoredAt(st.db, index, op.id), op, StoredAt(after, index, op.id))
            && StoredAsAsked(st.db, after, index, op.id, StoredAt(after, index, op.id))
  {
    hide Prepare, Admit, Sound, Outcome, Applied, ConfigFor, Acceptable, StoredAt, StoredAsAsked, FoundAfter;
    var ms := Prepare(st.db, op).value.mutations;
    PreparedBecomes(st.db, op);
    BatchAdmittedExactlyWhen(limits, st.db, ms);
    ApplyUpToTwo(st.db, ms);
    if |ms| == 2 {
      ApplyUpToTwo(st.db, ms[..1]);
      AcceptedInNewIndex(limits, st.db, op, ms);
    } else if |ms| == 1 {
      assert ms[..0] == [] && Acceptable(limits, ApplyAll(st.db, ms[..0]), ms[0]);
      ApplyUpToTwo(st.db, []);
      AcceptedInOldIndex(limits, st.db, op, index, ms[0]);
    } else {
      NothingToDeleteStores(st.db, op, index);
    }
  }

  lemma NothingToDeleteStores(db: Database, op: WriteOperation, index: string)
    requires op.DeleteOp? && !Stored(db, index, op.id)
    ensures FoundAfter(StoredAt(db, index, op.id), op, StoredAt(db, index, op.id))
    ensures StoredAsAsked(db, db, index, op.id, StoredAt(db, index, op.id))
  {
  }

  lemma AcceptedInOldIndex(limits: StoreLimits, db: Database, op: WriteOperation, index: string, m: Mutation)
    requires AsksFor(db, op, index, m) && Acceptable(limits, db, m)
    ensures var after := Applied(db, m);
            FoundAfter(StoredAt(db, index, op.id), op, StoredAt(after, index, op.id))
            && StoredAsAsked(db, after, index, op.id, StoredAt(after, index, op.id))
  {
    hide Applied, Welcome, StoredAt, StoredAsAsked, FoundAfter, DatabaseBytes;
    MutationStores(limits, db, op, index, m);
  }

  lemma AcceptedInNewIndex(limits: StoreLimits, db: Database, op: WriteOperation, ms: seq<Mutation>)
    requires BecomesNew(db, op, ms) && AllAcceptable(limits, db, ms)
    ensures var after := Applied(Applied(db, ms[0]), ms[1]);
            FoundAfter(StoredAt(db, op.index, op.id), op, StoredAt(after, op.index, op.id))
            && StoredAsAsked(db, after, op.index, op.id, StoredAt(after, op.index, op.id))
  {
    hide Applied, Welcome, StoredAt, FoundAfter, DatabaseBytes, ConfigFor;
    assert ms[..0] == [] && Acceptable(limits, ApplyAll(db, ms[..0]), ms[0]);
    assert Acceptable(limits, ApplyAll(db, ms[..1]), ms[1]);
    ApplyUpToTwo(db, ms[..1]);
    var mid := Applied(db, ms[0]);
    CreationStoresNothing(db, ms[0]);
    MutationStores(limits, mid, op, op.index, ms[1]);
  }

  /** The answer tells what is stored: the document as it stands, or whether a delete found one. */
  lemma AcceptedOperationAnswers(limits: StoreLimits, st: Batch, op: WriteOperation, index: string)
    requires Sound(st.db) && AtomicStep(limits, st, op).Ok? && EndsUpIn(st.db, op, index)
    ensures var next := AtomicStep(limits, st, op).value;
            |next.outcomes| == |st.outcomes| + 1
            && if op.DeleteOp? then next.outcomes[|st.outcomes|] == Deleted(Stored(st.db, index, op.id))
               else Stored(next.db, index, op.id)
                    && next.outcomes[|st.outcomes|] == Document(next.db.indexes[index].documents[op.id])
  {
    hide Admit, Sound, TemplateConfig, TemplatesInOrder;
    ResolvesExactlyWhen(st.db, op.index, index);
  }

  /** In a bulk batch an accepted operation does what it does in an atomic one, and a refused
      one leaves everything stored as it was. */
  lemma BulkStepStores(limits: StoreLimits, st: BulkState, op: WriteOperation)
    requires Sound(st.db) && Covered(st.db)
    ensures var next := BulkStep(limits, st, op);
            if Accepts(limits, st.db, op) then
              AtomicStep(limits, Batch(st.db, [], []), op).Ok?
              && next.db == AtomicStep(limits, Batch(st.db, [], []), op).value.db
            else forall name, id :: StoredAt(next.db, name, id) == StoredAt(st.db, name, id)
  {
    hide Prepare, Admit, Accepts, Sound, Covered, Outcome, AdmitUntilRefused, StoredAt;
    PreparedAcceptedExactlyWhen(limits, st.db, op);
    AtomicStepExactlyWhen(limits, Batch(st.db, [], []), op);
    if Prepare(st.db, op).Ok? {
      var ms := Prepare(st.db, op).value.mutations;
      if Admit(limits, st.db, ms).Ok? {
        AdmittedIsApplied(limits, st.db, ms);
      } else {
        RefusedStoresNothing(limits, st.db, op, ms);
      }
    }
  }

  lemma RefusedStoresNothing(limits: StoreLimits, db: Database, op: WriteOperation, ms: seq<Mutation>)
    requires Prepare(db, op).Ok? && Prepare(db, op).value.mutations == ms && Admit(limits, db, ms).Err?
    ensures AdmitUntilRefused(limits, db, ms).refusal.Some?
    ensures forall name, id :: StoredAt(AdmitUntilRefused(limits, db, ms).db, name, id) == StoredAt(db, name, id)
  {
    hide Prepare, AdmitOne, StoredAt, ConfigFor, AsksFor;
    PreparedBecomes(db, op);
    if |ms| > 0 {
      AdmitOneOrTwo(limits, db, ms);
      if |ms| == 2 && AdmitOne(limits, db, ms[0]).Ok? {
        AdmittedOneIsApplied(limits, db, ms[0]);
        AdmittedExactlyWhen(limits, db, ms[0]);
        NewNameIsFree(limits, db, ms[0]);
        CreationStoresNothing(db, ms[0]);
      }
    }
  }

  lemma NewNameIsFree(limits: StoreLimits, db: Database, m: Mutation)
    requires m.CreateIndex? && Acceptable(limits, db, m)
    ensures m.name !in db.indexes
  {
    hide HasText, DatabaseBytes, Applied;
  }
}
