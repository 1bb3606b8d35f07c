/** What a search answers, in the request's own terms: which documents, and in which order
    of the values they hold. */
module SortedSearch {
  import opened Prelude
  import opened Json
  import opened Catalog
  import opened CatalogInvariant
  import opened Search
  import opened Paging
  import Glob

  // ----- What a request asks for -----

  /** A field and a direction. */
  datatype Spec = Spec(field: string, desc: bool)

  /** A field name sorts upwards, the score downwards. An object names the field with its
      first key, and the direction with the `order` of what stands there: anything but a
      text there, a bare `"desc"` included, leaves it as it is for a name. */
  ghost predicate Specifies(v: Value, spec: Spec) {
    match v
    case Str(field) => spec == Spec(field, field == "_score")
    case Object(fields) => FirstKey(fields, spec.field) && spec.desc == Descends(fields[spec.field], spec.field)
    case _ => false
  }

  ghost predicate FirstKey(fields: map<string, Value>, key: string) {
    key in fields && forall k :: k in fields ==> AtMost(key, k)
  }

  ghost predicate Descends(config: Value, field: string) {
    if config.Object? && "order" in config.fields && config.fields["order"].Str? then config.fields["order"].s == "desc"
    else field == "_score"
  }

  /** The parts of a sort, in order; what specifies nothing is skipped. */
  ghost predicate AllSpecify(values: seq<Value>, specs: seq<Spec>) {
    if values == [] then specs == []
    else if specs != [] && Specifies(values[0], specs[0]) then AllSpecify(values[1..], specs[1..])
    else (forall spec :: !Specifies(values[0], spec)) && AllSpecify(values[1..], specs)
  }

  ghost predicate Sorts(sort: Option<Value>, specs: seq<Spec>) {
    match sort
    case None => specs == []
    case Some(Array(values)) => AllSpecify(values, specs)
    case Some(v) => AllSpecify([v], specs)
  }

  function ClauseOf(spec: Spec): SortClause {
    SortClause(spec.field, spec.desc)
  }

  lemma ParsedExactlyWhen(v: Value, spec: Spec)
    ensures ParseClause(v) == Some(ClauseOf(spec)) <==> Specifies(v, spec)
    ensures ParseClause(v) == None ==> !Specifies(v, spec)
  {
    if v.Object? && v.fields.Keys != {} {
      var key := Least(v.fields.Keys);
      forall k | k in v.fields ensures AtMost(key, k) { LeastIsLeast(v.fields.Keys, k); }
      if FirstKey(v.fields, spec.field) {
        AtMostAntisymmetric(key, spec.field);
      }
    }
  }

  lemma {:induction false} AllParsed(values: seq<Value>, specs: seq<Spec>)
    requires AllSpecify(values, specs)
    ensures |ParseClauses(values)| == |specs|
    ensures forall i :: 0 <= i < |specs| ==> ParseClauses(values)[i] == ClauseOf(specs[i])
  {
    hide ParseClause, Specifies;
    if values != [] {
      if specs != [] && Specifies(values[0], specs[0]) {
        AllParsed(values[1..], specs[1..]);
        ParsedExactlyWhen(values[0], specs[0]);
      } else {
        AllParsed(values[1..], specs);
        if ParseClause(values[0]).Some? {
          var clause := ParseClause(values[0]).value;
          ParsedExactlyWhen(values[0], Spec(clause.field, clause.desc));
          assert false;
        }
      }
    }
  }

  // ----- The values a hit holds -----

  /** Where the first dot stands. */
  ghost predicate DotAt(field: string, k: nat) {
    k < |field| && field[k] == '.' && '.' !in field[..k]
  }

  lemma {:induction false} DotExists(field: string)
    requires '.' in field
    ensures exists k: nat :: DotAt(field, k)
  {
    if field[0] == '.' {
      assert DotAt(field, 0);
    } else {
      DotExists(field[1..]);
      var k: nat :| DotAt(field[1..], k);
      assert field[..k + 1] == [field[0]] + field[1..][..k];
      assert DotAt(field, k + 1);
    }
  }

  lemma OneFirstDot(field: string)
    ensures forall j: nat, k: nat :: DotAt(field, j) && DotAt(field, k) ==> j == k
  {
    forall j: nat, k: nat | DotAt(field, j) && DotAt(field, k) ensures j >= k {}
  }

  /** What a field of a source reads: the key before the first dot leads to an object, the
      rest of the field is read there. */
  ghost function Read(v: Value, field: string): Option<Value>
    decreases |field|
  {
    if '.' !in field then
      if v.Object? && field in v.fields then Some(v.fields[field]) else None
    else
      DotExists(field);
      var k: nat :| DotAt(field, k);
      if v.Object? && field[..k] in v.fields then Read(v.fields[field[..k]], field[k + 1..]) else None
  }

  lemma {:induction false} SplitAtDot(field: string)
    ensures '.' !in field ==> Glob.Split(field, '.') == [field]
    ensures forall k: nat ::
              DotAt(field, k) ==> Glob.Split(field, '.') == [field[..k]] + Glob.Split(field[k + 1..], '.')
  {
    if field != [] {
      SplitAtDot(field[1..]);
      assert field == [field[0]] + field[1..];
      forall k: nat | DotAt(field, k)
        ensures Glob.Split(field, '.') == [field[..k]] + Glob.Split(field[k + 1..], '.')
      {
        if k > 0 {
          assert field[1..][..k - 1] == field[..k][1..];
          assert DotAt(field[1..], k - 1);
          assert field[1..][k..] == field[k + 1..];
          assert [field[0]] + field[1..][..k - 1] == field[..k];
        }
      }
    }
  }

  lemma {:induction false} PathReads(v: Value, field: string)
    ensures ValueAt(v, Glob.Split(field, '.')) == Read(v, field)
    decreases |field|
  {
    hide Glob.Split;
    SplitAtDot(field);
    OneFirstDot(field);
    if '.' in field {
      DotExists(field);
      var k: nat :| DotAt(field, k);
      if v.Object? && field[..k] in v.fields {
        PathReads(v.fields[field[..k]], field[k + 1..]);
      }
      assert Glob.Split(field, '.')[1..] == Glob.Split(field[k + 1..], '.');
    } else {
      assert [field][1..] == [];
    }
  }

  /** The value a hit sorts by; null where the source has nothing. */
  ghost function Held(hit: Hit, field: string): Value {
    if field == "_id" then Str(hit.document.id)
    else if field == "_score" then Number(1.0, "1.0")
    else if field == "_shard_doc" then Str(hit.index + ['\U{1f}'] + hit.document.id)
    else match Read(hit.document.source, field) case None => Null case Some(v) => v
  }

  lemma SortsByHeld(hit: Hit, clause: SortClause)
    ensures SortValue(hit, clause) == Held(hit, clause.field)
  {
    hide ValueAt, Glob.Split;
    PathReads(hit.document.source, clause.field);
  }

  // ----- In order -----

  /** Nulls first, then numbers by value, texts by the dictionary and false before true. */
  ghost predicate Ascends(a: Value, b: Value) {
    (b.Null? ==> a.Null?)
    && (a.Number? && b.Number? ==> a.value <= b.value)
    && (a.Str? && b.Str? ==> AtMost(a.s, b.s))
    && (a.Bool? && b.Bool? ==> (a.b ==> b.b))
  }

  ghost predicate InDirection(spec: Spec, a: Value, b: Value) {
    if spec.desc then Ascends(b, a) else Ascends(a, b)
  }

  lemma NotAboveAscends(a: Value, b: Value)
    ensures CompareValues(a, b) != Above ==> Ascends(a, b)
    ensures CompareValues(a, b) != Below ==> Ascends(b, a)
    ensures CompareValues(a, a) == Same
  {
    if a.Str? && b.Str? {
      AtMostTotal(a.s, b.s);
    }
  }

  /** Where two hits hold the same up to a clause, that clause orders them. */
  lemma {:induction false} ClauseOrders(clauses: seq<SortClause>, a: seq<Value>, b: seq<Value>, k: nat)
    requires |a| == |b| == |clauses| && k < |clauses| && CompareKeys(clauses, a, b) != Above
    requires forall i :: 0 <= i < k ==> a[i] == b[i]
    ensures CompareBy(clauses[k], a[k], b[k]) != Above
  {
    hide CompareValues;
    NotAboveAscends(a[0], b[0]);
    if k > 0 {
      ClauseOrders(clauses[1..], a[1..], b[1..], k - 1);
    }
  }

  ghost predicate HeldSame(a: Hit, b: Hit, specs: seq<Spec>, k: nat)
    requires k <= |specs|
  {
    forall i :: 0 <= i < k ==> Held(a, specs[i].field) == Held(b, specs[i].field)
  }

  /** The earlier hit stands before the later one for each part of the sort, as far as the
      parts before it do not tell them apart. */
  ghost predicate Ordered(a: Hit, b: Hit, specs: seq<Spec>) {
    forall k :: 0 <= k < |specs| && HeldSame(a, b, specs, k) ==>
      InDirection(specs[k], Held(a, specs[k].field), Held(b, specs[k].field))
  }

  lemma NotAboveIsOrdered(clauses: seq<SortClause>, specs: seq<Spec>, a: Hit, b: Hit)
    requires |specs| <= |clauses| && forall i :: 0 <= i < |specs| ==> clauses[i] == ClauseOf(specs[i])
    requires CompareHits(clauses, a, b) != Above
    ensures Ordered(a, b, specs)
  {
    hide SortValue, CompareKeys, CompareValues, Ascends, Held;
    forall k | 0 <= k < |specs| && HeldSame(a, b, specs, k)
      ensures InDirection(specs[k], Held(a, specs[k].field), Held(b, specs[k].field))
    {
      forall i | 0 <= i <= k ensures SortValue(a, clauses[i]) == Held(a, specs[i].field)
                                     && SortValue(b, clauses[i]) == Held(b, specs[i].field)
      {
        SortsByHeld(a, clauses[i]);
        SortsByHeld(b, clauses[i]);
      }
      ClauseOrders(clauses, SortValues(a, clauses), SortValues(b, clauses), k);
      NotAboveAscends(Held(a, specs[k].field), Held(b, specs[k].field));
    }
  }

  // ----- Which hits -----

  /** The search asks for this hit: a stored document of an index it looks in, to which the
      query says yes. */
  ghost predicate Wanted(db: Database, request: SearchRequest, query: StoredDocument -> Result<bool>,
                         fold: string -> string, hit: Hit)
  {
    Searches(db, request.indices, fold, hit.index) && HasDocument(db, hit.index, hit.document.id)
    && hit.document == db.indexes[hit.index].documents[hit.document.id] && query(hit.document) == Ok(true)
  }

  lemma IndexHitsAre(db: Database, name: string)
    requires NamesAgree(db)
    ensures forall h: Hit :: h in IndexHits(db, name) <==>
              h.index == name && HasDocument(db, name, h.document.id)
              && h.document == db.indexes[name].documents[h.document.id]
  {
    hide InOrder;
    if name in db.indexes {
      var documents := db.indexes[name].documents;
      var ids := InOrder(documents.Keys);
      forall h: Hit | h.index == name && HasDocument(db, name, h.document.id)
                      && h.document == documents[h.document.id]
        ensures h in IndexHits(db, name)
      {
        assert h.document.id in ids;
        var i :| 0 <= i < |ids| && ids[i] == h.document.id;
        assert IndexHits(db, name)[i] == h;
      }
      forall h | h in IndexHits(db, name)
        ensures h.index == name && HasDocument(db, name, h.document.id)
                && h.document == documents[h.document.id]
      {
        var i :| 0 <= i < |ids| && IndexHits(db, name)[i] == h;
        assert ids[i] in ids;
        assert documents[ids[i]].id == ids[i];
      }
    }
  }

  lemma {:induction false} CandidatesAre(db: Database, names: seq<string>)
    requires NamesAgree(db)
    ensures forall h: Hit :: h in Candidates(db, names) <==>
              h.index in names && HasDocument(db, h.index, h.document.id)
              && h.document == db.indexes[h.index].documents[h.document.id]
  {
    hide NamesAgree, IndexHits, HasDocument;
    if names != [] {
      var n := |names| - 1;
      CandidatesAre(db, names[..n]);
      IndexHitsAre(db, names[n]);
      assert forall x :: x in names <==> x in names[..n] || x == names[n];
    }
  }

  lemma {:induction false} MatchingIs(hits: seq<Hit>, query: StoredDocument -> Result<bool>)
    ensures Matching(hits, query).Ok? <==> forall h :: h in hits ==> query(h.document).Ok?
    ensures Matching(hits, query).Ok? ==>
      forall h :: h in Matching(hits, query).value <==> h in hits && query(h.document) == Ok(true)
  {
    if hits != [] {
      var n := |hits| - 1;
      MatchingIs(hits[..n], query);
      assert hits[n] in hits && forall h :: h in hits <==> h in hits[..n] || h == hits[n];
    }
  }

  /** What a search finds, before it sorts and cuts. */
  ghost function Found(db: Database, request: SearchRequest, query: StoredDocument -> Result<bool>,
                       fold: string -> string): Result<seq<Hit>>
  {
    Matching(Candidates(db, InOrder(Searched(db, request.indices, fold))), query)
  }

  /** It finds what it is asked for and nothing else. */
  lemma FindsExactlyTheWanted(db: Database, request: SearchRequest, query: StoredDocument -> Result<bool>,
                              fold: string -> string)
    requires NamesAgree(db) && Found(db, request, query, fold).Ok?
    ensures forall h :: h in Found(db, request, query, fold).value <==> Wanted(db, request, query, fold, h)
    ensures NoRepeats(Found(db, request, query, fold).value)
  {
    hide NamesAgree, Candidates, Matching, InOrder, Searches, NoRepeats;
    var names := InOrder(Searched(db, request.indices, fold));
    SearchedExactlyWhen(db, request.indices, fold);
    CandidatesAre(db, names);
    MatchingIs(Candidates(db, names), query);
    InOrderAscends(Searched(db, request.indices, fold));
    forall i, j | 0 <= i < j < |names| ensures names[i] != names[j] { assert Less(names[i], names[j]); }
    CandidatesAreDistinct(db, names);
    MatchesAreDistinct(Candidates(db, names), query);
  }

  ghost predicate InAddressOrder(hits: seq<Hit>) {
    forall i, j :: 0 <= i < j < |hits| ==>
      Precedes(hits[i].index, hits[i].document.id, hits[j].index, hits[j].document.id)
  }

  lemma IndexHitsInOrder(db: Database, name: string)
    requires NamesAgree(db)
    ensures InAddressOrder(IndexHits(db, name)) && forall h :: h in IndexHits(db, name) ==> h.index == name
  {
    hide InOrder, Less;
    if name in db.indexes {
      var documents := db.indexes[name].documents;
      var ids := InOrder(documents.Keys);
      InOrderAscends(documents.Keys);
      forall i | 0 <= i < |ids| ensures documents[assert ids[i] in ids; ids[i]].id == ids[i] {
        assert ids[i] in documents;
      }
    }
  }

  lemma JoinInOrder(hits: seq<Hit>, more: seq<Hit>)
    requires InAddressOrder(hits) && InAddressOrder(more)
    requires forall g, h :: g in hits && h in more ==> Less(g.index, h.index)
    ensures InAddressOrder(hits + more)
  {
    hide Less;
  }

  lemma {:induction false} CandidatesInOrder(db: Database, names: seq<string>)
    requires NamesAgree(db) && forall i, j :: 0 <= i < j < |names| ==> Less(names[i], names[j])
    ensures InAddressOrder(Candidates(db, names)) && forall h :: h in Candidates(db, names) ==> h.index in names
  {
    hide Less, IndexHits, NamesAgree;
    if names != [] {
      var n := |names| - 1;
      CandidatesInOrder(db, names[..n]);
      IndexHitsInOrder(db, names[n]);
      assert forall m :: m in names[..n] ==> m in names && Less(m, names[n]);
      var earlier, last := Candidates(db, names[..n]), IndexHits(db, names[n]);
      forall g, h | g in earlier && h in last ensures Less(g.index, h.index) {}
      JoinInOrder(earlier, last);
    }
  }

  lemma {:induction false} MatchingInOrder(hits: seq<Hit>, query: StoredDocument -> Result<bool>)
    requires InAddressOrder(hits) && Matching(hits, query).Ok?
    ensures InAddressOrder(Matching(hits, query).value)
    ensures forall h :: h in Matching(hits, query).value ==> h in hits
  {
    hide Precedes;
    if hits != [] {
      var n := |hits| - 1;
      MatchingInOrder(hits[..n], query);
      forall h | h in hits[..n]
        ensures h in hits && Precedes(h.index, h.document.id, hits[n].index, hits[n].document.id)
      {
        var i :| 0 <= i < n && hits[..n][i] == h;
        assert hits[i] == h;
      }
    }
  }

  /** And it finds them index by index and id by id, the order that a search without a sort
      shows and that stays between hits a sort does not tell apart. */
  lemma FindsInAddressOrder(db: Database, request: SearchRequest, query: StoredDocument -> Result<bool>,
                            fold: string -> string)
    requires NamesAgree(db) && Found(db, request, query, fold).Ok?
    ensures InAddressOrder(Found(db, request, query, fold).value)
  {
    hide Candidates, Matching, InOrder, Less, Searched, NamesAgree, InAddressOrder;
    var names := InOrder(Searched(db, request.indices, fold));
    InOrderAscends(Searched(db, request.indices, fold));
    CandidatesInOrder(db, names);
    MatchingInOrder(Candidates(db, names), query);
  }

  // ----- How many -----

  ghost function Addresses(hits: seq<Hit>): set<(string, string)> {
    set h | h in hits :: (h.index, h.document.id)
  }

  lemma {:induction false} AddressesCount(hits: seq<Hit>)
    requires NoRepeats(hits)
    ensures |Addresses(hits)| == |hits|
  {
    if hits != [] {
      var n := |hits| - 1;
      AddressesCount(hits[..n]);
      assert forall h :: h in hits <==> h in hits[..n] || h == hits[n];
      assert Addresses(hits) == Addresses(hits[..n]) + {(hits[n].index, hits[n].document.id)};
      forall h | h in hits[..n] ensures !SameAddress(h, hits[n]) {
        var i :| 0 <= i < n && hits[i] == h;
      }
    }
  }

  ghost function WantedDocuments(db: Database, request: SearchRequest, query: StoredDocument -> Result<bool>,
                                 fold: string -> string): set<(string, string)>
  {
    set n, id | n in db.indexes && id in db.indexes[n].documents
                && Searches(db, request.indices, fold, n) && query(db.indexes[n].documents[id]) == Ok(true) :: (n, id)
  }

  /** The total of a page is the number of documents asked for, whatever part is shown. */
  lemma TotalCountsTheWanted(db: Database, request: SearchRequest, query: StoredDocument -> Result<bool>,
                             fold: string -> string)
    requires NamesAgree(db) && Searching(db, request, query, fold).Ok?
    ensures Searching(db, request, query, fold).value.total == |WantedDocuments(db, request, query, fold)|
  {
    hide Candidates, Matching, InOrder, Searches, NoRepeats, SortHits, After, SortClauses, Searched;
    FindsExactlyTheWanted(db, request, query, fold);
    var found := Found(db, request, query, fold).value;
    AddressesCount(found);
    forall n, id ensures (n, id) in Addresses(found) <==> (n, id) in WantedDocuments(db, request, query, fold) {
      if (n, id) in WantedDocuments(db, request, query, fold) {
        var h := Hit(n, db.indexes[n].documents[id]);
        assert h.document.id == id;
        assert h in found;
      }
    }
    assert Addresses(found) == WantedDocuments(db, request, query, fold);
  }

  // ----- In which order -----

  /** No two of these hits hold a number and a string for the same part of the sort. */
  ghost predicate NoNumberBesideString(hits: seq<Hit>, specs: seq<Spec>) {
    forall a, b, k :: a in hits && b in hits && 0 <= k < |specs| ==>
      !(Held(a, specs[k].field).Number? && Held(b, specs[k].field).Str?)
  }

  lemma SpecifiedClauses(sort: Option<Value>, pit: bool, specs: seq<Spec>)
    requires Sorts(sort, specs)
    ensures var clauses := SortClauses(sort, pit);
            |specs| <= |clauses| <= |specs| + 1
            && (forall i :: 0 <= i < |specs| ==> clauses[i] == ClauseOf(specs[i]))
            && (|clauses| > |specs| ==> clauses[|specs|] == SortClause("_shard_doc", false))
  {
    hide ParseClauses, AllSpecify, SortsOn;
    match sort {
      case None =>
      case Some(Array(values)) => AllParsed(values, specs);
      case Some(v) => AllParsed([v], specs);
    }
  }

  lemma NoMixComparable(hits: seq<Hit>, clauses: seq<SortClause>, specs: seq<Spec>)
    requires NoNumberBesideString(hits, specs) && |specs| <= |clauses| <= |specs| + 1
    requires forall i :: 0 <= i < |specs| ==> clauses[i] == ClauseOf(specs[i])
    requires |clauses| > |specs| ==> clauses[|specs|] == SortClause("_shard_doc", false)
    ensures AllComparable(hits, clauses)
  {
    hide SortValue, Held;
    forall i, j | 0 <= i < |hits| && 0 <= j < |hits|
      ensures ComparableKeys(SortValues(hits[i], clauses), SortValues(hits[j], clauses))
    {
      var a, b := hits[i], hits[j];
      forall k | 0 <= k < |clauses| ensures Comparable(SortValue(a, clauses[k]), SortValue(b, clauses[k])) {
        SortsByHeld(a, clauses[k]);
        SortsByHeld(b, clauses[k]);
        assert a in hits && b in hits;
        AddressIsText(a);
        AddressIsText(b);
      }
    }
  }

  lemma AddressIsText(hit: Hit)
    ensures Held(hit, "_shard_doc").Str?
  {
  }

  lemma {:induction false} AfterKeepsOrder(clauses: seq<SortClause>, hits: seq<Hit>, cursor: Option<seq<Value>>)
    requires Sorted(clauses, hits)
    ensures Sorted(clauses, After(hits, clauses, cursor))
    ensures forall h :: h in After(hits, clauses, cursor) ==> h in hits
  {
    hide CompareHits, IsAfter;
    if hits != [] {
      AfterKeepsOrder(clauses, hits[1..], cursor);
      forall h | h in hits[1..] ensures CompareHits(clauses, hits[0], h) != Above {
        var j :| 0 <= j < |hits[1..]| && hits[1..][j] == h;
        assert hits[j + 1] == h;
      }
    }
  }

  /** A list of everything asked for, each once, in the order the request specifies. */
  ghost predicate ListsAllInOrder(db: Database, request: SearchRequest, query: StoredDocument -> Result<bool>,
                                  fold: string -> string, specs: seq<Spec>, all: seq<Hit>)
  {
    NoRepeats(all) && (forall h :: h in all <==> Wanted(db, request, query, fold, h))
    && forall i, j :: 0 <= i < j < |all| ==> Ordered(all[i], all[j], specs)
  }

  ghost predicate NoWantedMix(db: Database, request: SearchRequest, query: StoredDocument -> Result<bool>,
                              fold: string -> string, specs: seq<Spec>)
  {
    forall a, b, k :: Wanted(db, request, query, fold, a) && Wanted(db, request, query, fold, b) && 0 <= k < |specs| ==>
      !(Held(a, specs[k].field).Number? && Held(b, specs[k].field).Str?)
  }

  /** Without a cursor a page is the slice asked for of such a list; with one, it is cut from
      what of the list is past the cursor. */
  lemma PageIsInOrder(db: Database, request: SearchRequest, query: StoredDocument -> Result<bool>,
                      fold: string -> string, specs: seq<Spec>)
    returns (all: seq<Hit>)
    requires NamesAgree(db) && Sorts(request.sort, specs) && Searching(db, request, query, fold).Ok?
    requires NoWantedMix(db, request, query, fold, specs)
    ensures ListsAllInOrder(db, request, query, fold, specs, all)
    ensures var hits := Searching(db, request, query, fold).value.hits;
            |hits| <= request.size && (forall h :: h in hits ==> h in all)
            && (forall i, j :: 0 <= i < j < |hits| ==> Ordered(hits[i], hits[j], specs))
            && (request.searchAfter.None? ==> IsSlice(hits, all, request.from, request.size))
  {
    hide Candidates, Matching, InOrder, Wanted, NoRepeats, SortHits, After, SortClauses, Searched, NamesAgree, Sorts,
      Held, CompareHits, Ordered, AllComparable;
    FindsExactlyTheWanted(db, request, query, fold);
    var found := Found(db, request, query, fold).value;
    var clauses := SortClauses(request.sort, request.pit);
    SpecifiedClauses(request.sort, request.pit, specs);
    NoMixComparable(found, clauses, specs);
    SortHitsSorts(clauses, found);
    all := SortHits(clauses, found);
    RearrangedNoRepeats(found, all);
    var cursor := SearchAfter(request.searchAfter, clauses).value;
    AfterKeepsOrder(clauses, all, cursor);
    forall h ensures h in all <==> h in found { assert h in multiset(all) <==> h in multiset(found); }
    forall i, j | 0 <= i < j < |all| ensures Ordered(all[i], all[j], specs) {
      NotAboveIsOrdered(clauses, specs, all[i], all[j]);
    }
    var hits := Window(After(all, clauses, cursor), request.from, request.size);
    forall i, j | 0 <= i < j < |hits| ensures Ordered(hits[i], hits[j], specs) {
      NotAboveIsOrdered(clauses, specs, hits[i], hits[j]);
    }
    NoCursorKeepsAll(all, clauses);
  }

  /** Without a sort, a page is a slice of everything asked for, index by index and id by id. */
  lemma UnsortedPageIsInAddressOrder(db: Database, request: SearchRequest, query: StoredDocument -> Result<bool>,
                                     fold: string -> string) returns (all: seq<Hit>)
    requires NamesAgree(db) && Searching(db, request, query, fold).Ok?
    requires request.sort.None? && !request.pit && request.searchAfter.None?
    ensures NoRepeats(all) && InAddressOrder(all) && forall h :: h in all <==> Wanted(db, request, query, fold, h)
    ensures IsSlice(Searching(db, request, query, fold).value.hits, all, request.from, request.size)
  {
    hide Candidates, Matching, InOrder, Wanted, NoRepeats, InAddressOrder, SortHits, After, Searched, NamesAgree;
    FindsExactlyTheWanted(db, request, query, fold);
    FindsInAddressOrder(db, request, query, fold);
    all := Found(db, request, query, fold).value;
    UnsortedStays(all);
    NoCursorKeepsAll(all, []);
  }

  /** At most `size` of them, from position `from` on, as many as there are. */
  ghost predicate IsSlice(part: seq<Hit>, all: seq<Hit>, from: nat, size: nat) {
    (from >= |all| ==> part == [])
    && (from < |all| ==>
          |part| == (if |all| - from < size then |all| - from else size)
          && forall i :: 0 <= i < |part| ==> part[i] == all[from + i])
  }

  // ----- When a search is refused -----

  ghost predicate SortsOnField(specs: seq<Spec>, field: string) {
    exists i :: 0 <= i < |specs| && specs[i].field == field
  }

  /** How many values a cursor must have: one for each part of the sort, and one for the
      tiebreaker unless the sort has the address itself or, outside a point in time, is
      absent or has the id. */
  ghost function CursorLength(specs: seq<Spec>, pit: bool): nat {
    if SortsOnField(specs, "_shard_doc") then |specs|
    else if pit || (specs != [] && !SortsOnField(specs, "_id")) then |specs| + 1
    else |specs|
  }

  lemma ClausesCounted(sort: Option<Value>, pit: bool, specs: seq<Spec>)
    requires Sorts(sort, specs)
    ensures |SortClauses(sort, pit)| == CursorLength(specs, pit)
  {
    hide ParseClauses, AllSpecify;
    match sort {
      case None =>
      case Some(Array(values)) => AllParsed(values, specs);
      case Some(v) => AllParsed([v], specs);
    }
    var requested := RequestedClauses(sort);
    assert forall i :: 0 <= i < |specs| ==> requested[i].field == specs[i].field;
    assert forall f :: SortsOn(requested, f) <==> SortsOnField(specs, f);
  }

  /** A search is refused exactly when its cursor does not go with its sort, or the query
      fails on a stored document of an index it looks in. */
  lemma RefusedExactlyWhen(db: Database, request: SearchRequest, query: StoredDocument -> Result<bool>,
                           fold: string -> string, specs: seq<Spec>)
    requires NamesAgree(db) && Sorts(request.sort, specs)
    ensures Searching(db, request, query, fold).Err? <==>
      !CursorFits(request.searchAfter, CursorLength(specs, request.pit))
      || exists n, id :: FailsOn(db, request, query, fold, n, id)
    ensures !CursorFits(request.searchAfter, CursorLength(specs, request.pit)) ==>
      Searching(db, request, query, fold).error.status == 400
  {
    hide Candidates, Matching, InOrder, SortHits, After, SortClauses, Searched, Sorts, CursorLength, Searches, Window;
    ClausesCounted(request.sort, request.pit, specs);
    var names := InOrder(Searched(db, request.indices, fold));
    var hits := Candidates(db, names);
    SearchedExactlyWhen(db, request.indices, fold);
    CandidatesAre(db, names);
    MatchingIs(hits, query);
    forall n, id | FailsOn(db, request, query, fold, n, id) ensures Matching(hits, query).Err? {
      var h := Hit(n, db.indexes[n].documents[id]);
      assert h.document.id == id && h in hits;
    }
    if Matching(hits, query).Err? {
      var h :| h in hits && query(h.document).Err?;
      assert FailsOn(db, request, query, fold, h.index, h.document.id);
    }
  }

  ghost predicate CursorFits(after: Option<Value>, length: nat) {
    after.Some? ==> length > 0 && after.value.Array? && |after.value.items| == length
  }

  ghost predicate FailsOn(db: Database, request: SearchRequest, query: StoredDocument -> Result<bool>,
                          fold: string -> string, n: string, id: string)
  {
    Searches(db, request.indices, fold, n) && HasDocument(db, n, id) && query(db.indexes[n].documents[id]).Err?
  }

  // ----- The common forms -----

  /** One field and its direction, as a name, an object, or either in an array. */
  ghost predicate SortsOnOne(sort: Value, field: string, desc: bool) {
    (sort == Str(field) && desc == (field == "_score"))
    || sort == Object(map[field := Object(map["order" := Str(if desc then "desc" else "asc")])])
    || (sort == Object(map[field := Object(map[])]) && desc == (field == "_score"))
  }

  /** Sorted on one field, a page has its values in the direction asked for: upwards with
      nulls first, or downwards with nulls last. */
  lemma OneFieldSorts(db: Database, request: SearchRequest, query: StoredDocument -> Result<bool>,
                      fold: string -> string, sort: Value, field: string, desc: bool)
    requires NamesAgree(db) && Searching(db, request, query, fold).Ok?
    requires SortsOnOne(sort, field, desc) && (request.sort == Some(sort) || request.sort == Some(Array([sort])))
    requires forall a, b :: Wanted(db, request, query, fold, a) && Wanted(db, request, query, fold, b) ==>
               !(Held(a, field).Number? && Held(b, field).Str?)
    ensures var hits := Searching(db, request, query, fold).value.hits;
            forall i, j :: 0 <= i < j < |hits| ==>
              if desc then Ascends(Held(hits[j], field), Held(hits[i], field))
              else Ascends(Held(hits[i], field), Held(hits[j], field))
  {
    hide Wanted, Held, Ascends, NamesAgree, Searching;
    var spec := Spec(field, desc);
    OneSpecifies(sort, spec);
    assert Sorts(request.sort, [spec]) by { hide AllSpecify; }
    var _ := PageIsInOrder(db, request, query, fold, [spec]);
    var hits := Searching(db, request, query, fold).value.hits;
    forall i, j | 0 <= i < j < |hits|
      ensures InDirection(spec, Held(hits[i], field), Held(hits[j], field))
    {
      assert Ordered(hits[i], hits[j], [spec]) && HeldSame(hits[i], hits[j], [spec], 0);
    }
  }

  lemma OneSpecifies(sort: Value, spec: Spec)
    requires SortsOnOne(sort, spec.field, spec.desc)
    ensures AllSpecify([sort], [spec]) && !sort.Array?
  {
    AtMostTotal(spec.field, spec.field);
    assert [sort][1..] == [] && [spec][1..] == [];
    assert Specifies(sort, spec) && AllSpecify([], []);
  }
}
