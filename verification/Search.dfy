/** Search: collecting matches, sorting them, and paging through them with a cursor. */
module Search {
  import opened Prelude
  import opened Json
  import opened Catalog
  import opened CatalogInvariant
  import ByQuery
  import Glob

  datatype Hit = Hit(index: string, document: StoredDocument)

  datatype SortClause = SortClause(field: string, desc: bool)

  datatype Ordering = Below | Same | Above

  // ----- Sort clauses -----

  /** A field name, or an object whose first key is the field. */
  function ParseClause(v: Value): Option<SortClause> {
    match v
    case Str(field) => Some(SortClause(field, field == "_score"))
    case Object(fields) =>
      if fields.Keys == {} then None else
      var field := Least(fields.Keys);
      var order :=
        match Get(fields[field], "order")
        case Some(Str(s)) => s
        case _ => if field == "_score" then "desc" else "asc";
      Some(SortClause(field, order == "desc"))
    case _ => None
  }

  function ParseClauses(values: seq<Value>): seq<SortClause> {
    if values == [] then []
    else (match ParseClause(values[0]) case None => [] case Some(c) => [c]) + ParseClauses(values[1..])
  }

  predicate SortsOn(clauses: seq<SortClause>, field: string) {
    exists i :: 0 <= i < |clauses| && clauses[i].field == field
  }

  function RequestedClauses(sort: Option<Value>): seq<SortClause> {
    match sort case None => [] case Some(Array(values)) => ParseClauses(values) case Some(v) => ParseClauses([v])
  }

  /** The clauses of a request; most get the document's own address as a last resort. */
  function SortClauses(sort: Option<Value>, pit: bool): seq<SortClause> {
    var requested := RequestedClauses(sort);
    if SortsOn(requested, "_shard_doc") then requested
    else if pit || (requested != [] && !SortsOn(requested, "_id")) then requested + [SortClause("_shard_doc", false)]
    else requested
  }

  /** A request sorts on the address unless it is no point-in-time request and either
      does not sort at all or sorts on the id without the address. */
  lemma TieBreakerExactlyWhen(sort: Option<Value>, pit: bool)
    ensures var requested := RequestedClauses(sort);
            SortsOn(SortClauses(sort, pit), "_shard_doc")
            <==> (pit || (requested != [] && (SortsOn(requested, "_id") ==> SortsOn(requested, "_shard_doc"))))
    ensures RequestedClauses(sort) <= SortClauses(sort, pit)
  {
    var requested, clauses := RequestedClauses(sort), SortClauses(sort, pit);
    if clauses != requested {
      assert clauses[|requested|].field == "_shard_doc";
    }
  }

  // ----- Sort values -----

  function SortValue(hit: Hit, clause: SortClause): Value {
    if clause.field == "_id" then Str(hit.document.id)
    else if clause.field == "_score" then Number(1.0, "1.0")
    else if clause.field == "_shard_doc" then Str(hit.index + "\U{1f}" + hit.document.id)
    else
      match ValueAt(hit.document.source, Glob.Split(clause.field, '.'))
      case None => Null
      case Some(v) => v
  }

  function SortValues(hit: Hit, clauses: seq<SortClause>): seq<Value> {
    seq(|clauses|, i requires 0 <= i < |clauses| => SortValue(hit, clauses[i]))
  }

  function SortKey(v: Value): string {
    match v
    case Str(s) => s
    case Null => ""
    case _ => Text(v)
  }

  function CompareText(a: string, b: string): Ordering {
    if a == b then Same else if AtMost(a, b) then Below else Above
  }

  /** Null first, numbers by value, everything else by its text. */
  function CompareValues(a: Value, b: Value): Ordering {
    if a.Null? && b.Null? then Same
    else if a.Null? then Below
    else if b.Null? then Above
    else if a.Number? && b.Number? then
      if a.value == b.value then Same else if a.value < b.value then Below else Above
    else if a.Str? && b.Str? then CompareText(a.s, b.s)
    else if a.Bool? && b.Bool? then
      if a.b == b.b then Same else if b.b then Below else Above
    else CompareText(SortKey(a), SortKey(b))
  }

  function Reversed(o: Ordering): Ordering {
    match o case Below => Above case Same => Same case Above => Below
  }

  function CompareBy(clause: SortClause, a: Value, b: Value): Ordering {
    if clause.desc then Reversed(CompareValues(a, b)) else CompareValues(a, b)
  }

  /** Clause by clause, the first difference decides. */
  function CompareKeys(clauses: seq<SortClause>, a: seq<Value>, b: seq<Value>): Ordering
    requires |a| == |b| == |clauses|
  {
    if clauses == [] then Same
    else
      var first := CompareBy(clauses[0], a[0], b[0]);
      if first != Same then first else CompareKeys(clauses[1..], a[1..], b[1..])
  }

  function CompareHits(clauses: seq<SortClause>, a: Hit, b: Hit): Ordering {
    CompareKeys(clauses, SortValues(a, clauses), SortValues(b, clauses))
  }

  // ----- When the comparison is an order -----

  datatype Kind = OfNull | OfBool | OfNumber | OfString | OfArray | OfObject

  function KindOf(v: Value): Kind {
    match v
    case Null => OfNull
    case Bool(_) => OfBool
    case Number(_, _) => OfNumber
    case Str(_) => OfString
    case Array(_) => OfArray
    case Object(_) => OfObject
  }

  /** Anything but a number beside a string. */
  predicate Comparable(a: Value, b: Value) {
    !(a.Number? && b.Str?) && !(a.Str? && b.Number?)
  }

  /** The laws of a total preorder on three values. */
  ghost predicate InOneOrder(a: Value, b: Value, c: Value) {
    CompareValues(a, a) == Same && CompareValues(b, a) == Reversed(CompareValues(a, b))
    && (CompareValues(a, b) != Above && CompareValues(b, c) != Above ==>
          CompareValues(a, c) == if CompareValues(a, b) == Same then CompareValues(b, c) else Below)
  }

  ghost predicate OfKinds(v: Value, kinds: set<Kind>) {
    KindOf(v) in kinds
  }

  ghost predicate OrdersAll(kinds: set<Kind>) {
    forall a, b, c :: OfKinds(a, kinds) && OfKinds(b, kinds) && OfKinds(c, kinds) ==> InOneOrder(a, b, c)
  }

  /** The values of some kinds are totally preordered exactly when numbers and strings are
      not both among them. */
  lemma OrdersExactlyWhen(kinds: set<Kind>)
    ensures OrdersAll(kinds) <==> !(OfNumber in kinds && OfString in kinds)
  {
    hide InOneOrder;
    if OfNumber in kinds && OfString in kinds {
      var a, b, c := MixedTypesCycle();
      assert OfKinds(a, kinds) && OfKinds(b, kinds) && OfKinds(c, kinds);
    } else {
      forall a, b, c | OfKinds(a, kinds) && OfKinds(b, kinds) && OfKinds(c, kinds) ensures InOneOrder(a, b, c) {
        ValueOrder(a, b, c);
      }
    }
  }

  /** Numbers beside strings: 10 is below "5", "5" below 9, and 9 below 10. */
  lemma MixedTypesCycle() returns (a: Value, b: Value, c: Value)
    ensures a.Number? && b.Str? && c.Number? && !InOneOrder(a, b, c)
    ensures CompareValues(a, b) == Below && CompareValues(b, c) == Below && CompareValues(c, a) == Below
  {
    a, b, c := Number(10.0, "10"), Str("5"), Number(9.0, "9");
    assert SortKey(a) == "10" && SortKey(c) == "9" && SortKey(b) == "5";
  }

  lemma TextOrder(a: string, b: string, c: string)
    ensures CompareText(b, a) == Reversed(CompareText(a, b))
    ensures CompareText(a, b) != Above && CompareText(b, c) != Above ==> CompareText(a, c) != Above
    ensures CompareText(a, b) == Same <==> a == b
  {
    AtMostTotal(a, b);
    AtMostTotal(b, c);
    AtMostTotal(a, c);
    if AtMost(a, b) && AtMost(b, a) { AtMostAntisymmetric(a, b); }
    if AtMost(a, c) && AtMost(c, a) { AtMostAntisymmetric(a, c); }
    if AtMost(a, b) && AtMost(b, c) { AtMostTransitive(a, b, c); }
  }

  /** But for nulls and pairs of numbers the comparison is by text, booleans and strings included. */
  lemma ComparesByText(a: Value, b: Value)
    requires !a.Null? && !b.Null? && !(a.Number? && b.Number?)
    ensures CompareValues(a, b) == CompareText(SortKey(a), SortKey(b))
  {
    assert AtMost("false", "true") && !AtMost("true", "false");
  }

  /** Of the printed forms that are not quoted, those of numbers come first. */
  lemma NumbersComeFirst(a: Value, b: Value)
    requires a.Number? && (b.Bool? || b.Array? || b.Object?)
    ensures CompareValues(a, b) == Below && CompareValues(b, a) == Above
  {
    var key := SortKey(b);
    assert key[0] in {'t', 'f', '[', '{'};
    assert AtMost(a.text, key) && !AtMost(key, a.text);
  }

  /** Where no number stands beside a string, the comparison is a total preorder. */
  lemma ValueOrder(a: Value, b: Value, c: Value)
    requires Comparable(a, b) && Comparable(b, c) && Comparable(a, c)
    ensures InOneOrder(a, b, c)
  {
    if a.Null? || b.Null? || c.Null? {
      PairOrder(a, b);
      PairOrder(a, c);
      PairOrder(b, c);
    } else if a.Number? || b.Number? || c.Number? {
      hide SortKey, CompareText;
      PairOrder(a, b);
      ApartFromNumbers(a, b, c);
    } else {
      PairOrder(a, b);
      ComparesByText(a, b);
      ComparesByText(b, c);
      ComparesByText(a, c);
      TextOrder(SortKey(a), SortKey(b), SortKey(c));
      TextOrder(SortKey(b), SortKey(c), SortKey(a));
      TextOrder(SortKey(a), SortKey(c), SortKey(b));
    }
  }

  lemma PairOrder(a: Value, b: Value)
    requires Comparable(a, b)
    ensures CompareValues(a, a) == Same && CompareValues(b, a) == Reversed(CompareValues(a, b))
  {
    TextOrder(SortKey(a), SortKey(a), SortKey(a));
    TextOrder(SortKey(a), SortKey(b), SortKey(a));
    if !a.Null? && !b.Null? && !(a.Number? && b.Number?) {
      ComparesByText(a, b);
      ComparesByText(b, a);
    }
  }

  /** With a number among three values, the others are numbers or above all numbers. */
  lemma ApartFromNumbers(a: Value, b: Value, c: Value)
    requires Comparable(a, b) && Comparable(b, c) && Comparable(a, c)
    requires !a.Null? && !b.Null? && !c.Null? && (a.Number? || b.Number? || c.Number?)
    ensures CompareValues(a, b) != Above && CompareValues(b, c) != Above ==>
      CompareValues(a, c) == if CompareValues(a, b) == Same then CompareValues(b, c) else Below
  {
    hide SortKey, CompareText;
    if a.Number? && !b.Number? { NumbersComeFirst(a, b); }
    if a.Number? && !c.Number? { NumbersComeFirst(a, c); }
    if b.Number? && !a.Number? { NumbersComeFirst(b, a); }
    if b.Number? && !c.Number? { NumbersComeFirst(b, c); }
    if c.Number? && !a.Number? { NumbersComeFirst(c, a); }
    if c.Number? && !b.Number? { NumbersComeFirst(c, b); }
  }

  ghost predicate ComparableKeys(a: seq<Value>, b: seq<Value>) {
    |a| == |b| && forall i :: 0 <= i < |a| ==> Comparable(a[i], b[i])
  }

  /** And so is the comparison clause by clause, whatever the directions. */
  lemma {:induction false} KeyOrder(clauses: seq<SortClause>, a: seq<Value>, b: seq<Value>, c: seq<Value>)
    requires |clauses| == |a| && ComparableKeys(a, b) && ComparableKeys(b, c) && ComparableKeys(a, c)
    ensures CompareKeys(clauses, a, a) == Same
    ensures CompareKeys(clauses, b, a) == Reversed(CompareKeys(clauses, a, b))
    ensures CompareKeys(clauses, a, b) == Below && CompareKeys(clauses, b, c) != Above ==>
      CompareKeys(clauses, a, c) == Below
    ensures CompareKeys(clauses, a, b) == Same ==> CompareKeys(clauses, a, c) == CompareKeys(clauses, b, c)
  {
    hide CompareValues;
    if clauses != [] {
      KeyOrder(clauses[1..], a[1..], b[1..], c[1..]);
      ValueOrder(a[0], b[0], c[0]);
      ValueOrder(b[0], c[0], a[0]);
      ValueOrder(c[0], b[0], a[0]);
      ValueOrder(b[0], a[0], c[0]);
      ValueOrder(c[0], a[0], b[0]);
      ValueOrder(a[0], c[0], b[0]);
    }
  }

  ghost predicate AllComparable(hits: seq<Hit>, clauses: seq<SortClause>) {
    forall i, j :: 0 <= i < |hits| && 0 <= j < |hits| ==>
      ComparableKeys(SortValues(hits[i], clauses), SortValues(hits[j], clauses))
  }

  // ----- Sorting -----

  /** Before every hit that does not compare below it: earlier hits stay ahead of their ties. */
  function Insert(clauses: seq<SortClause>, hit: Hit, sorted: seq<Hit>): seq<Hit> {
    if sorted == [] then [hit]
    else if CompareHits(clauses, hit, sorted[0]) != Above then [hit] + sorted
    else [sorted[0]] + Insert(clauses, hit, sorted[1..])
  }

  function SortHits(clauses: seq<SortClause>, hits: seq<Hit>): seq<Hit> {
    if hits == [] then [] else Insert(clauses, hits[0], SortHits(clauses, hits[1..]))
  }

  ghost predicate Sorted(clauses: seq<SortClause>, hits: seq<Hit>) {
    forall i, j :: 0 <= i < j < |hits| ==> CompareHits(clauses, hits[i], hits[j]) != Above
  }

  /** The hits that tie with a given one, in their order. */
  function Ties(clauses: seq<SortClause>, hit: Hit, hits: seq<Hit>): seq<Hit> {
    if hits == [] then []
    else (if CompareHits(clauses, hit, hits[0]) == Same then [hits[0]] else []) + Ties(clauses, hit, hits[1..])
  }

  lemma HitOrder(clauses: seq<SortClause>, a: Hit, b: Hit, c: Hit)
    requires AllComparable([a, b, c], clauses)
    ensures CompareHits(clauses, a, a) == Same && CompareHits(clauses, b, a) == Reversed(CompareHits(clauses, a, b))
    ensures CompareHits(clauses, a, b) == Below && CompareHits(clauses, b, c) != Above ==>
      CompareHits(clauses, a, c) == Below
    ensures CompareHits(clauses, a, b) == Same ==> CompareHits(clauses, a, c) == CompareHits(clauses, b, c)
  {
    hide SortValue, CompareKeys, Comparable;
    var hits := [a, b, c];
    assert ComparableKeys(SortValues(hits[0], clauses), SortValues(hits[1], clauses));
    assert ComparableKeys(SortValues(hits[1], clauses), SortValues(hits[2], clauses));
    assert ComparableKeys(SortValues(hits[0], clauses), SortValues(hits[2], clauses));
    KeyOrder(clauses, SortValues(a, clauses), SortValues(b, clauses), SortValues(c, clauses));
  }

  lemma {:induction false} InsertKeeps(clauses: seq<SortClause>, hit: Hit, sorted: seq<Hit>)
    ensures multiset(Insert(clauses, hit, sorted)) == multiset{hit} + multiset(sorted)
  {
    hide CompareHits;
    if sorted != [] {
      InsertKeeps(clauses, hit, sorted[1..]);
      assert sorted == [sorted[0]] + sorted[1..];
    }
  }

  lemma {:induction false} InsertSorts(clauses: seq<SortClause>, hit: Hit, sorted: seq<Hit>)
    requires Sorted(clauses, sorted) && AllComparable([hit] + sorted, clauses)
    ensures Sorted(clauses, Insert(clauses, hit, sorted))
  {
    hide CompareHits, SortValues, ComparableKeys;
    var out := Insert(clauses, hit, sorted);
    if sorted == [] {
    } else if CompareHits(clauses, hit, sorted[0]) != Above {
      forall j | 0 <= j < |sorted| ensures CompareHits(clauses, hit, sorted[j]) != Above {
        AllComparablePart(clauses, [hit] + sorted, [hit, sorted[0], sorted[j]]);
        HitOrder(clauses, hit, sorted[0], sorted[j]);
      }
    } else {
      var rest := Insert(clauses, hit, sorted[1..]);
      AllComparablePart(clauses, [hit] + sorted, [hit] + sorted[1..]);
      InsertSorts(clauses, hit, sorted[1..]);
      InsertKeeps(clauses, hit, sorted[1..]);
      AllComparablePart(clauses, [hit] + sorted, [hit, sorted[0], sorted[0]]);
      HitOrder(clauses, hit, sorted[0], sorted[0]);
      forall j | 0 <= j < |rest| ensures CompareHits(clauses, sorted[0], rest[j]) != Above {
        assert rest[j] in multiset(rest);
        assert rest[j] == hit || rest[j] in sorted[1..];
      }
    }
  }

  lemma AllComparablePart(clauses: seq<SortClause>, hits: seq<Hit>, part: seq<Hit>)
    requires AllComparable(hits, clauses) && forall h :: h in part ==> h in hits
    ensures AllComparable(part, clauses)
  {
    hide SortValues, ComparableKeys;
    forall i, j | 0 <= i < |part| && 0 <= j < |part|
      ensures ComparableKeys(SortValues(part[i], clauses), SortValues(part[j], clauses))
    {
      assert part[i] in hits && part[j] in hits;
    }
  }

  /** The result is in order and holds exactly the given hits. */
  lemma {:induction false} SortHitsSorts(clauses: seq<SortClause>, hits: seq<Hit>)
    ensures multiset(SortHits(clauses, hits)) == multiset(hits)
    ensures AllComparable(hits, clauses) ==> Sorted(clauses, SortHits(clauses, hits))
  {
    hide CompareHits, ComparableKeys;
    if hits != [] {
      var rest := SortHits(clauses, hits[1..]);
      SortHitsSorts(clauses, hits[1..]);
      InsertKeeps(clauses, hits[0], rest);
      assert hits == [hits[0]] + hits[1..];
      if AllComparable(hits, clauses) {
        AllComparablePart(clauses, hits, hits[1..]);
        forall h | h in [hits[0]] + rest ensures h in hits { assert h == hits[0] || h in multiset(rest); }
        AllComparablePart(clauses, hits, [hits[0]] + rest);
        InsertSorts(clauses, hits[0], rest);
      }
    }
  }

  function IfTied(clauses: seq<SortClause>, tied: Hit, hit: Hit): seq<Hit> {
    if CompareHits(clauses, tied, hit) == Same then [hit] else []
  }

  lemma TiesStep(clauses: seq<SortClause>, tied: Hit, first: Hit, rest: seq<Hit>)
    ensures Ties(clauses, tied, [first] + rest) == IfTied(clauses, tied, first) + Ties(clauses, tied, rest)
  {
    hide CompareHits;
    assert ([first] + rest)[1..] == rest;
  }

  lemma {:induction false} InsertIsStable(clauses: seq<SortClause>, hit: Hit, sorted: seq<Hit>, tied: Hit)
    requires AllComparable([tied, hit] + sorted, clauses)
    ensures Ties(clauses, tied, Insert(clauses, hit, sorted)) == Ties(clauses, tied, [hit] + sorted)
  {
    hide CompareHits, AllComparable, Ties;
    if sorted != [] && CompareHits(clauses, hit, sorted[0]) == Above {
      var first, rest := sorted[0], sorted[1..];
      var all := [tied, hit] + sorted;
      assert sorted == [first] + rest;
      AllComparablePart(clauses, all, [tied, hit] + rest);
      InsertIsStable(clauses, hit, rest, tied);
      AllComparablePart(clauses, all, [tied, hit, first]);
      NotBothTied(clauses, tied, hit, first);
      TiesStep(clauses, tied, first, Insert(clauses, hit, rest));
      TiesStep(clauses, tied, hit, rest);
      TiesStep(clauses, tied, first, rest);
      TiesStep(clauses, tied, hit, sorted);
    } else {
      assert Insert(clauses, hit, sorted) == [hit] + sorted;
    }
  }

  lemma NotBothTied(clauses: seq<SortClause>, tied: Hit, a: Hit, b: Hit)
    requires AllComparable([tied, a, b], clauses) && CompareHits(clauses, a, b) != Same
    ensures IfTied(clauses, tied, a) == [] || IfTied(clauses, tied, b) == []
  {
    hide CompareHits, AllComparable;
    HitOrder(clauses, tied, a, b);
  }

  /** Hits that compare the same keep the order they came in. */
  lemma {:induction false} SortHitsIsStable(clauses: seq<SortClause>, hits: seq<Hit>, tied: Hit)
    requires AllComparable([tied] + hits, clauses)
    ensures Ties(clauses, tied, SortHits(clauses, hits)) == Ties(clauses, tied, hits)
  {
    hide CompareHits, SortValues, ComparableKeys;
    if hits != [] {
      var rest := SortHits(clauses, hits[1..]);
      SortHitsSorts(clauses, hits[1..]);
      AllComparablePart(clauses, [tied] + hits, [tied] + hits[1..]);
      SortHitsIsStable(clauses, hits[1..], tied);
      forall h | h in [tied, hits[0]] + rest ensures h in [tied] + hits {
        assert h == tied || h == hits[0] || h in multiset(rest);
      }
      AllComparablePart(clauses, [tied] + hits, [tied, hits[0]] + rest);
      InsertIsStable(clauses, hits[0], rest, tied);
      assert ([hits[0]] + rest)[1..] == rest;
    }
  }

  lemma {:induction false} UnsortedStays(hits: seq<Hit>)
    ensures SortHits([], hits) == hits
  {
    if hits != [] {
      UnsortedStays(hits[1..]);
      assert CompareHits([], hits[0], if |hits| > 1 then hits[1] else hits[0]) == Same;
    }
  }

  // ----- The cursor -----

  function Malformed(): StoreError {
    StoreError(400, "x_content_parse_exception")
  }

  function SearchAfter(after: Option<Value>, clauses: seq<SortClause>): Result<Option<seq<Value>>> {
    if after.None? then Ok(None)
    else if clauses == [] || !after.value.Array? || |after.value.items| != |clauses| then Err(Malformed())
    else Ok(Some(after.value.items))
  }

  /** Past the cursor in its first differing clause; equal to the cursor is not past it. */
  function IsAfter(hit: Hit, clauses: seq<SortClause>, cursor: seq<Value>): bool {
    if clauses == [] || cursor == [] then false
    else
      var first := CompareBy(clauses[0], SortValue(hit, clauses[0]), cursor[0]);
      if first == Above then true
      else if first == Below then false
      else IsAfter(hit, clauses[1..], cursor[1..])
  }

  /** The cursor test is the comparison. */
  lemma {:induction false} IsAfterMeansAbove(hit: Hit, clauses: seq<SortClause>, cursor: seq<Value>)
    requires |cursor| == |clauses|
    ensures IsAfter(hit, clauses, cursor) <==> CompareKeys(clauses, SortValues(hit, clauses), cursor) == Above
  {
    hide CompareBy, SortValue;
    if clauses != [] {
      IsAfterMeansAbove(hit, clauses[1..], cursor[1..]);
      assert SortValues(hit, clauses)[1..] == SortValues(hit, clauses[1..]);
    }
  }

  function After(hits: seq<Hit>, clauses: seq<SortClause>, cursor: Option<seq<Value>>): seq<Hit> {
    if hits == [] then []
    else
      (if cursor.None? || IsAfter(hits[0], clauses, cursor.value) then [hits[0]] else [])
      + After(hits[1..], clauses, cursor)
  }

  lemma {:induction false} NoCursorKeepsAll(hits: seq<Hit>, clauses: seq<SortClause>)
    ensures After(hits, clauses, None) == hits
  {
    if hits != [] {
      NoCursorKeepsAll(hits[1..], clauses);
    }
  }

  /** At most `size` hits from position `from` on. */
  function Window(hits: seq<Hit>, from: nat, size: nat): seq<Hit> {
    if from >= |hits| then [] else if size <= |hits| - from then hits[from..from + size] else hits[from..]
  }

  // ----- The search -----

  datatype SearchRequest = SearchRequest(
    indices: seq<string>, sort: Option<Value>, searchAfter: Option<Value>, aggregated: bool,
    from: nat, size: nat, pit: bool)

  datatype Page = Page(total: nat, hits: seq<Hit>)

  /** The evaluator's matcher folds case first; what folding does to a letter is left open. */
  function NamesFor(db: Database, requested: string, fold: string -> string): set<string> {
    if '*' in requested then set n | n in db.indexes && Glob.Greedy(fold(requested), fold(n))
    else ByQuery.ResolveIndices(db, requested)
  }

  function NamesForAll(db: Database, requested: seq<string>, fold: string -> string): set<string> {
    if requested == [] then {}
    else NamesForAll(db, requested[..|requested| - 1], fold) + NamesFor(db, requested[|requested| - 1], fold)
  }

  /** Names nobody has are simply not found: a search never fails on them. */
  function Searched(db: Database, requested: seq<string>, fold: string -> string): set<string> {
    if requested == [] || "_all" in requested || "*" in requested then db.indexes.Keys
    else NamesForAll(db, requested, fold)
  }

  /** A search looks where a by-query request would, but for its star patterns, which fold. */
  ghost predicate PartSearches(db: Database, part: string, fold: string -> string, index: string) {
    if '*' in part then index in db.indexes && Glob.Greedy(fold(part), fold(index))
    else ByQuery.NameSelects(db, part, index)
  }

  ghost predicate Searches(db: Database, requested: seq<string>, fold: string -> string, index: string) {
    if ByQuery.AsksForAll(requested) then index in db.indexes
    else SomePartSearches(db, requested, fold, index)
  }

  ghost predicate SomePartSearches(db: Database, requested: seq<string>, fold: string -> string, index: string) {
    exists i :: 0 <= i < |requested| && PartSearches(db, requested[i], fold, index)
  }

  lemma {:induction false} NamesForAllAreSearched(db: Database, requested: seq<string>, fold: string -> string)
    requires NamesAgree(db)
    ensures forall index ::
              index in NamesForAll(db, requested, fold) <==> SomePartSearches(db, requested, fold, index)
  {
    hide NamesAgree, ByQuery.ResolveIndices, Glob.Greedy, ByQuery.NameSelects;
    if requested != [] {
      var n := |requested| - 1;
      NamesForAllAreSearched(db, requested[..n], fold);
      ByQuery.ResolvedAreSelected(db, requested[n]);
      assert forall i :: 0 <= i < n ==> requested[..n][i] == requested[i];
      forall index
        ensures index in NamesForAll(db, requested, fold) <==> SomePartSearches(db, requested, fold, index)
      {
        assert PartSearches(db, requested[n], fold, index) <==> index in NamesFor(db, requested[n], fold);
        assert index in NamesForAll(db, requested[..n], fold) ==>
            exists i :: 0 <= i < n && PartSearches(db, requested[..n][i], fold, index);
      }
    }
  }

  /** Where a search looks. */
  lemma SearchedExactlyWhen(db: Database, requested: seq<string>, fold: string -> string)
    requires NamesAgree(db)
    ensures forall index :: index in Searched(db, requested, fold) <==> Searches(db, requested, fold, index)
  {
    hide NamesAgree, NamesForAll, PartSearches;
    NamesForAllAreSearched(db, requested, fold);
    assert ByQuery.AsksForAll(requested) <==> requested == [] || "_all" in requested || "*" in requested;
  }

  /** The searched names, in order and each once. */
  method ExpandIndices(db: Database, requested: seq<string>, fold: string -> string) returns (names: seq<string>)
    ensures names == InOrder(Searched(db, requested, fold))
    ensures NamesAgree(db) ==> forall index :: index in names <==> Searches(db, requested, fold, index)
  {
    hide NamesAgree, Searches, InOrder;
    if NamesAgree(db) {
      SearchedExactlyWhen(db, requested, fold);
    }
    if requested == [] || "_all" in requested || "*" in requested {
      return InOrder(db.indexes.Keys);
    }
    var found: set<string> := {};
    var i := 0;
    while i < |requested|
      invariant 0 <= i <= |requested| && found == NamesForAll(db, requested[..i], fold)
    {
      assert requested[..i + 1][..i] == requested[..i];
      found := found + NamesFor(db, requested[i], fold);
      i := i + 1;
    }
    assert requested[..|requested|] == requested;
    return InOrder(found);
  }

  /** The documents of one index as hits, in the order of their ids. */
  function IndexHits(db: Database, name: string): seq<Hit> {
    if name !in db.indexes then []
    else
      var documents := db.indexes[name].documents;
      var ids := InOrder(documents.Keys);
      seq(|ids|, i requires 0 <= i < |ids| => assert ids[i] in ids; Hit(name, documents[ids[i]]))
  }

  function Candidates(db: Database, names: seq<string>): seq<Hit> {
    if names == [] then [] else Candidates(db, names[..|names| - 1]) + IndexHits(db, names[|names| - 1])
  }

  /** The hits a query matches, or its first error. */
  function Matching(hits: seq<Hit>, query: StoredDocument -> Result<bool>): Result<seq<Hit>> {
    if hits == [] then Ok([])
    else
      var before := Matching(hits[..|hits| - 1], query);
      var last := hits[|hits| - 1];
      if before.Err? then before
      else match query(last.document)
        case Err(e) => Err(e)
        case Ok(yes) => Ok(if yes then before.value + [last] else before.value)
  }

  lemma {:induction false} FirstErrorStays(hits: seq<Hit>, more: seq<Hit>, query: StoredDocument -> Result<bool>)
    requires Matching(hits, query).Err?
    ensures Matching(hits + more, query) == Matching(hits, query)
  {
    if more == [] {
      assert hits + more == hits;
    } else {
      FirstErrorStays(hits, more[..|more| - 1], query);
      assert (hits + more)[..|hits + more| - 1] == hits + more[..|more| - 1];
    }
  }

  lemma NothingMatched(query: StoredDocument -> Result<bool>)
    ensures Matching([], query) == Ok([])
  {
  }

  lemma NoIndexNoHits(db: Database, name: string)
    requires name !in db.indexes
    ensures IndexHits(db, name) == []
  {
  }

  lemma MatchingStep(hits: seq<Hit>, hit: Hit, query: StoredDocument -> Result<bool>)
    requires Matching(hits, query).Ok?
    ensures query(hit.document).Err? ==> Matching(hits + [hit], query) == Err(query(hit.document).error)
    ensures query(hit.document) == Ok(true) ==> Matching(hits + [hit], query) == Ok(Matching(hits, query).value + [hit])
    ensures query(hit.document) == Ok(false) ==> Matching(hits + [hit], query) == Matching(hits, query)
  {
    var all := hits + [hit];
    assert all[..|all| - 1] == hits && all[|all| - 1] == hit;
  }

  /** Candidates of a prefix of the names come first. */
  lemma {:induction false} CandidatesExtend(db: Database, names: seq<string>, i: nat) returns (more: seq<Hit>)
    requires i <= |names|
    ensures Candidates(db, names) == Candidates(db, names[..i]) + more
  {
    hide IndexHits;
    if i == |names| {
      assert names[..i] == names;
      more := [];
    } else {
      var earlier := CandidatesExtend(db, names[..|names| - 1], i);
      assert names[..|names| - 1][..i] == names[..i];
      more := earlier + IndexHits(db, names[|names| - 1]);
    }
  }

  /** What a search answers, said without any shortcut: sort all matches, drop
      those up to the cursor, cut the window. */
  function Answer(matches: seq<Hit>, clauses: seq<SortClause>, cursor: Option<seq<Value>>, from: nat, size: nat): Page {
    Page(|matches|, Window(After(SortHits(clauses, matches), clauses, cursor), from, size))
  }

  function Searching(db: Database, request: SearchRequest, query: StoredDocument -> Result<bool>,
                     fold: string -> string): Result<Page> {
    var clauses := SortClauses(request.sort, request.pit);
    match SearchAfter(request.searchAfter, clauses)
    case Err(e) => Err(e)
    case Ok(cursor) =>
      match Matching(Candidates(db, InOrder(Searched(db, request.indices, fold))), query)
      case Err(e) => Err(e)
      case Ok(matches) => Ok(Answer(matches, clauses, cursor, request.from, request.size))
  }

  /** What the loop keeps: everything when it must sort, otherwise just the page asked for. */
  function Kept(matches: seq<Hit>, needsAll: bool, from: nat, size: nat): seq<Hit> {
    if needsAll then matches else Window(matches, from, size)
  }

  lemma KeptGrows(matches: seq<Hit>, hit: Hit, needsAll: bool, from: nat, size: nat)
    ensures Kept(matches + [hit], needsAll, from, size) ==
      if needsAll || (|matches| + 1 > from && |Kept(matches, needsAll, from, size)| < size)
      then Kept(matches, needsAll, from, size) + [hit] else Kept(matches, needsAll, from, size)
  {
  }

  /** Counts and collects matches index by index, then sorts and cuts the page. */
  method Search(db: Database, request: SearchRequest, query: StoredDocument -> Result<bool>, fold: string -> string)
    returns (r: Result<Page>)
    ensures r == Searching(db, request, query, fold)
  {
    hide SortHits, InOrder, SortClauses, Searched, IndexHits, Matching;
    NothingMatched(query);
    var total := 0;
    var hits: seq<Hit> := [];
    var clauses := SortClauses(request.sort, request.pit);
    var sorted := clauses != [];
    var cursor := SearchAfter(request.searchAfter, clauses);
    if cursor.Err? {
      return Err(cursor.error);
    }
    var needsAll := sorted || request.aggregated;
    var names := ExpandIndices(db, request.indices, fold);
    ghost var matches: seq<Hit> := [];
    var i := 0;
    while i < |names|
      invariant 0 <= i <= |names|
      invariant Matching(Candidates(db, names[..i]), query) == Ok(matches)
      invariant total == |matches| && hits == Kept(matches, needsAll, request.from, request.size)
    {
      assert names[..i + 1][..i] == names[..i];
      ghost var more := CandidatesExtend(db, names, i + 1);
      var found := SearchIndex(db, names[i], query, needsAll, request, Page(total, hits), Candidates(db, names[..i]),
        matches);
      if found.Err? {
        FirstErrorStays(Candidates(db, names[..i + 1]), more, query);
        return Err(found.error);
      }
      matches := Matching(Candidates(db, names[..i + 1]), query).value;
      total := found.value.total;
      hits := found.value.hits;
      i := i + 1;
    }
    assert names[..|names|] == names;
    hits := SortHits(clauses, hits);
    var offset := if needsAll then request.from else 0;
    var paged := Window(After(hits, clauses, cursor.value), offset, request.size);
    if !needsAll {
      FastPathIsExact(matches, request.from, request.size);
    }
    return Ok(Page(total, paged));
  }

  /** The inner loop: one index's documents, added to what earlier indexes gave. */
  method SearchIndex(db: Database, name: string, query: StoredDocument -> Result<bool>, needsAll: bool,
                     request: SearchRequest, soFar: Page, ghost before: seq<Hit>, ghost matched: seq<Hit>)
    returns (r: Result<Page>)
    requires Matching(before, query) == Ok(matched)
    requires soFar == Page(|matched|, Kept(matched, needsAll, request.from, request.size))
    ensures var all := Matching(before + IndexHits(db, name), query);
            r == if all.Err? then Err(all.error)
                 else Ok(Page(|all.value|, Kept(all.value, needsAll, request.from, request.size)))
  {
    hide InOrder, Kept, Matching, IndexHits, ByQuery.ResolveIndices;
    var total, hits := soFar.total, soFar.hits;
    ghost var matches := matched;
    if name !in db.indexes {
      NoIndexNoHits(db, name);
      assert before + [] == before;
      return Ok(soFar);
    }
    var candidates := IndexHits(db, name);
    var j := 0;
    assert before + candidates[..0] == before;
    while j < |candidates|
      invariant 0 <= j <= |candidates|
      invariant Matching(before + candidates[..j], query) == Ok(matches)
      invariant total == |matches| && hits == Kept(matches, needsAll, request.from, request.size)
    {
      var hit := candidates[j];
      ghost var step := before + candidates[..j + 1];
      MatchingStep(before + candidates[..j], hit, query);
      assert step == before + candidates[..j] + [hit];
      var verdict := query(hit.document);
      if verdict.Err? {
        assert before + candidates == step + candidates[j + 1..];
        FirstErrorStays(step, candidates[j + 1..], query);
        return Err(verdict.error);
      }
      if verdict.value {
        KeptGrows(matches, hit, needsAll, request.from, request.size);
        matches := matches + [hit];
        total := total + 1;
        if needsAll || (total > request.from && |hits| < request.size) {
          hits := hits + [hit];
        }
      }
      j := j + 1;
    }
    assert candidates[..|candidates|] == candidates;
    return Ok(Page(total, hits));
  }

  /** Without a sort the page collected on the way is the page cut from the whole. */
  lemma FastPathIsExact(matches: seq<Hit>, from: nat, size: nat)
    ensures Window(After(SortHits([], Window(matches, from, size)), [], None), 0, size)
         == Window(After(SortHits([], matches), [], None), from, size)
  {
    UnsortedStays(matches);
    UnsortedStays(Window(matches, from, size));
    NoCursorKeepsAll(matches, []);
    NoCursorKeepsAll(Window(matches, from, size), []);
  }
}
