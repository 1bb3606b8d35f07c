/** Paging with a cursor: asking again and again, each time after the last hit of the
    page before, delivers the sorted matches whole exactly when no tie falls on a cut. */
module Paging {
  import opened Prelude
  import opened Json
  import opened Catalog
  import opened CatalogInvariant
  import opened Search

  function Take(hits: seq<Hit>, n: nat): seq<Hit> {
    if n < |hits| then hits[..n] else hits
  }

  /** Where page `n` starts. */
  function Cut(n: nat, size: nat): nat {
    n * size
  }

  lemma CutStep(n: nat, size: nat)
    requires n > 0
    ensures Cut(n, size) == Cut(n - 1, size) + size
  {
    assert n * size == (n - 1) * size + size;
  }

  lemma CutAtZero(size: nat)
    ensures Cut(0, size) == 0
  {
  }

  lemma {:induction false} CutGrows(n: nat, size: nat)
    requires size > 0
    ensures Cut(n, size) >= n
  {
    hide Cut;
    CutAtZero(size);
    if n > 0 {
      CutGrows(n - 1, size);
      CutStep(n, size);
    }
  }

  // ----- One cursor -----

  /** The hits on either side of position `k` do not tie. */
  ghost predicate NoTieAt(sorted: seq<Hit>, clauses: seq<SortClause>, k: nat) {
    0 < k < |sorted| ==> CompareHits(clauses, sorted[k - 1], sorted[k]) != Same
  }

  lemma NoTieAtEnd(sorted: seq<Hit>, clauses: seq<SortClause>)
    ensures NoTieAt(sorted, clauses, |sorted|)
  {
  }

  lemma {:induction false} AfterJoins(a: seq<Hit>, b: seq<Hit>, clauses: seq<SortClause>, cursor: Option<seq<Value>>)
    ensures After(a + b, clauses, cursor) == After(a, clauses, cursor) + After(b, clauses, cursor)
  {
    hide IsAfter;
    if a == [] {
      assert a + b == b;
    } else {
      AfterJoins(a[1..], b, clauses, cursor);
      var first := if cursor.None? || IsAfter(a[0], clauses, cursor.value) then [a[0]] else [];
      assert (a + b)[1..] == a[1..] + b && (a + b)[0] == a[0];
      assert first + (After(a[1..], clauses, cursor) + After(b, clauses, cursor))
        == (first + After(a[1..], clauses, cursor)) + After(b, clauses, cursor);
    }
  }

  lemma {:induction false} AfterAllOrNone(hits: seq<Hit>, clauses: seq<SortClause>, cursor: seq<Value>, all: bool)
    requires forall i :: 0 <= i < |hits| ==> IsAfter(hits[i], clauses, cursor) == all
    ensures After(hits, clauses, Some(cursor)) == if all then hits else []
  {
    hide IsAfter;
    if hits != [] {
      AfterAllOrNone(hits[1..], clauses, cursor, all);
    }
  }

  lemma {:induction false} AfterIsShorter(hits: seq<Hit>, clauses: seq<SortClause>, cursor: Option<seq<Value>>)
    ensures |After(hits, clauses, cursor)| <= |hits|
  {
    hide IsAfter;
    if hits != [] {
      AfterIsShorter(hits[1..], clauses, cursor);
    }
  }

  ghost predicate InOrderAndComparable(sorted: seq<Hit>, clauses: seq<SortClause>) {
    Sorted(clauses, sorted) && AllComparable(sorted, clauses)
  }

  function CursorAt(sorted: seq<Hit>, clauses: seq<SortClause>, k: nat): Option<seq<Value>>
    requires k < |sorted|
  {
    Some(SortValues(sorted[k], clauses))
  }

  /** A hit is past the cursor of another exactly when that one compares below it. */
  lemma PastMeansBelow(sorted: seq<Hit>, clauses: seq<SortClause>, k: nat, j: nat)
    requires k < |sorted| && j < |sorted| && InOrderAndComparable(sorted, clauses)
    ensures IsAfter(sorted[j], clauses, SortValues(sorted[k], clauses))
      <==> CompareHits(clauses, sorted[k], sorted[j]) == Below
    ensures j <= k ==> !IsAfter(sorted[j], clauses, SortValues(sorted[k], clauses))
  {
    hide CompareKeys, SortValue, ComparableKeys;
    IsAfterMeansAbove(sorted[j], clauses, SortValues(sorted[k], clauses));
    AllComparablePart(clauses, sorted, [sorted[k], sorted[j], sorted[k]]);
    HitOrder(clauses, sorted[k], sorted[j], sorted[k]);
  }

  lemma PastAfterCut(sorted: seq<Hit>, clauses: seq<SortClause>, k: nat, j: nat)
    requires k < j < |sorted| && InOrderAndComparable(sorted, clauses) && NoTieAt(sorted, clauses, k + 1)
    ensures IsAfter(sorted[j], clauses, SortValues(sorted[k], clauses))
  {
    hide CompareHits, SortValues, ComparableKeys;
    PastMeansBelow(sorted, clauses, k, j);
    AllComparablePart(clauses, sorted, [sorted[k], sorted[k + 1], sorted[j]]);
    HitOrder(clauses, sorted[k], sorted[k + 1], sorted[j]);
    if j == k + 1 {
      assert CompareHits(clauses, sorted[k], sorted[k + 1]) != Above;
    }
  }

  /** The cursor of a hit continues right behind it exactly when the next hit does not tie with it. */
  lemma CursorResumesExactlyWhen(sorted: seq<Hit>, clauses: seq<SortClause>, k: nat)
    requires k < |sorted| && InOrderAndComparable(sorted, clauses)
    ensures After(sorted, clauses, CursorAt(sorted, clauses, k)) == sorted[k + 1..] <==> NoTieAt(sorted, clauses, k + 1)
  {
    hide CompareHits, SortValues, After, IsAfter, InOrderAndComparable;
    var cursor := SortValues(sorted[k], clauses);
    var upTo, rest := sorted[..k + 1], sorted[k + 1..];
    forall j | 0 <= j < |upTo| ensures !IsAfter(upTo[j], clauses, cursor) {
      PastMeansBelow(sorted, clauses, k, j);
    }
    AfterAllOrNone(upTo, clauses, cursor, false);
    assert sorted == upTo + rest;
    AfterJoins(upTo, rest, clauses, Some(cursor));
    if NoTieAt(sorted, clauses, k + 1) {
      forall j | 0 <= j < |rest| ensures IsAfter(rest[j], clauses, cursor) {
        PastAfterCut(sorted, clauses, k, k + 1 + j);
      }
      AfterAllOrNone(rest, clauses, cursor, true);
    } else {
      TieIsSkipped(sorted, clauses, k);
    }
  }

  lemma TieIsSkipped(sorted: seq<Hit>, clauses: seq<SortClause>, k: nat)
    requires k < |sorted| && InOrderAndComparable(sorted, clauses) && !NoTieAt(sorted, clauses, k + 1)
    ensures |After(sorted[k + 1..], clauses, CursorAt(sorted, clauses, k))| < |sorted| - k - 1
  {
    hide CompareHits, SortValues, IsAfter, InOrderAndComparable;
    PastMeansBelow(sorted, clauses, k, k + 1);
    AfterIsShorter(sorted[k + 1..][1..], clauses, CursorAt(sorted, clauses, k));
  }

  // ----- A whole crawl -----

  function PageFrom(sorted: seq<Hit>, clauses: seq<SortClause>, cursor: Option<seq<Value>>, size: nat): seq<Hit> {
    Window(After(sorted, clauses, cursor), 0, size)
  }

  /** Page `n` of a crawl: after the last hit of the page before, until a page is empty. */
  function CrawlPage(sorted: seq<Hit>, clauses: seq<SortClause>, size: nat, n: nat): seq<Hit> {
    if n == 0 then PageFrom(sorted, clauses, None, size)
    else
      var previous := CrawlPage(sorted, clauses, size, n - 1);
      if previous == [] then []
      else PageFrom(sorted, clauses, Some(SortValues(previous[|previous| - 1], clauses)), size)
  }

  /** Everything the first `n` pages delivered. */
  function Crawled(sorted: seq<Hit>, clauses: seq<SortClause>, size: nat, n: nat): seq<Hit> {
    if n == 0 then [] else Crawled(sorted, clauses, size, n - 1) + CrawlPage(sorted, clauses, size, n - 1)
  }

  ghost predicate NoTieAtCuts(sorted: seq<Hit>, clauses: seq<SortClause>, size: nat) {
    forall n: nat :: NoTieAt(sorted, clauses, Cut(n, size))
  }

  ghost predicate DeliversInOrder(sorted: seq<Hit>, clauses: seq<SortClause>, size: nat) {
    forall n: nat :: Crawled(sorted, clauses, size, n) == Take(sorted, Cut(n, size))
  }

  lemma WindowAfterWindow(sorted: seq<Hit>, from: nat, size: nat)
    requires size > 0
    ensures Window(sorted, from, size) == [] ==> Window(sorted, from + size, size) == []
    ensures
      var page := Window(sorted, from, size);
      page != [] ==>
      from + |page| <= |sorted| && page[|page| - 1] == sorted[from + |page| - 1]
      && (|page| == size || from + |page| == |sorted|)
      && Window(sorted[from + |page|..], 0, size) == Window(sorted, from + size, size)
  {
  }

  lemma {:induction false} PageIsItsSlice(sorted: seq<Hit>, clauses: seq<SortClause>, size: nat, n: nat)
    requires size > 0 && InOrderAndComparable(sorted, clauses) && NoTieAtCuts(sorted, clauses, size)
    ensures CrawlPage(sorted, clauses, size, n) == Window(sorted, Cut(n, size), size)
  {
    hide After, SortValues, NoTieAt, InOrderAndComparable, Cut, Window;
    CutAtZero(size);
    NoTieAtEnd(sorted, clauses);
    if n == 0 {
      NoCursorKeepsAll(sorted, clauses);
    } else {
      CutStep(n, size);
      PageIsItsSlice(sorted, clauses, size, n - 1);
      WindowAfterWindow(sorted, Cut(n - 1, size), size);
      var previous := CrawlPage(sorted, clauses, size, n - 1);
      if previous != [] {
        var k := Cut(n - 1, size) + |previous| - 1;
        if k + 1 == Cut(n, size) {
          assert NoTieAt(sorted, clauses, Cut(n, size));
        } else {
          assert k + 1 == |sorted|;
        }
        CursorResumesExactlyWhen(sorted, clauses, k);
      }
    }
  }

  lemma {:induction false} SlicesJoin(sorted: seq<Hit>, clauses: seq<SortClause>, size: nat, n: nat)
    requires size > 0 && InOrderAndComparable(sorted, clauses) && NoTieAtCuts(sorted, clauses, size)
    ensures Crawled(sorted, clauses, size, n) == Take(sorted, Cut(n, size))
  {
    hide CrawlPage, NoTieAtCuts, InOrderAndComparable, Cut;
    CutAtZero(size);
    if n > 0 {
      CutStep(n, size);
      SlicesJoin(sorted, clauses, size, n - 1);
      PageIsItsSlice(sorted, clauses, size, n - 1);
    }
  }

  /** In what a page holds, everything is past the page's cursor. */
  lemma {:induction false} OnlyPastHits(hits: seq<Hit>, clauses: seq<SortClause>, cursor: seq<Value>)
    ensures forall h :: h in After(hits, clauses, Some(cursor)) ==> IsAfter(h, clauses, cursor)
  {
    hide IsAfter;
    if hits != [] {
      OnlyPastHits(hits[1..], clauses, cursor);
    }
  }

  lemma TieAtCutLosesHit(sorted: seq<Hit>, clauses: seq<SortClause>, size: nat, n: nat)
    requires size > 0 && InOrderAndComparable(sorted, clauses) && DeliversInOrder(sorted, clauses, size)
    ensures NoTieAt(sorted, clauses, Cut(n, size))
  {
    hide After, IsAfter, SortValues, CompareHits, InOrderAndComparable, Cut;
    CutAtZero(size);
    var k := Cut(n, size);
    if !NoTieAt(sorted, clauses, k) {
      CutStep(n, size);
      CutStep(n + 1, size);
      var done := Crawled(sorted, clauses, size, n);
      assert done == sorted[..k];
      var previous := CrawlPage(sorted, clauses, size, n - 1);
      var page := CrawlPage(sorted, clauses, size, n);
      assert Crawled(sorted, clauses, size, n - 1) == Take(sorted, Cut(n - 1, size));
      assert |previous| == size && previous[size - 1] == done[k - 1] == sorted[k - 1];
      assert done + page == Crawled(sorted, clauses, size, n + 1) == Take(sorted, Cut(n + 1, size));
      assert page[0] == (done + page)[k] == sorted[k];
      var cursor := SortValues(sorted[k - 1], clauses);
      OnlyPastHits(sorted, clauses, cursor);
      assert page[0] in After(sorted, clauses, Some(cursor));
      PastMeansBelow(sorted, clauses, k - 1, k);
      assert false;
    }
  }

  /** A crawl delivers the sorted list in order, page by page, exactly when no two hits
      on either side of a page boundary tie. */
  lemma CrawlDeliversExactlyWhen(sorted: seq<Hit>, clauses: seq<SortClause>, size: nat)
    requires size > 0 && InOrderAndComparable(sorted, clauses)
    ensures DeliversInOrder(sorted, clauses, size) <==> NoTieAtCuts(sorted, clauses, size)
  {
    hide Crawled, NoTieAt, Cut, InOrderAndComparable, Take;
    if NoTieAtCuts(sorted, clauses, size) {
      forall n: nat ensures Crawled(sorted, clauses, size, n) == Take(sorted, Cut(n, size)) {
        SlicesJoin(sorted, clauses, size, n);
      }
    }
    if DeliversInOrder(sorted, clauses, size) {
      forall n: nat ensures NoTieAt(sorted, clauses, Cut(n, size)) {
        TieAtCutLosesHit(sorted, clauses, size, n);
      }
    }
  }

  lemma {:induction false} IdCrawlStops(sorted: seq<Hit>, clauses: seq<SortClause>, n: nat)
    requires |sorted| == 2 && n > 0 && InOrderAndComparable(sorted, clauses) && !NoTieAt(sorted, clauses, 1)
    ensures Crawled(sorted, clauses, 1, n) == [sorted[0]]
    ensures CrawlPage(sorted, clauses, 1, n) == []
  {
    hide After, SortValues, CompareHits, InOrderAndComparable;
    NoCursorKeepsAll(sorted, clauses);
    assert CrawlPage(sorted, clauses, 1, 0) == [sorted[0]];
    var cursor := CursorAt(sorted, clauses, 0);
    AfterJoins(sorted[..1], sorted[1..], clauses, cursor);
    assert sorted == sorted[..1] + sorted[1..];
    PastMeansBelow(sorted, clauses, 0, 0);
    AfterAllOrNone(sorted[..1], clauses, cursor.value, false);
    TieIsSkipped(sorted, clauses, 0);
    assert PageFrom(sorted, clauses, cursor, 1) == [];
    if n > 1 {
      IdCrawlStops(sorted, clauses, n - 1);
    } else {
      assert Crawled(sorted, clauses, 1, 0) == [];
    }
  }

  // ----- With the address as a tiebreaker -----

  ghost predicate NoSeparator(name: string) {
    '\U{1f}' !in name
  }

  ghost predicate SameAddress(a: Hit, b: Hit) {
    a.index == b.index && a.document.id == b.document.id
  }

  ghost predicate NoRepeats(hits: seq<Hit>) {
    forall i, j :: 0 <= i < j < |hits| ==> !SameAddress(hits[i], hits[j])
  }

  /** Joined by a character no index name holds, index and id can be told apart again. */
  lemma AddressIsUnique(a: Hit, b: Hit)
    requires NoSeparator(a.index) && NoSeparator(b.index)
    requires SortValue(a, SortClause("_shard_doc", false)) == SortValue(b, SortClause("_shard_doc", false))
    ensures SameAddress(a, b)
  {
    var x, y := a.index + "\U{1f}" + a.document.id, b.index + "\U{1f}" + b.document.id;
    assert x == y;
    assert x[|a.index|] == '\U{1f}' == y[|b.index|];
    assert |a.index| == |b.index|;
    assert a.index == x[..|a.index|] && b.index == y[..|a.index|];
    assert a.document.id == x[|a.index| + 1..] && b.document.id == y[|a.index| + 1..];
  }

  /** Two hits tie only if they tie in every clause. */
  lemma {:induction false} TiesInEveryClause(clauses: seq<SortClause>, a: seq<Value>, b: seq<Value>, i: nat)
    requires |a| == |b| == |clauses| && i < |clauses| && CompareKeys(clauses, a, b) == Same
    ensures CompareValues(a[i], b[i]) == Same
  {
    hide CompareValues;
    if i > 0 {
      TiesInEveryClause(clauses[1..], a[1..], b[1..], i - 1);
    }
  }

  /** With the address among the clauses only a hit and itself tie. */
  lemma TieMeansSameAddress(clauses: seq<SortClause>, a: Hit, b: Hit)
    requires SortsOn(clauses, "_shard_doc") && NoSeparator(a.index) && NoSeparator(b.index)
    requires CompareHits(clauses, a, b) == Same
    ensures SameAddress(a, b)
  {
    hide CompareKeys, ValueAt;
    var i :| 0 <= i < |clauses| && clauses[i].field == "_shard_doc";
    var left, right := SortValues(a, clauses), SortValues(b, clauses);
    TiesInEveryClause(clauses, left, right, i);
    assert left[i] == SortValue(a, SortClause("_shard_doc", false))
      && right[i] == SortValue(b, SortClause("_shard_doc", false));
    AddressIsUnique(a, b);
  }

  lemma Multiplicity(hits: seq<Hit>, i: nat, j: nat)
    requires i < j < |hits| && hits[i] == hits[j]
    ensures multiset(hits)[hits[i]] >= 2
  {
    assert hits == hits[..j] + hits[j..];
    assert hits[i] in hits[..j] && hits[j] in hits[j..];
  }

  lemma {:induction false} SingleOccurrence(hits: seq<Hit>, hit: Hit)
    requires NoRepeats(hits)
    ensures multiset(hits)[hit] <= 1
  {
    if hits != [] {
      SingleOccurrence(hits[1..], hit);
      assert hits == [hits[0]] + hits[1..];
      assert hits[0] == hit ==> hit !in hits[1..];
    }
  }

  /** Rearranging brings in no repetition. */
  lemma RearrangedNoRepeats(hits: seq<Hit>, sorted: seq<Hit>)
    requires NoRepeats(hits) && multiset(sorted) == multiset(hits)
    ensures NoRepeats(sorted)
  {
    forall i, j | 0 <= i < j < |sorted| ensures !SameAddress(sorted[i], sorted[j]) {
      assert sorted[i] in multiset(sorted) && sorted[j] in multiset(sorted);
      var p :| 0 <= p < |hits| && hits[p] == sorted[i];
      var q :| 0 <= q < |hits| && hits[q] == sorted[j];
      if p == q {
        Multiplicity(sorted, i, j);
        SingleOccurrence(hits, sorted[i]);
        assert false;
      }
    }
  }

  ghost predicate PlainNames(db: Database) {
    forall n :: n in db.indexes ==> NoSeparator(n)
  }

  ghost predicate FromIndexes(db: Database, hits: seq<Hit>, names: seq<string>) {
    forall h :: h in hits ==> h.index in names && h.index in db.indexes
  }

  lemma NothingRepeats()
    ensures NoRepeats([])
  {
  }

  lemma DistinctJoin(a: seq<Hit>, b: seq<Hit>)
    requires NoRepeats(a) && NoRepeats(b) && forall h, g :: h in a && g in b ==> h.index != g.index
    ensures NoRepeats(a + b)
  {
  }

  /** Each document is a candidate once. */
  lemma {:induction false} CandidatesAreDistinct(db: Database, names: seq<string>)
    requires NamesAgree(db) && forall i, j :: 0 <= i < j < |names| ==> names[i] != names[j]
    ensures NoRepeats(Candidates(db, names)) && FromIndexes(db, Candidates(db, names), names)
  {
    hide InOrder, NoRepeats, NamesAgree;
    NothingRepeats();
    if names != [] {
      var last := names[|names| - 1];
      var earlier := names[..|names| - 1];
      CandidatesAreDistinct(db, earlier);
      if last in db.indexes {
        IndexHitsAreDistinct(db, last);
      }
      DistinctJoin(Candidates(db, earlier), IndexHits(db, last));
    }
  }

  lemma IndexHitsAreDistinct(db: Database, name: string)
    requires NamesAgree(db) && name in db.indexes
    ensures NoRepeats(IndexHits(db, name)) && FromIndexes(db, IndexHits(db, name), [name])
  {
    hide InOrder;
    var documents := db.indexes[name].documents;
    var ids := InOrder(documents.Keys);
    InOrderAscends(documents.Keys);
    forall i | 0 <= i < |ids| ensures documents[assert ids[i] in ids; ids[i]].id == ids[i] {
      assert ids[i] in ids;
    }
  }

  lemma {:induction false} MatchesAreDistinct(hits: seq<Hit>, query: StoredDocument -> Result<bool>)
    requires NoRepeats(hits) && Matching(hits, query).Ok?
    ensures NoRepeats(Matching(hits, query).value)
    ensures forall h :: h in Matching(hits, query).value ==> h in hits
  {
    if hits != [] {
      var earlier, last := hits[..|hits| - 1], hits[|hits| - 1];
      MatchesAreDistinct(earlier, query);
      forall h | h in earlier ensures h in hits && !SameAddress(h, last) {}
    }
  }

  // ----- Crawling with real requests -----

  function HitsOf(r: Result<Page>): seq<Hit> {
    if r.Ok? then r.value.hits else []
  }

  /** The request a client sends next: the same search, after the last hit it got. */
  function Continued(request: SearchRequest, clauses: seq<SortClause>, last: Hit): SearchRequest {
    request.(searchAfter := Some(Array(SortValues(last, clauses))))
  }

  function SearchCrawl(db: Database, request: SearchRequest, query: StoredDocument -> Result<bool>,
                       fold: string -> string, n: nat): seq<Hit> {
    if n == 0 then HitsOf(Searching(db, request, query, fold))
    else
      var previous := SearchCrawl(db, request, query, fold, n - 1);
      if previous == [] then []
      else HitsOf(Searching(db, Continued(request, SortClauses(request.sort, request.pit), previous[|previous| - 1]),
        query, fold))
  }

  ghost predicate Pages(db: Database, request: SearchRequest, query: StoredDocument -> Result<bool>,
                        fold: string -> string, matches: seq<Hit>) {
    request.searchAfter.None? && request.from == 0 && request.size > 0
    && Matching(Candidates(db, InOrder(Searched(db, request.indices, fold))), query) == Ok(matches)
  }

  lemma {:induction false} SearchCrawlIsCrawl(db: Database, request: SearchRequest,
                                              query: StoredDocument -> Result<bool>,
                                              fold: string -> string, matches: seq<Hit>, n: nat)
    requires Pages(db, request, query, fold, matches)
    requires SortClauses(request.sort, request.pit) != []
    ensures var clauses := SortClauses(request.sort, request.pit);
            SearchCrawl(db, request, query, fold, n) == CrawlPage(SortHits(clauses, matches), clauses, request.size, n)
  {
    hide SortClauses, Searched, InOrder, SortHits, After, Candidates, Matching, Window;
    if n > 0 {
      SearchCrawlIsCrawl(db, request, query, fold, matches, n - 1);
    }
  }

  /** Everything the first `n` requests delivered. */
  function Delivered(db: Database, request: SearchRequest, query: StoredDocument -> Result<bool>,
                     fold: string -> string, n: nat): seq<Hit> {
    if n == 0 then []
    else Delivered(db, request, query, fold, n - 1) + SearchCrawl(db, request, query, fold, n - 1)
  }

  lemma {:induction false} DeliveredIsCrawled(db: Database, request: SearchRequest,
                                              query: StoredDocument -> Result<bool>,
                                              fold: string -> string, matches: seq<Hit>, n: nat)
    requires Pages(db, request, query, fold, matches)
    requires SortClauses(request.sort, request.pit) != []
    ensures var clauses := SortClauses(request.sort, request.pit);
            Delivered(db, request, query, fold, n) == Crawled(SortHits(clauses, matches), clauses, request.size, n)
  {
    hide SortClauses, SortHits, SearchCrawl, CrawlPage, Pages;
    if n > 0 {
      DeliveredIsCrawled(db, request, query, fold, matches, n - 1);
      SearchCrawlIsCrawl(db, request, query, fold, matches, n - 1);
    }
  }

  /** A request's pages deliver its sorted matches in order exactly when no two of them on
      either side of a page boundary tie. */
  lemma RequestDeliversExactlyWhen(db: Database, request: SearchRequest, query: StoredDocument -> Result<bool>,
                                   fold: string -> string, matches: seq<Hit>)
    requires Pages(db, request, query, fold, matches)
    requires SortClauses(request.sort, request.pit) != []
    requires AllComparable(matches, SortClauses(request.sort, request.pit))
    ensures var clauses := SortClauses(request.sort, request.pit);
            var sorted := SortHits(clauses, matches);
            (forall n: nat :: Delivered(db, request, query, fold, n) == Take(sorted, Cut(n, request.size)))
            <==> NoTieAtCuts(sorted, clauses, request.size)
  {
    hide SortClauses, SortHits, Delivered, Crawled, Cut, Take, NoTieAtCuts, AllComparable, Sorted, Pages;
    var clauses := SortClauses(request.sort, request.pit);
    var sorted := SortHits(clauses, matches);
    PagesHaveASize(db, request, query, fold, matches);
    MatchesSort(clauses, matches);
    CrawlDeliversExactlyWhen(sorted, clauses, request.size);
    forall n: nat ensures Delivered(db, request, query, fold, n) == Crawled(sorted, clauses, request.size, n) {
      DeliveredIsCrawled(db, request, query, fold, matches, n);
    }
  }

  lemma PagesHaveASize(db: Database, request: SearchRequest, query: StoredDocument -> Result<bool>,
                       fold: string -> string, matches: seq<Hit>)
    requires Pages(db, request, query, fold, matches)
    ensures request.size > 0
  {
  }

  lemma MatchesSort(clauses: seq<SortClause>, matches: seq<Hit>)
    requires AllComparable(matches, clauses)
    ensures InOrderAndComparable(SortHits(clauses, matches), clauses)
    ensures multiset(SortHits(clauses, matches)) == multiset(matches)
  {
    hide SortHits, Sorted, AllComparable;
    var sorted := SortHits(clauses, matches);
    SortHitsSorts(clauses, matches);
    forall h | h in sorted ensures h in matches { assert h in multiset(sorted); }
    AllComparablePart(clauses, matches, sorted);
  }

  // ----- The id alone is no tiebreaker -----

  /** One document, stored under its id in two indexes. */
  function InBoth(document: StoredDocument): Database {
    var ix := IndexMetadata("a", EMPTY_OBJECT, EMPTY_OBJECT, {}, map[document.id := document], map[], 0);
    EMPTY_DATABASE.(indexes := map["a" := ix, "b" := ix.(name := "b")])
  }

  /** Every document, by id, one a page. */
  function ById(): SearchRequest {
    SearchRequest([], Some(Str("_id")), None, false, 0, 1, false)
  }

  function Every(document: StoredDocument): Result<bool> {
    Ok(true)
  }

  /** A search sorted on the id alone gets no other tiebreaker, and across two indexes ids
      tie: both documents match, and however often the client asks on, it gets only one. */
  lemma IdSortLosesHits(document: StoredDocument, fold: string -> string, n: nat)
    requires n > 0
    ensures Pages(InBoth(document), ById(), Every, fold, [Hit("a", document), Hit("b", document)])
    ensures Delivered(InBoth(document), ById(), Every, fold, n) == [Hit("a", document)]
  {
    hide Matching, Candidates, CompareHits, SortClauses, Crawled, Delivered, AllComparable, Sorted, After;
    var db, matches := InBoth(document), [Hit("a", document), Hit("b", document)];
    BothAreCandidates(document);
    BothMatch(document);
    ByIdAlone();
    var clauses := SortClauses(ById().sort, ById().pit);
    IdsTie(document);
    SortHitsKeepsTies(document);
    DeliveredIsCrawled(db, ById(), Every, fold, matches, n);
    IdCrawlStops(matches, clauses, n);
  }

  lemma ByIdAlone()
    ensures SortClauses(ById().sort, ById().pit) == [SortClause("_id", false)]
  {
    assert ParseClauses([Str("_id")]) == [SortClause("_id", false)] + ParseClauses([Str("_id")][1..]);
    assert RequestedClauses(ById().sort)[0].field == "_id";
  }

  lemma IdsTie(document: StoredDocument)
    ensures var clauses, matches := [SortClause("_id", false)], [Hit("a", document), Hit("b", document)];
            InOrderAndComparable(matches, clauses) && CompareHits(clauses, matches[0], matches[1]) == Same
  {
    hide CompareText, ValueAt;
    TextOrder(document.id, document.id, document.id);
    var clauses, matches := [SortClause("_id", false)], [Hit("a", document), Hit("b", document)];
    assert SortValues(matches[0], clauses) == [Str(document.id)] == SortValues(matches[1], clauses);
    KeyOrder(clauses, [Str(document.id)], [Str(document.id)], [Str(document.id)]);
  }

  lemma SortHitsKeepsTies(document: StoredDocument)
    ensures var clauses, matches := [SortClause("_id", false)], [Hit("a", document), Hit("b", document)];
            SortHits(clauses, matches) == matches
  {
    hide CompareHits;
    var clauses, matches := [SortClause("_id", false)], [Hit("a", document), Hit("b", document)];
    IdsTie(document);
    assert matches[1..] == [matches[1]] && matches[1..][1..] == [];
    assert SortHits(clauses, []) == [] && SortHits(clauses, [matches[1]]) == [matches[1]];
  }

  lemma BothMatch(document: StoredDocument)
    ensures var matches := [Hit("a", document), Hit("b", document)];
            Matching(matches, Every) == Ok(matches)
  {
    hide Matching;
    var a, b := Hit("a", document), Hit("b", document);
    NothingMatched(Every);
    assert [] + [a] == [a] && [a] + [b] == [a, b];
    MatchingStep([], a, Every);
    MatchingStep([a], b, Every);
  }

  lemma BothAreCandidates(document: StoredDocument)
    ensures InOrder(InBoth(document).indexes.Keys) == ["a", "b"]
    ensures Candidates(InBoth(document), ["a", "b"]) == [Hit("a", document), Hit("b", document)]
  {
    hide IndexHits, InOrder;
    var db := InBoth(document);
    TwoInOrder();
    assert db.indexes.Keys == {"a", "b"};
    OneHitEach(document);
    assert ["a", "b"][..1] == ["a"] && ["a"][..0] == [];
    assert Candidates(db, ["a"]) == Candidates(db, []) + IndexHits(db, "a");
  }

  lemma OneHitEach(document: StoredDocument)
    ensures IndexHits(InBoth(document), "a") == [Hit("a", document)]
    ensures IndexHits(InBoth(document), "b") == [Hit("b", document)]
  {
    hide InOrder;
    OneInOrder(document.id);
  }

  lemma TwoInOrder()
    ensures InOrder({"a", "b"}) == ["a", "b"]
  {
    hide InOrder;
    InOrderAscends({"a", "b"});
    var keys := InOrder({"a", "b"});
    assert keys[0] in keys && keys[1] in keys && "a" in keys && Less(keys[0], keys[1]);
    assert AtMost("a", "b") && !AtMost("b", "a");
  }

  lemma OneInOrder(id: string)
    ensures InOrder({id}) == [id]
  {
    hide InOrder;
    assert |InOrder({id})| == 1 && id in InOrder({id});
  }

  /** With the address among the clauses, searching again and again after the last hit
      delivers the sorted matches in order, each exactly once, and then empty pages. */
  lemma SearchAfterIsComplete(db: Database, request: SearchRequest, query: StoredDocument -> Result<bool>,
                              fold: string -> string, matches: seq<Hit>, n: nat)
    requires Pages(db, request, query, fold, matches)
    requires NamesAgree(db) && PlainNames(db)
    requires SortsOn(SortClauses(request.sort, request.pit), "_shard_doc")
    requires AllComparable(matches, SortClauses(request.sort, request.pit))
    ensures var sorted := SortHits(SortClauses(request.sort, request.pit), matches);
            SearchCrawl(db, request, query, fold, n) == Window(sorted, Cut(n, request.size), request.size)
            && Crawled(sorted, SortClauses(request.sort, request.pit), request.size, n)
               == Take(sorted, Cut(n, request.size))
    ensures n >= |matches| ==> SearchCrawl(db, request, query, fold, n) == []
    ensures var sorted := SortHits(SortClauses(request.sort, request.pit), matches);
            NoRepeats(sorted) && multiset(sorted) == multiset(matches)
  {
    hide SortClauses, Searched, InOrder, SortHits, Candidates, Matching, After, CompareHits, Sorted, AllComparable,
      Cut, NoTieAtCuts, CrawlPage, Crawled, Take;
    var clauses := SortClauses(request.sort, request.pit);
    var sorted := SortHits(clauses, matches);
    MatchesSort(clauses, matches);
    SortedIsDistinct(db, request, query, fold, matches);
    NoTies(db, sorted, clauses, request.size);
    SearchCrawlIsCrawl(db, request, query, fold, matches, n);
    PageIsItsSlice(sorted, clauses, request.size, n);
    SlicesJoin(sorted, clauses, request.size, n);
    CutGrows(n, request.size);
    assert |multiset(sorted)| == |multiset(matches)|;
  }

  lemma SortedIsDistinct(db: Database, request: SearchRequest, query: StoredDocument -> Result<bool>,
                         fold: string -> string, matches: seq<Hit>)
    requires Pages(db, request, query, fold, matches) && NamesAgree(db)
    ensures var sorted := SortHits(SortClauses(request.sort, request.pit), matches);
            NoRepeats(sorted) && forall h :: h in sorted ==> h.index in db.indexes
  {
    hide SortClauses, Searched, InOrder, SortHits, Candidates, Matching;
    var clauses := SortClauses(request.sort, request.pit);
    var names := InOrder(Searched(db, request.indices, fold));
    InOrderAscends(Searched(db, request.indices, fold));
    forall i, j | 0 <= i < j < |names| ensures names[i] != names[j] { assert Less(names[i], names[j]); }
    CandidatesAreDistinct(db, names);
    MatchesAreDistinct(Candidates(db, names), query);
    SortHitsSorts(clauses, matches);
    RearrangedNoRepeats(matches, SortHits(clauses, matches));
    forall h | h in SortHits(clauses, matches) ensures h.index in db.indexes { assert h in multiset(matches); }
  }

  lemma NoTies(db: Database, sorted: seq<Hit>, clauses: seq<SortClause>, size: nat)
    requires PlainNames(db) && NoRepeats(sorted) && SortsOn(clauses, "_shard_doc")
    requires forall h :: h in sorted ==> h.index in db.indexes
    ensures NoTieAtCuts(sorted, clauses, size)
  {
    hide CompareHits, SortsOn, Cut;
    forall n: nat ensures NoTieAt(sorted, clauses, Cut(n, size)) {
      var k := Cut(n, size);
      if 0 < k < |sorted| && CompareHits(clauses, sorted[k - 1], sorted[k]) == Same {
        assert sorted[k - 1] in sorted && sorted[k] in sorted;
        TieMeansSameAddress(clauses, sorted[k - 1], sorted[k]);
        assert false;
      }
    }
  }
}
