/** By-query requests: planned against one database, applied atomically, and reported
    with counters that add up. */
module ByQuery {
  import opened Prelude
  import opened Json
  import opened Catalog
  import opened CatalogInvariant
  import opened SizeCache
  import opened Writes
  import opened Operations
  import Admission
  import Costs
  import Store
  import Glob

  datatype MatchedDoc = MatchedDoc(index: string, id: string, source: Value)

  datatype ReindexOpType = ReindexIndex | ReindexCreate

  datatype UpdateAction = DeleteIt | IndexIt(source: Value) | Noop

  datatype Counts = Counts(created: nat, updated: nat, deleted: nat)

  // ----- Which documents -----

  /** The concrete indexes behind a name, and behind an alias all that list it. */
  function ResolveIndices(db: Database, name: string): set<string> {
    if name in db.indexes then {name}
    else
      var listed := set n | n in db.indexes && name in db.indexes[n].aliases :: db.indexes[n].name;
      if listed == {} && name in db.aliases then {db.aliases[name].index} else listed
  }

  function NamesOf(db: Database, requested: seq<string>): Result<set<string>> {
    if requested == [] then Ok({}) else
    var before := NamesOf(db, requested[..|requested| - 1]);
    if before.Err? then before else
    var name := requested[|requested| - 1];
    if '*' in name then Ok(before.value + set n | n in db.indexes && Glob.Greedy(name, n))
    else if ResolveIndices(db, name) == {} then Err(IndexMissing())
    else Ok(before.value + ResolveIndices(db, name))
  }

  function SelectedNames(db: Database, requested: seq<string>): Result<set<string>> {
    if requested == [] || "_all" in requested || "*" in requested then Ok(db.indexes.Keys) else NamesOf(db, requested)
  }

  /** A name selects the index of that name; else, as an alias, every index that lists it;
      else the index its alias entry names. */
  ghost predicate NameSelects(db: Database, name: string, index: string) {
    if name in db.indexes then index == name
    else if exists n :: Lists(db, n, name) then Lists(db, index, name)
    else name in db.aliases && db.aliases[name].index == index
  }

  ghost predicate Lists(db: Database, index: string, alias: string) {
    index in db.indexes && alias in db.indexes[index].aliases
  }

  ghost predicate PartSelects(db: Database, part: string, index: string) {
    if '*' in part then index in db.indexes && Glob.Greedy(part, index) else NameSelects(db, part, index)
  }

  ghost predicate AsksForAll(requested: seq<string>) {
    |requested| == 0 || exists i :: 0 <= i < |requested| && (requested[i] == "_all" || requested[i] == "*")
  }

  /** Everything, or what some part of the request selects. */
  ghost predicate Selects(db: Database, requested: seq<string>, index: string) {
    if AsksForAll(requested) then index in db.indexes
    else SomePartSelects(db, requested, index)
  }

  ghost predicate SomePartSelects(db: Database, requested: seq<string>, index: string) {
    exists i :: 0 <= i < |requested| && PartSelects(db, requested[i], index)
  }

  /** A part without a star selects nothing. */
  ghost predicate NamesUnknown(db: Database, requested: seq<string>) {
    !AsksForAll(requested)
    && exists i :: 0 <= i < |requested| && '*' !in requested[i] && SelectsNothing(db, requested[i])
  }

  ghost predicate SelectsNothing(db: Database, name: string) {
    forall index :: !NameSelects(db, name, index)
  }

  lemma ResolvedAreSelected(db: Database, name: string)
    requires NamesAgree(db)
    ensures forall index :: index in ResolveIndices(db, name) <==> NameSelects(db, name, index)
    ensures ResolveIndices(db, name) == {} <==> SelectsNothing(db, name)
  {
    if name !in db.indexes {
      var listed := set n | n in db.indexes && name in db.indexes[n].aliases :: db.indexes[n].name;
      forall index ensures index in listed <==> Lists(db, index, name) {}
      assert listed == {} <==> !exists n :: Lists(db, n, name);
    }
    assert forall index :: index in ResolveIndices(db, name) <==> NameSelects(db, name, index);
    if name in db.indexes {
      assert NameSelects(db, name, name);
    }
  }

  lemma {:induction false} NamesOfAreSelected(db: Database, requested: seq<string>)
    requires NamesAgree(db)
    ensures NamesOf(db, requested).Ok? ==>
      forall index :: index in NamesOf(db, requested).value <==> SomePartSelects(db, requested, index)
    ensures NamesOf(db, requested).Err? <==>
      exists i :: 0 <= i < |requested| && '*' !in requested[i] && SelectsNothing(db, requested[i])
    ensures NamesOf(db, requested).Err? ==> NamesOf(db, requested).error == IndexMissing()
  {
    hide NamesAgree, ResolveIndices, Glob.Greedy, NameSelects, SelectsNothing;
    if requested != [] {
      var n := |requested| - 1;
      NamesOfAreSelected(db, requested[..n]);
      ResolvedAreSelected(db, requested[n]);
      assert forall i :: 0 <= i < n ==> requested[..n][i] == requested[i];
      if NamesOf(db, requested).Ok? {
        forall index
          ensures index in NamesOf(db, requested).value <==> SomePartSelects(db, requested, index)
        {
          assert PartSelects(db, requested[n], index) ==> index in NamesOf(db, requested).value;
          assert index in NamesOf(db, requested[..n]).value ==>
              exists i :: 0 <= i < n && PartSelects(db, requested[..n][i], index);
        }
      }
    }
  }

  /** Who is selected, and when the request is refused. */
  lemma SelectedExactlyWhen(db: Database, requested: seq<string>)
    requires NamesAgree(db)
    ensures SelectedNames(db, requested).Ok? ==>
      forall index :: index in SelectedNames(db, requested).value <==> Selects(db, requested, index)
    ensures SelectedNames(db, requested).Err? <==> NamesUnknown(db, requested)
    ensures SelectedNames(db, requested).Err? ==> SelectedNames(db, requested).error.status == 404
  {
    hide NamesAgree, NamesOf, PartSelects, SelectsNothing;
    NamesOfAreSelected(db, requested);
    assert AsksForAll(requested) <==> requested == [] || "_all" in requested || "*" in requested;
  }

  lemma {:induction false} UnknownNameStays(db: Database, requested: seq<string>, i: nat)
    requires i <= |requested| && NamesOf(db, requested[..i]).Err?
    ensures NamesOf(db, requested) == NamesOf(db, requested[..i])
  {
    hide ResolveIndices, Glob.Greedy;
    if i < |requested| {
      assert requested[..|requested| - 1][..i] == requested[..i];
      UnknownNameStays(db, requested[..|requested| - 1], i);
    } else {
      assert requested[..i] == requested;
    }
  }

  /** The names a request selects, in order and each once. */
  method ResolveIndexPatterns(db: Database, requested: seq<string>) returns (r: Result<seq<string>>)
    ensures match SelectedNames(db, requested)
      case Err(e) => r == Err(e)
      case Ok(names) => r == Ok(InOrder(names))
    ensures NamesAgree(db) && r.Ok? ==> forall index :: index in r.value <==> Selects(db, requested, index)
    ensures NamesAgree(db) ==> (r.Err? <==> NamesUnknown(db, requested))
  {
    hide InOrder, ResolveIndices, Glob.Greedy, NamesAgree, Selects, NamesUnknown;
    if NamesAgree(db) {
      SelectedExactlyWhen(db, requested);
    }
    if requested == [] || "_all" in requested || "*" in requested {
      return Ok(InOrder(db.indexes.Keys));
    }
    var names: set<string> := {};
    var i := 0;
    while i < |requested|
      invariant 0 <= i <= |requested|
      invariant NamesOf(db, requested[..i]) == Ok(names)
    {
      assert requested[..i + 1][..i] == requested[..i];
      if '*' in requested[i] {
        names := names + set n | n in db.indexes && Glob.Greedy(requested[i], n);
      } else {
        var resolved := ResolveIndices(db, requested[i]);
        if resolved == {} {
          UnknownNameStays(db, requested, i + 1);
          return Err(IndexMissing());
        }
        names := names + resolved;
      }
      i := i + 1;
    }
    assert requested[..|requested|] == requested;
    return Ok(InOrder(names));
  }

  ghost predicate Found(db: Database, doc: MatchedDoc) {
    HasDocument(db, doc.index, doc.id) && db.indexes[doc.index].documents[doc.id].source == doc.source
  }

  /** Distinct documents that are there. */
  ghost predicate DistinctlyFound(db: Database, docs: seq<MatchedDoc>) {
    (forall i :: 0 <= i < |docs| ==> Found(db, docs[i]))
    && forall i, j :: 0 <= i < j < |docs| ==> docs[i].index != docs[j].index || docs[i].id != docs[j].id
  }

  ghost predicate NoneMissed(db: Database, name: string, docs: seq<MatchedDoc>, query: StoredDocument -> Result<bool>) {
    name in db.indexes ==>
      forall id :: id in db.indexes[name].documents && query(db.indexes[name].documents[id]) == Ok(true) ==>
        MatchedDoc(name, id, db.indexes[name].documents[id].source) in docs
  }

  lemma NothingMatches(db: Database, query: StoredDocument -> Result<bool>)
    ensures DistinctlyFound(db, []) && AllMatch(db, [], query)
  {
  }

  lemma NothingMissedIn(db: Database, name: string, docs: seq<MatchedDoc>, query: StoredDocument -> Result<bool>)
    requires name !in db.indexes
    ensures NoneMissed(db, name, docs, query)
  {
  }

  lemma MatchesJoin(db: Database, names: seq<string>, docs: seq<MatchedDoc>, more: seq<MatchedDoc>,
                    query: StoredDocument -> Result<bool>)
    requires AllMatch(db, docs, query) && AllMatch(db, more, query)
    requires names != [] && NoneMissed(db, names[|names| - 1], more, query)
    requires forall j :: 0 <= j < |names| - 1 ==> NoneMissed(db, names[j], docs, query)
    ensures AllMatch(db, docs + more, query)
    ensures forall j :: 0 <= j < |names| ==> NoneMissed(db, names[j], docs + more, query)
  {
  }

  ghost predicate AllMatch(db: Database, docs: seq<MatchedDoc>, query: StoredDocument -> Result<bool>) {
    forall i :: 0 <= i < |docs| ==>
      HasDocument(db, docs[i].index, docs[i].id) && query(db.indexes[docs[i].index].documents[docs[i].id]) == Ok(true)
  }

  lemma OneMoreMatch(db: Database, docs: seq<MatchedDoc>, doc: MatchedDoc, query: StoredDocument -> Result<bool>)
    requires DistinctlyFound(db, docs) && AllMatch(db, docs, query) && Found(db, doc)
    requires query(db.indexes[doc.index].documents[doc.id]) == Ok(true)
    requires forall k :: 0 <= k < |docs| ==> docs[k].id != doc.id
    ensures DistinctlyFound(db, docs + [doc]) && AllMatch(db, docs + [doc], query)
  {
  }

  /** The matches among some ids of one index, or the first error. */
  function MatchedIds(name: string, documents: map<string, StoredDocument>, ids: seq<string>,
                      query: StoredDocument -> Result<bool>): Result<seq<MatchedDoc>>
    requires forall id :: id in ids ==> id in documents
  {
    if ids == [] then Ok([])
    else
      var before := MatchedIds(name, documents, ids[..|ids| - 1], query);
      var document := documents[ids[|ids| - 1]];
      if before.Err? then before
      else
        match query(document)
        case Err(_) => Err(StoreError(400, "x_content_parse_exception"))
        case Ok(yes) =>
          Ok(if yes then before.value + [MatchedDoc(name, document.id, document.source)] else before.value)
  }

  function MatchedNames(db: Database, names: seq<string>, query: StoredDocument -> Result<bool>)
    : Result<seq<MatchedDoc>>
  {
    if names == [] then Ok([])
    else
      var before := MatchedNames(db, names[..|names| - 1], query);
      var name := names[|names| - 1];
      if before.Err? || name !in db.indexes then before
      else
        var documents := db.indexes[name].documents;
        match MatchedIds(name, documents, InOrder(documents.Keys), query)
        case Err(e) => Err(e)
        case Ok(more) => Ok(before.value + more)
  }

  /** The documents of the selected indexes that the query matches. */
  function Matched(db: Database, requested: seq<string>, query: StoredDocument -> Result<bool>)
    : Result<seq<MatchedDoc>>
  {
    match SelectedNames(db, requested)
    case Err(e) => Err(e)
    case Ok(names) => MatchedNames(db, InOrder(names), query)
  }

  lemma {:induction false} MatchErrorStays(name: string, documents: map<string, StoredDocument>, ids: seq<string>,
                                           query: StoredDocument -> Result<bool>, i: nat)
    requires forall id :: id in ids ==> id in documents
    requires i <= |ids| && MatchedIds(name, documents, ids[..i], query).Err?
    ensures MatchedIds(name, documents, ids, query) == MatchedIds(name, documents, ids[..i], query)
  {
    if i < |ids| {
      assert ids[..|ids| - 1][..i] == ids[..i];
      MatchErrorStays(name, documents, ids[..|ids| - 1], query, i);
    } else {
      assert ids[..i] == ids;
    }
  }

  lemma {:induction false} NamesErrorStays(db: Database, names: seq<string>, query: StoredDocument -> Result<bool>,
                                           i: nat)
    requires i <= |names| && MatchedNames(db, names[..i], query).Err?
    ensures MatchedNames(db, names, query) == MatchedNames(db, names[..i], query)
  {
    hide InOrder;
    if i < |names| {
      assert names[..|names| - 1][..i] == names[..i];
      NamesErrorStays(db, names[..|names| - 1], query, i);
    } else {
      assert names[..i] == names;
    }
  }

  method MatchingIn(name: string, documents: map<string, StoredDocument>, query: StoredDocument -> Result<bool>)
    returns (r: Result<seq<MatchedDoc>>)
    ensures r == MatchedIds(name, documents, InOrder(documents.Keys), query)
  {
    hide InOrder;
    var ids := InOrder(documents.Keys);
    var matches: seq<MatchedDoc> := [];
    var i := 0;
    while i < |ids|
      invariant 0 <= i <= |ids|
      invariant MatchedIds(name, documents, ids[..i], query) == Ok(matches)
    {
      assert ids[i] in ids && ids[..i + 1][..i] == ids[..i];
      var document := documents[ids[i]];
      var matched := query(document);
      if matched.Err? {
        MatchErrorStays(name, documents, ids, query, i + 1);
        return Err(StoreError(400, "x_content_parse_exception"));
      }
      if matched.value {
        matches := matches + [MatchedDoc(name, document.id, document.source)];
      }
      i := i + 1;
    }
    assert ids[..|ids|] == ids;
    return Ok(matches);
  }

  /** Looks through the selected indexes one by one. */
  method MatchingDocuments(db: Database, requested: seq<string>, query: StoredDocument -> Result<bool>)
    returns (r: Result<seq<MatchedDoc>>)
    ensures r == Matched(db, requested, query)
  {
    hide InOrder, SelectedNames, MatchedIds;
    var names := ResolveIndexPatterns(db, requested);
    if names.Err? {
      return Err(names.error);
    }
    var matches: seq<MatchedDoc> := [];
    var i := 0;
    while i < |names.value|
      invariant 0 <= i <= |names.value|
      invariant MatchedNames(db, names.value[..i], query) == Ok(matches)
    {
      assert names.value[..i + 1][..i] == names.value[..i];
      if names.value[i] in db.indexes {
        var more := MatchingIn(names.value[i], db.indexes[names.value[i]].documents, query);
        if more.Err? {
          NamesErrorStays(db, names.value, query, i + 1);
          return Err(more.error);
        }
        matches := matches + more.value;
      }
      i := i + 1;
    }
    assert names.value[..|names.value|] == names.value;
    return Ok(matches);
  }

  /** What the matches of one index are. */
  lemma {:induction false} MatchedIdsAreMatches(db: Database, name: string, ids: seq<string>,
                                                query: StoredDocument -> Result<bool>)
    requires NamesAgree(db) && name in db.indexes && forall id :: id in ids ==> id in db.indexes[name].documents
    requires forall i, j :: 0 <= i < j < |ids| ==> ids[i] != ids[j]
    requires MatchedIds(name, db.indexes[name].documents, ids, query).Ok?
    ensures
      var documents := db.indexes[name].documents;
      var docs := MatchedIds(name, documents, ids, query).value;
      DistinctlyFound(db, docs) && AllMatch(db, docs, query)
      && (forall k :: 0 <= k < |docs| ==> docs[k].index == name && docs[k].id in ids)
      && forall id :: id in ids && query(documents[id]) == Ok(true) ==>
        MatchedDoc(name, id, documents[id].source) in docs
  {
    hide DistinctlyFound, AllMatch;
    if ids == [] {
      NothingMatches(db, query);
    } else {
      var n := |ids| - 1;
      var document := db.indexes[name].documents[ids[n]];
      assert GoodIndex(name, db.indexes[name]);
      MatchedIdsAreMatches(db, name, ids[..n], query);
      if query(document) == Ok(true) {
        var before := MatchedIds(name, db.indexes[name].documents, ids[..n], query).value;
        OneMoreMatch(db, before, MatchedDoc(name, document.id, document.source), query);
      }
    }
  }

  lemma MatchedInIsEvery(db: Database, name: string, query: StoredDocument -> Result<bool>)
    requires NamesAgree(db) && name in db.indexes
    requires MatchedIds(name, db.indexes[name].documents, InOrder(db.indexes[name].documents.Keys), query).Ok?
    ensures
      var docs := MatchedIds(name, db.indexes[name].documents, InOrder(db.indexes[name].documents.Keys), query).value;
      DistinctlyFound(db, docs) && AllMatch(db, docs, query) && NoneMissed(db, name, docs, query)
      && forall k :: 0 <= k < |docs| ==> docs[k].index == name
  {
    hide InOrder, AtMost, DistinctlyFound, AllMatch, MatchedIds;
    var ids := InOrder(db.indexes[name].documents.Keys);
    InOrderAscends(db.indexes[name].documents.Keys);
    forall i, j | 0 <= i < j < |ids| ensures ids[i] != ids[j] { assert Less(ids[i], ids[j]); }
    MatchedIdsAreMatches(db, name, ids, query);
  }

  lemma {:induction false} MatchedNamesAreMatches(db: Database, names: seq<string>,
                                                  query: StoredDocument -> Result<bool>)
    requires NamesAgree(db) && MatchedNames(db, names, query).Ok?
    requires forall i, j :: 0 <= i < j < |names| ==> names[i] != names[j]
    ensures
      var docs := MatchedNames(db, names, query).value;
      DistinctlyFound(db, docs) && AllMatch(db, docs, query)
      && (forall k :: 0 <= k < |docs| ==> docs[k].index in names)
      && forall j :: 0 <= j < |names| ==> NoneMissed(db, names[j], docs, query)
  {
    hide InOrder, NoneMissed, AllMatch, MatchedIds, NamesAgree, Found;
    if names == [] {
      NothingMatches(db, query);
    } else {
      var n := |names| - 1;
      MatchedNamesAreMatches(db, names[..n], query);
      var before := MatchedNames(db, names[..n], query).value;
      if names[n] in db.indexes {
        MatchedInIsEvery(db, names[n], query);
        var documents := db.indexes[names[n]].documents;
        MatchesJoin(db, names, before, MatchedIds(names[n], documents, InOrder(documents.Keys), query).value, query);
      } else {
        NothingMissedIn(db, names[n], before, query);
      }
    }
  }

  /** The matches are distinct documents of the selected indexes, all that the query matches and no other. */
  lemma MatchedIsEvery(db: Database, requested: seq<string>, query: StoredDocument -> Result<bool>)
    requires NamesAgree(db) && Matched(db, requested, query).Ok?
    ensures
      var docs := Matched(db, requested, query).value;
      DistinctlyFound(db, docs) && AllMatch(db, docs, query)
      && (forall k :: 0 <= k < |docs| ==> Selects(db, requested, docs[k].index))
      && forall n :: Selects(db, requested, n) ==> NoneMissed(db, n, docs, query)
  {
    hide InOrder, AtMost, SelectedNames, NoneMissed, DistinctlyFound, AllMatch, NamesAgree, MatchedNames, Selects;
    SelectedExactlyWhen(db, requested);
    var selected := SelectedNames(db, requested).value;
    var names := InOrder(selected);
    InOrderAscends(selected);
    forall i, j | 0 <= i < j < |names| ensures names[i] != names[j] { assert Less(names[i], names[j]); }
    MatchedNamesAreMatches(db, names, query);
    forall n | n in selected ensures NoneMissed(db, n, Matched(db, requested, query).value, query) {
      assert n in names;
    }
  }

  ghost predicate InAddressOrder(docs: seq<MatchedDoc>) {
    forall i, j :: 0 <= i < j < |docs| ==> Precedes(docs[i].index, docs[i].id, docs[j].index, docs[j].id)
  }

  lemma {:induction false} MatchedIdsAscend(name: string, documents: map<string, StoredDocument>, ids: seq<string>,
                                            query: StoredDocument -> Result<bool>)
    requires forall id :: id in ids ==> id in documents
    requires MatchedIds(name, documents, ids, query).Ok?
    requires forall id :: id in documents ==> documents[id].id == id
    requires forall i, j :: 0 <= i < j < |ids| ==> Less(ids[i], ids[j])
    ensures var docs := MatchedIds(name, documents, ids, query).value;
            InAddressOrder(docs) && forall k :: 0 <= k < |docs| ==> docs[k].index == name && docs[k].id in ids
  {
    hide Less;
    if ids != [] {
      var n := |ids| - 1;
      MatchedIdsAscend(name, documents, ids[..n], query);
      assert ids[n] in ids && forall id :: id in ids[..n] ==> id in ids && Less(id, ids[n]);
    }
  }

  lemma JoinInOrder(docs: seq<MatchedDoc>, more: seq<MatchedDoc>, name: string)
    requires InAddressOrder(docs) && InAddressOrder(more)
    requires forall k :: 0 <= k < |docs| ==> Less(docs[k].index, name)
    requires forall k :: 0 <= k < |more| ==> more[k].index == name
    ensures InAddressOrder(docs + more)
  {
    hide Less;
  }

  lemma {:induction false} MatchedNamesAscend(db: Database, names: seq<string>, query: StoredDocument -> Result<bool>)
    requires NamesAgree(db) && MatchedNames(db, names, query).Ok?
    requires forall i, j :: 0 <= i < j < |names| ==> Less(names[i], names[j])
    ensures var docs := MatchedNames(db, names, query).value;
            InAddressOrder(docs) && forall k :: 0 <= k < |docs| ==> docs[k].index in names
  {
    hide Less, InOrder, MatchedIds, InAddressOrder;
    if names == [] {
      NoneInOrder();
    } else {
      var n := |names| - 1;
      var name := names[n];
      MatchedNamesAscend(db, names[..n], query);
      if name in db.indexes {
        var documents := db.indexes[name].documents;
        InOrderAscends(documents.Keys);
        MatchedIdsAscend(name, documents, InOrder(documents.Keys), query);
        var before, more := MatchedNames(db, names[..n], query).value,
          MatchedIds(name, documents, InOrder(documents.Keys), query).value;
        assert forall m :: m in names[..n] ==> Less(m, name);
        JoinInOrder(before, more, name);
        assert name in names && forall m :: m in names[..n] ==> m in names;
      }
    }
  }

  lemma NoneInOrder()
    ensures InAddressOrder([])
  {
  }

  /** They come index by index and id by id, so that it is settled which of them is the last. */
  lemma MatchedInAddressOrder(db: Database, requested: seq<string>, query: StoredDocument -> Result<bool>)
    requires NamesAgree(db) && Matched(db, requested, query).Ok?
    ensures InAddressOrder(Matched(db, requested, query).value)
  {
    hide InOrder, Less, SelectedNames, MatchedNames;
    var selected := SelectedNames(db, requested).value;
    InOrderAscends(selected);
    MatchedNamesAscend(db, InOrder(selected), query);
  }

  ghost predicate Among(docs: seq<MatchedDoc>, name: string, id: string) {
    exists j :: 0 <= j < |docs| && docs[j].index == name && docs[j].id == id
  }

  lemma {:induction false} IdsMatchExactlyWhen(name: string, documents: map<string, StoredDocument>, ids: seq<string>,
                                               query: StoredDocument -> Result<bool>)
    requires forall id :: id in ids ==> id in documents
    ensures MatchedIds(name, documents, ids, query).Ok? <==> forall id :: id in ids ==> query(documents[id]).Ok?
  {
    if ids != [] {
      var n := |ids| - 1;
      IdsMatchExactlyWhen(name, documents, ids[..n], query);
      assert ids[n] in ids && forall id :: id in ids <==> id in ids[..n] || id == ids[n];
    }
  }

  /** The query can say yes or no to every document of an index. */
  ghost predicate Answers(db: Database, query: StoredDocument -> Result<bool>, name: string) {
    forall id :: HasDocument(db, name, id) ==> query(db.indexes[name].documents[id]).Ok?
  }

  lemma {:induction false} NamesMatchExactlyWhen(db: Database, names: seq<string>,
                                                 query: StoredDocument -> Result<bool>)
    ensures MatchedNames(db, names, query).Ok? <==> forall n :: n in names ==> Answers(db, query, n)
  {
    hide MatchedIds, InOrder;
    if names != [] {
      var n := |names| - 1;
      NamesMatchExactlyWhen(db, names[..n], query);
      assert names[n] in names && forall x :: x in names <==> x in names[..n] || x == names[n];
      if names[n] in db.indexes {
        var documents := db.indexes[names[n]].documents;
        IdsMatchExactlyWhen(names[n], documents, InOrder(documents.Keys), query);
        assert forall id :: id in InOrder(documents.Keys) <==> HasDocument(db, names[n], id);
      }
    }
  }

  /** Matching goes through exactly when every part without a star selects something and the
      query answers for every document selected. */
  lemma MatchedOkExactlyWhen(db: Database, requested: seq<string>, query: StoredDocument -> Result<bool>)
    requires NamesAgree(db)
    ensures Matched(db, requested, query).Ok? <==>
      !NamesUnknown(db, requested) && forall n :: Selects(db, requested, n) ==> Answers(db, query, n)
  {
    hide NamesAgree, SelectedNames, MatchedNames, InOrder, NamesUnknown, Selects, Answers;
    SelectedExactlyWhen(db, requested);
    if SelectedNames(db, requested).Ok? {
      NamesMatchExactlyWhen(db, InOrder(SelectedNames(db, requested).value), query);
    }
  }

  /** The request asks for this document: its index is selected and the query says yes. */
  ghost predicate Asked(db: Database, requested: seq<string>, query: StoredDocument -> Result<bool>, name: string,
                        id: string)
  {
    Selects(db, requested, name) && HasDocument(db, name, id) && query(db.indexes[name].documents[id]) == Ok(true)
  }

  lemma MatchedExactlyWhenAsked(db: Database, requested: seq<string>, query: StoredDocument -> Result<bool>)
    requires NamesAgree(db) && Matched(db, requested, query).Ok?
    ensures forall name, id ::
              Among(Matched(db, requested, query).value, name, id) <==> Asked(db, requested, query, name, id)
  {
    hide NamesAgree, Matched, Selects;
    MatchedIsEvery(db, requested, query);
    var docs := Matched(db, requested, query).value;
    forall name, id ensures Among(docs, name, id) <==> Asked(db, requested, query, name, id) {
      if Among(docs, name, id) {
        var j :| 0 <= j < |docs| && docs[j].index == name && docs[j].id == id;
        assert Found(db, docs[j]);
      }
      if Asked(db, requested, query, name, id) {
        assert MatchedDoc(name, id, db.indexes[name].documents[id].source) in docs;
      }
    }
  }

  // ----- Counting what happened -----

  function Tally(outcomes: seq<WriteOutcome>): Counts {
    if outcomes == [] then Counts(0, 0, 0) else
    var c := Tally(outcomes[..|outcomes| - 1]);
    match outcomes[|outcomes| - 1]
    case Document(document) =>
      if document.version == 1 then c.(created := c.created + 1) else c.(updated := c.updated + 1)
    case Deleted(found) => if found then c.(deleted := c.deleted + 1) else c
  }

  /** Counts created, updated and deleted documents. */
  method CountOutcomes(outcomes: seq<WriteOutcome>) returns (c: Counts)
    ensures c == Tally(outcomes)
  {
    c := Counts(0, 0, 0);
    var i := 0;
    while i < |outcomes|
      invariant 0 <= i <= |outcomes| && c == Tally(outcomes[..i])
    {
      assert outcomes[..i + 1][..i] == outcomes[..i];
      match outcomes[i] {
        case Document(document) =>
          if document.version == 1 { c := c.(created := c.created + 1); } else { c := c.(updated := c.updated + 1); }
        case Deleted(found) =>
          if found { c := c.(deleted := c.deleted + 1); }
      }
      i := i + 1;
    }
    assert outcomes[..|outcomes|] == outcomes;
  }

  predicate WasCreated(outcome: WriteOutcome) {
    outcome.Document? && outcome.document.version == 1
  }

  predicate WasUpdated(outcome: WriteOutcome) {
    outcome.Document? && outcome.document.version != 1
  }

  /** The positions whose outcome is of a kind. */
  ghost function Places(outcomes: seq<WriteOutcome>, kind: WriteOutcome -> bool): set<int> {
    set i | 0 <= i < |outcomes| && kind(outcomes[i])
  }

  lemma OneMorePlace(outcomes: seq<WriteOutcome>, kind: WriteOutcome -> bool)
    requires outcomes != []
    ensures var n := |outcomes| - 1;
            |Places(outcomes, kind)| == |Places(outcomes[..n], kind)| + if kind(outcomes[n]) then 1 else 0
  {
    var n := |outcomes| - 1;
    assert Places(outcomes, kind) == Places(outcomes[..n], kind) + if kind(outcomes[n]) then {n} else {};
  }

  /** A document of version 1 was created, one of a later version updated; a delete counts
      when it found something. */
  lemma {:induction false} TallyCounts(outcomes: seq<WriteOutcome>)
    ensures Tally(outcomes).created == |Places(outcomes, WasCreated)|
    ensures Tally(outcomes).updated == |Places(outcomes, WasUpdated)|
    ensures Tally(outcomes).deleted == |Places(outcomes, outcome => outcome == Deleted(true))|
  {
    if outcomes == [] {
      assert forall kind :: Places(outcomes, kind) == {};
    } else {
      TallyCounts(outcomes[..|outcomes| - 1]);
      OneMorePlace(outcomes, WasCreated);
      OneMorePlace(outcomes, WasUpdated);
      OneMorePlace(outcomes, outcome => outcome == Deleted(true));
    }
  }

  lemma {:induction false} TallyOf(outcomes: seq<WriteOutcome>)
    ensures var c := Tally(outcomes);
      ((forall i :: 0 <= i < |outcomes| ==> outcomes[i] != Deleted(false)) ==>
        c.created + c.updated + c.deleted == |outcomes|)
      && ((forall i :: 0 <= i < |outcomes| ==> outcomes[i] == Deleted(true)) ==> c == Counts(0, 0, |outcomes|))
      && ((forall i :: 0 <= i < |outcomes| ==> outcomes[i].Document?) ==> c.deleted == 0)
      && ((forall i :: 0 <= i < |outcomes| && outcomes[i].Document? ==> outcomes[i].document.version == 1) ==>
        c.updated == 0)
      && ((forall i :: 0 <= i < |outcomes| && outcomes[i].Document? ==> outcomes[i].document.version != 1) ==>
        c.created == 0)
  {
    if outcomes != [] {
      TallyOf(outcomes[..|outcomes| - 1]);
    }
  }

  // ----- Deletes and updates of what is there -----

  /** Deletes and rewrites of distinct documents that are there. */
  ghost predicate Targets(db: Database, ops: seq<WriteOperation>) {
    (forall i :: 0 <= i < |ops| ==> (ops[i].DeleteOp? || ops[i].IndexOp?) && HasDocument(db, ops[i].index, ops[i].id))
    && forall i, j :: 0 <= i < j < |ops| ==> ops[i].index != ops[j].index || ops[i].id != ops[j].id
  }

  ghost predicate TouchedAsAsked(op: WriteOperation, outcome: WriteOutcome) {
    if op.DeleteOp? then outcome == Deleted(true) else outcome.Document? && outcome.document.version != 1
  }

  /** What a delete or a rewrite asks to be stored. */
  function Wanted(op: WriteOperation): Option<Value> {
    if op.IndexOp? || op.CreateOp? then Some(op.source) else None
  }

  lemma TargetIsStored(db: Database, op: WriteOperation, m: Mutation)
    requires HasDocument(db, op.index, op.id)
    requires
      (op.DeleteOp? && m == DeleteDocument(op.index, op.id)) ||
      (op.IndexOp? && m == IndexDocument(op.index, op.id, op.source))
    ensures StoredAsAsked(db, Applied(db, m), op.index, op.id, Wanted(op))
  {
  }

  lemma PreparedForTarget(db: Database, op: WriteOperation)
    requires (op.DeleteOp? || op.IndexOp?) && HasDocument(db, op.index, op.id)
    ensures Prepare(db, op).Ok?
    ensures Prepare(db, op).value ==
      if op.DeleteOp? then PreparedWrite([DeleteDocument(op.index, op.id)], DeletedIf(true))
      else PreparedWrite([IndexDocument(op.index, op.id, op.source)], DocumentAt(op.index, op.id))
  {
    hide TemplateConfig, TemplatesInOrder;
  }

  lemma TouchOne(limits: StoreLimits, st: Batch, op: WriteOperation)
    requires Sound(st.db) && (op.DeleteOp? || op.IndexOp?) && HasDocument(st.db, op.index, op.id)
    requires AtomicStep(limits, st, op).Ok?
    ensures
      var next := AtomicStep(limits, st, op).value;
      Sound(next.db) && |next.outcomes| == |st.outcomes| + 1 && next.outcomes[..|st.outcomes|] == st.outcomes
      && TouchedAsAsked(op, next.outcomes[|st.outcomes|])
      && StoredAsAsked(st.db, next.db, op.index, op.id, Wanted(op))
  {
    hide Prepare, Sound, AdmitOne, Applied, StoredAsAsked;
    PreparedForTarget(st.db, op);
    var ms := Prepare(st.db, op).value.mutations;
    PreparedWriteResolves(limits, st.db, op);
    AdmittedIsApplied(limits, st.db, ms);
    ApplyUpToTwo(st.db, ms);
    TargetIsStored(st.db, op, ms[0]);
  }

  ghost predicate Untouched(ops: seq<WriteOperation>, name: string, id: string) {
    forall i :: 0 <= i < |ops| ==> ops[i].index != name || ops[i].id != id
  }

  /** Writes to distinct documents that are there each report what they did, each store what
      they ask, and nothing else changes. */
  lemma {:induction false} TouchedOnce(limits: StoreLimits, before: Database, ops: seq<WriteOperation>)
    requires Sound(before) && Targets(before, ops) && RunAtomic(limits, before, ops).Ok?
    ensures
      var st := RunAtomic(limits, before, ops).value;
      Sound(st.db) && |st.outcomes| == |ops|
      && (forall i :: 0 <= i < |ops| ==> TouchedAsAsked(ops[i], st.outcomes[i]))
      && (forall i :: 0 <= i < |ops| ==> StoredAt(st.db, ops[i].index, ops[i].id) == Wanted(ops[i]))
      && forall name, id :: Untouched(ops, name, id) ==> StoredAt(st.db, name, id) == StoredAt(before, name, id)
  {
    hide AtomicStep, Sound, TouchedAsAsked, HasDocument, Wanted;
    if ops != [] {
      var n := |ops| - 1;
      TouchedOnce(limits, before, ops[..n]);
      var st := RunAtomic(limits, before, ops[..n]).value;
      assert StoredAt(st.db, ops[n].index, ops[n].id) == StoredAt(before, ops[n].index, ops[n].id);
      TouchOne(limits, st, ops[n]);
      forall i | 0 <= i < n ensures TouchedAsAsked(ops[i], AtomicStep(limits, st, ops[n]).value.outcomes[i]) {
        assert st.outcomes[i] == AtomicStep(limits, st, ops[n]).value.outcomes[..n][i];
      }
    }
  }

  // ----- When writes to what is there go through -----

  /** The one mutation a delete or a rewrite of a stored document is. */
  function MutationOf(op: WriteOperation): Mutation
    requires op.DeleteOp? || op.IndexOp?
  {
    if op.DeleteOp? then DeleteDocument(op.index, op.id) else IndexDocument(op.index, op.id, op.source)
  }

  /** It fits the memory limit, and the index of a rewrite has a name. */
  ghost predicate Fits(limits: StoreLimits, db: Database, op: WriteOperation)
    requires op.DeleteOp? || op.IndexOp?
  {
    DatabaseBytes(Applied(db, MutationOf(op))) <= limits.memoryLimitBytes
    && (op.IndexOp? && op.index in db.indexes ==> Admission.HasText(db.indexes[op.index].name))
  }

  lemma TargetAcceptedExactlyWhen(limits: StoreLimits, st: Batch, op: WriteOperation)
    requires Sound(st.db) && (op.DeleteOp? || op.IndexOp?) && HasDocument(st.db, op.index, op.id)
    ensures AtomicStep(limits, st, op).Ok? <==> Fits(limits, st.db, op)
    ensures AtomicStep(limits, st, op).Ok? ==>
      AtomicStep(limits, st, op).value.db == Applied(st.db, MutationOf(op))
      && AtomicStep(limits, st, op).value.mutations == st.mutations + [MutationOf(op)]
  {
    hide Prepare, Sound, AdmitOne, Applied, Outcome, DatabaseBytes, Admission.HasText, Admission.Documents;
    PreparedForTarget(st.db, op);
    var ms := Prepare(st.db, op).value.mutations;
    AdmitOneOrTwo(limits, st.db, ms);
    Admission.AdmittedExactlyWhen(limits, st.db, ms[0]);
    if Admit(limits, st.db, ms).Ok? {
      PreparedWriteResolves(limits, st.db, op);
    }
  }

  ghost predicate FitsInTurn(limits: StoreLimits, before: Database, ops: seq<WriteOperation>, i: nat)
    requires i < |ops| && (ops[i].DeleteOp? || ops[i].IndexOp?)
  {
    RunAtomic(limits, before, ops[..i]).Ok? && Fits(limits, RunAtomic(limits, before, ops[..i]).value.db, ops[i])
  }

  /** Deletes and rewrites of distinct stored documents go through exactly when each fits
      after those before it; each is logged. */
  lemma {:induction false} TargetsGoThroughExactlyWhen(limits: StoreLimits, before: Database, ops: seq<WriteOperation>)
    requires Sound(before) && Targets(before, ops)
    ensures RunAtomic(limits, before, ops).Ok? <==> forall i :: 0 <= i < |ops| ==> FitsInTurn(limits, before, ops, i)
    ensures RunAtomic(limits, before, ops).Ok? ==> |RunAtomic(limits, before, ops).value.mutations| == |ops|
  {
    hide AtomicStep, Sound, HasDocument, Fits;
    if ops != [] {
      var n := |ops| - 1;
      TargetsGoThroughExactlyWhen(limits, before, ops[..n]);
      forall i | 0 <= i < n ensures FitsInTurn(limits, before, ops[..n], i) <==> FitsInTurn(limits, before, ops, i) {
        assert ops[..n][..i] == ops[..i];
      }
      if RunAtomic(limits, before, ops[..n]).Ok? {
        var st := RunAtomic(limits, before, ops[..n]).value;
        LastIsThere(limits, before, ops);
        TargetAcceptedExactlyWhen(limits, st, ops[n]);
        assert FitsInTurn(limits, before, ops, n) <==> RunAtomic(limits, before, ops).Ok?;
      }
    }
  }

  lemma LastIsThere(limits: StoreLimits, before: Database, ops: seq<WriteOperation>)
    requires Sound(before) && Targets(before, ops) && ops != [] && RunAtomic(limits, before, ops[..|ops| - 1]).Ok?
    ensures var db := RunAtomic(limits, before, ops[..|ops| - 1]).value.db;
            var op := ops[|ops| - 1];
            Sound(db) && HasDocument(db, op.index, op.id)
            && StoredAt(db, op.index, op.id) == StoredAt(before, op.index, op.id)
  {
    hide RunAtomic, Sound;
    var n := |ops| - 1;
    TouchedOnce(limits, before, ops[..n]);
    assert Untouched(ops[..n], ops[n].index, ops[n].id);
  }

  // ----- Delete by query -----

  function DeletePlan(docs: seq<MatchedDoc>): seq<WriteOperation> {
    seq(|docs|, i requires 0 <= i < |docs| => DeleteOp(docs[i].index, docs[i].id))
  }

  /** One delete for each match. */
  method PlanDelete(docs: seq<MatchedDoc>) returns (ops: seq<WriteOperation>)
    ensures ops == DeletePlan(docs)
  {
    ops := [];
    var i := 0;
    while i < |docs|
      invariant 0 <= i <= |docs| && ops == DeletePlan(docs)[..i]
    {
      ops := ops + [DeleteOp(docs[i].index, docs[i].id)];
      i := i + 1;
    }
  }

  /** These documents are gone, and nothing else has changed. */
  ghost predicate Removed(before: Database, after: Database, docs: seq<MatchedDoc>) {
    forall name, id :: StoredAt(after, name, id) == if Among(docs, name, id) then None else StoredAt(before, name, id)
  }

  /** Delete by query removes what matched and nothing else. */
  lemma DeleteByQueryRemovesExactly(limits: StoreLimits, before: Database, docs: seq<MatchedDoc>)
    requires Sound(before) && DistinctlyFound(before, docs) && RunAtomic(limits, before, DeletePlan(docs)).Ok?
    ensures Removed(before, RunAtomic(limits, before, DeletePlan(docs)).value.db, docs)
  {
    hide Sound, HasDocument, RunAtomic, StoredAt;
    assert forall i :: 0 <= i < |docs| ==> Found(before, docs[i]);
    var ops := DeletePlan(docs);
    TouchedOnce(limits, before, ops);
    var after := RunAtomic(limits, before, ops).value.db;
    forall name, id
      ensures StoredAt(after, name, id) == if Among(docs, name, id) then None else StoredAt(before, name, id)
    {
      if Among(docs, name, id) {
        var j :| 0 <= j < |docs| && docs[j].index == name && docs[j].id == id;
        assert ops[j] == DeleteOp(name, id);
      } else {
        assert Untouched(ops, name, id);
      }
    }
  }

  lemma DeletesAreTargets(before: Database, docs: seq<MatchedDoc>)
    requires DistinctlyFound(before, docs)
    ensures Targets(before, DeletePlan(docs))
  {
    hide HasDocument;
    assert forall i :: 0 <= i < |docs| ==> Found(before, docs[i]);
  }

  /** Deletes only make room, so they all go through exactly when the first fits; it takes
      off 48 bytes and its document. */
  lemma {:induction false} DeletesGoThroughExactlyWhen(limits: StoreLimits, before: Database, docs: seq<MatchedDoc>)
    requires Sound(before) && Covered(before) && DistinctlyFound(before, docs)
    ensures
      var r := RunAtomic(limits, before, DeletePlan(docs));
      (r.Ok? <==> docs == [] || DatabaseBytes(before) <= limits.memoryLimitBytes + 48 + ValueBytes(docs[0].source))
      && (r.Ok? ==> |r.value.mutations| == |docs| && Covered(r.value.db))
      && (r.Ok? && docs != [] ==> DatabaseBytes(r.value.db) <= limits.memoryLimitBytes)
  {
    hide AtomicStep, Sound, Covered, DatabaseBytes, Applied, HasDocument;
    if docs != [] {
      var n := |docs| - 1;
      var ops := DeletePlan(docs);
      assert ops[..n] == DeletePlan(docs[..n]);
      DeletesAreTargets(before, docs);
      DeletesGoThroughExactlyWhen(limits, before, docs[..n]);
      TargetsGoThroughExactlyWhen(limits, before, ops);
      if RunAtomic(limits, before, ops[..n]).Ok? {
        LastIsThere(limits, before, ops);
        DeleteFitsExactlyWhen(limits, RunAtomic(limits, before, ops[..n]).value, ops[n], docs[n].source);
      }
    }
  }

  lemma DeleteFitsExactlyWhen(limits: StoreLimits, st: Batch, op: WriteOperation, source: Value)
    requires Sound(st.db) && Covered(st.db) && op.DeleteOp? && StoredAt(st.db, op.index, op.id) == Some(source)
    ensures
      var r := AtomicStep(limits, st, op);
      (r.Ok? <==> DatabaseBytes(st.db) <= limits.memoryLimitBytes + 48 + ValueBytes(source))
      && (r.Ok? ==> Covered(r.value.db) && DatabaseBytes(r.value.db) <= limits.memoryLimitBytes)
  {
    hide AtomicStep, Sound, Covered, DatabaseBytes, Applied;
    TargetAcceptedExactlyWhen(limits, st, op);
    Costs.DeletingCosts(st.db, MutationOf(op));
    MutationKeepsCovered(st.db, MutationOf(op));
  }

  /** Delete by query: everything that matched is reported deleted. */
  lemma DeleteByQueryConserves(limits: StoreLimits, before: Database, docs: seq<MatchedDoc>)
    requires Sound(before) && DistinctlyFound(before, docs) && RunAtomic(limits, before, DeletePlan(docs)).Ok?
    ensures Tally(RunAtomic(limits, before, DeletePlan(docs)).value.outcomes) == Counts(0, 0, |docs|)
  {
    hide Sound, HasDocument, RunAtomic, Tally;
    assert forall i :: 0 <= i < |docs| ==> Found(before, docs[i]);
    TouchedOnce(limits, before, DeletePlan(docs));
    TallyOf(RunAtomic(limits, before, DeletePlan(docs)).value.outcomes);
  }

  // ----- Update by query -----

  /** Removes a value from a list field: the document goes when nothing is left of the list. */
  function RemoveListValue(source: Value, field: string, target: string): Result<UpdateAction> {
    if !source.Object? then Err(StoreError(400, "script_exception"))
    else if field !in source.fields then Ok(DeleteIt)
    else if !source.fields[field].Array? then Err(StoreError(400, "script_exception"))
    else
      var values := source.fields[field].items;
      var retained := Without(values, Str(target));
      if |retained| == |values| then Ok(Noop)
      else if retained == [] then Ok(DeleteIt)
      else Ok(IndexIt(Object(source.fields[field := Array(retained)])))
  }

  function Without(values: seq<Value>, target: Value): seq<Value> {
    if values == [] then []
    else if values[0] == target then Without(values[1..], target)
    else [values[0]] + Without(values[1..], target)
  }

  lemma {:induction false} WithoutRemoves(values: seq<Value>, target: Value)
    ensures |Without(values, target)| <= |values|
    ensures |Without(values, target)| == |values| <==> target !in values
    ensures forall v :: v in Without(values, target) <==> v in values && v != target
  {
    if values != [] {
      WithoutRemoves(values[1..], target);
      assert values == [values[0]] + values[1..];
    }
  }

  /** What is kept is in its old order and as often as before, and is all but the target. */
  ghost predicate Keeps(before: seq<Value>, after: seq<Value>, target: Value) {
    multiset(after) == multiset(before)[target := 0] && Subsequence(after, before)
  }

  predicate Subsequence(part: seq<Value>, whole: seq<Value>) {
    part == []
    || (whole != [] && (Subsequence(part, whole[1..]) || (part[0] == whole[0] && Subsequence(part[1..], whole[1..]))))
  }

  lemma {:induction false} WithoutIsSubsequence(values: seq<Value>, target: Value)
    ensures Subsequence(Without(values, target), values)
  {
    if values != [] {
      WithoutIsSubsequence(values[1..], target);
      if values[0] != target {
        assert Without(values, target)[1..] == Without(values[1..], target);
      }
    }
  }

  lemma {:induction false} WithoutCounts(values: seq<Value>, target: Value)
    ensures multiset(Without(values, target)) == multiset(values)[target := 0]
  {
    if values != [] {
      WithoutCounts(values[1..], target);
      assert values == [values[0]] + values[1..];
    }
  }

  /** The same object but for one list, which has lost one value. */
  ghost predicate RewrittenWithout(before: Value, after: Value, field: string, target: string)
    requires before.Object? && field in before.fields && before.fields[field].Array?
  {
    after.Object? && after.fields.Keys == before.fields.Keys && after.fields[field].Array?
    && Keeps(before.fields[field].items, after.fields[field].items, Str(target))
    && forall k :: k in before.fields && k != field ==> after.fields[k] == before.fields[k]
  }

  /** The script fails exactly on what is no object or has something else than a list there.
      Otherwise: untouched exactly when the value is not listed, deleted exactly when there is
      no list or only the value in it, and else rewritten without it. */
  lemma RemoveListValueAnswers(source: Value, field: string, target: string)
    ensures RemoveListValue(source, field, target).Err? <==>
      !source.Object? || (field in source.fields && !source.fields[field].Array?)
    ensures RemoveListValue(source, field, target).Err? ==>
      RemoveListValue(source, field, target).error.status == 400
    ensures RemoveListValue(source, field, target).Ok? ==>
      var action := RemoveListValue(source, field, target).value;
      var listed := if field in source.fields then source.fields[field].items else [];
      (action == Noop <==> field in source.fields && Str(target) !in listed)
      && (action == DeleteIt <==>
            field !in source.fields || (Str(target) in listed && forall v :: v in listed ==> v == Str(target)))
      && (action.IndexIt? ==> RewrittenWithout(source, action.source, field, target))
  {
    if source.Object? && field in source.fields && source.fields[field].Array? {
      var listed := source.fields[field].items;
      WithoutRemoves(listed, Str(target));
      WithoutCounts(listed, Str(target));
      WithoutIsSubsequence(listed, Str(target));
      if Without(listed, Str(target)) == [] {
        forall v | v in listed ensures v == Str(target) {
          assert v != Str(target) ==> v in Without(listed, Str(target));
        }
      } else {
        assert Without(listed, Str(target))[0] in Without(listed, Str(target));
      }
    }
  }

  /** One delete or rewrite, in order, for every document but those left alone, and how many those are. */
  function UpdatePlan(docs: seq<MatchedDoc>,
                      action: Value -> Result<UpdateAction>): Result<(seq<WriteOperation>, nat)> {
    if docs == [] then Ok(([], 0))
    else
      var before, doc := UpdatePlan(docs[..|docs| - 1], action), docs[|docs| - 1];
      if before.Err? then before
      else
        var (ops, noops) := before.value;
        match action(doc.source)
        case Err(e) => Err(e)
        case Ok(Noop) => Ok((ops, noops + 1))
        case Ok(DeleteIt) => Ok((ops + [DeleteOp(doc.index, doc.id)], noops))
        case Ok(IndexIt(source)) => Ok((ops + [IndexOp(doc.index, doc.id, source)], noops))
  }

  lemma {:induction false} UpdateErrorStays(docs: seq<MatchedDoc>, action: Value -> Result<UpdateAction>, i: nat)
    requires i <= |docs| && UpdatePlan(docs[..i], action).Err?
    ensures UpdatePlan(docs, action) == UpdatePlan(docs[..i], action)
  {
    if i < |docs| {
      assert docs[..|docs| - 1][..i] == docs[..i];
      UpdateErrorStays(docs[..|docs| - 1], action, i);
    } else {
      assert docs[..i] == docs;
    }
  }

  /** One write for each match the script changes; the rest are counted as left alone. */
  method PlanUpdate(docs: seq<MatchedDoc>, action: Value -> Result<UpdateAction>)
    returns (r: Result<(seq<WriteOperation>, nat)>)
    ensures r == UpdatePlan(docs, action)
  {
    var ops: seq<WriteOperation> := [];
    var noops := 0;
    var i := 0;
    while i < |docs|
      invariant 0 <= i <= |docs| && UpdatePlan(docs[..i], action) == Ok((ops, noops))
    {
      assert docs[..i + 1][..i] == docs[..i];
      var asked := action(docs[i].source);
      if asked.Err? {
        UpdateErrorStays(docs, action, i + 1);
        return Err(asked.error);
      }
      match asked.value {
        case DeleteIt => ops := ops + [DeleteOp(docs[i].index, docs[i].id)];
        case IndexIt(source) => ops := ops + [IndexOp(docs[i].index, docs[i].id, source)];
        case Noop => noops := noops + 1;
      }
      i := i + 1;
    }
    assert docs[..|docs|] == docs;
    return Ok((ops, noops));
  }

  lemma {:induction false} UpdatePlanTargets(db: Database, docs: seq<MatchedDoc>, action: Value -> Result<UpdateAction>)
    requires DistinctlyFound(db, docs) && UpdatePlan(docs, action).Ok?
    ensures var (ops, noops) := UpdatePlan(docs, action).value;
            Targets(db, ops) && |ops| + noops == |docs|
            && forall i :: 0 <= i < |ops| ==> Among(docs, ops[i].index, ops[i].id)
  {
    hide HasDocument;
    if docs != [] {
      var n := |docs| - 1;
      assert Found(db, docs[n]) && DistinctlyFound(db, docs[..n]);
      UpdatePlanTargets(db, docs[..n], action);
      var (ops, noops) := UpdatePlan(docs[..n], action).value;
      forall i | 0 <= i < |ops|
        ensures Among(docs, ops[i].index, ops[i].id) && (ops[i].index != docs[n].index || ops[i].id != docs[n].id) {
        var j :| 0 <= j < n && docs[..n][j].index == ops[i].index && docs[..n][j].id == ops[i].id;
        assert docs[j] == docs[..n][j];
      }
      assert Among(docs, docs[n].index, docs[n].id);
    }
  }

  /** Update by query: updated, deleted and left alone make up everything that matched, and nothing is created. */
  lemma UpdateByQueryConserves(
      limits: StoreLimits, before: Database, docs: seq<MatchedDoc>, action: Value -> Result<UpdateAction>)
    requires Sound(before) && DistinctlyFound(before, docs) && UpdatePlan(docs, action).Ok?
    requires RunAtomic(limits, before, UpdatePlan(docs, action).value.0).Ok?
    ensures
      var (ops, noops) := UpdatePlan(docs, action).value;
      var c := Tally(RunAtomic(limits, before, ops).value.outcomes);
      c.updated + c.deleted + noops == |docs| && c.created == 0
  {
    hide Sound, RunAtomic, Tally, Targets, UpdatePlan, Found;
    UpdatePlanTargets(before, docs, action);
    var ops := UpdatePlan(docs, action).value.0;
    TouchedOnce(limits, before, ops);
    TallyOf(RunAtomic(limits, before, ops).value.outcomes);
  }

  /** What is stored for a match once the script has answered. */
  function Answered(doc: MatchedDoc, action: Value -> Result<UpdateAction>): Option<Value> {
    match action(doc.source)
    case Ok(DeleteIt) => None
    case Ok(IndexIt(source)) => Some(source)
    case _ => Some(doc.source)
  }

  /** The plan writes the script's answer, or leaves alone what the answer leaves alone. */
  ghost predicate Serves(ops: seq<WriteOperation>, doc: MatchedDoc, action: Value -> Result<UpdateAction>) {
    (exists i :: 0 <= i < |ops| && ops[i].index == doc.index && ops[i].id == doc.id
                 && Wanted(ops[i]) == Answered(doc, action))
    || (Untouched(ops, doc.index, doc.id) && Answered(doc, action) == Some(doc.source))
  }

  lemma ServesOneMore(
      ops: seq<WriteOperation>, op: WriteOperation, doc: MatchedDoc, action: Value -> Result<UpdateAction>)
    requires Serves(ops, doc, action) && (op.index != doc.index || op.id != doc.id)
    ensures Serves(ops + [op], doc, action)
  {
    if !Untouched(ops, doc.index, doc.id) {
      var i :| 0 <= i < |ops| && ops[i].index == doc.index && ops[i].id == doc.id
        && Wanted(ops[i]) == Answered(doc, action);
      assert (ops + [op])[i] == ops[i];
    }
  }

  lemma {:induction false} UpdatePlanServes(db: Database, docs: seq<MatchedDoc>, action: Value -> Result<UpdateAction>)
    requires DistinctlyFound(db, docs) && UpdatePlan(docs, action).Ok?
    ensures forall j :: 0 <= j < |docs| ==> Serves(UpdatePlan(docs, action).value.0, docs[j], action)
  {
    hide Serves, Found, Targets;
    if docs != [] {
      var n := |docs| - 1;
      UpdatePlanServes(db, docs[..n], action);
      UpdatePlanTargets(db, docs[..n], action);
      var before, after := UpdatePlan(docs[..n], action).value.0, UpdatePlan(docs, action).value.0;
      forall j | 0 <= j < |docs| ensures Serves(after, docs[j], action) {
        if j == n {
          LastIsServed(docs, action, before);
        } else {
          assert Serves(before, docs[..n][j], action);
          if after != before {
            ServesOneMore(before, after[|before|], docs[j], action);
          }
        }
      }
    }
  }

  lemma {:induction false} LastIsServed(docs: seq<MatchedDoc>, action: Value -> Result<UpdateAction>,
                                        before: seq<WriteOperation>)
    requires docs != [] && UpdatePlan(docs, action).Ok?
    requires before == UpdatePlan(docs[..|docs| - 1], action).value.0
    requires forall i :: 0 <= i < |before| ==> Among(docs[..|docs| - 1], before[i].index, before[i].id)
    requires !Among(docs[..|docs| - 1], docs[|docs| - 1].index, docs[|docs| - 1].id)
    ensures Serves(UpdatePlan(docs, action).value.0, docs[|docs| - 1], action)
  {
    var doc, after := docs[|docs| - 1], UpdatePlan(docs, action).value.0;
    if after == before {
      assert Untouched(after, doc.index, doc.id);
    } else {
      assert after[|before|].index == doc.index;
    }
  }

  /** What is stored for these documents is the script's answer, and nothing else has changed. */
  ghost predicate Rewritten(
    before: Database, after: Database, docs: seq<MatchedDoc>, action: Value -> Result<UpdateAction>)
  {
    (forall j :: 0 <= j < |docs| ==> StoredAt(after, docs[j].index, docs[j].id) == Answered(docs[j], action))
    && forall name, id :: !Among(docs, name, id) ==> StoredAt(after, name, id) == StoredAt(before, name, id)
  }

  /** Update by query stores the script's answer for every match and changes nothing else. */
  lemma UpdateByQueryStoresAnswers(
      limits: StoreLimits, before: Database, docs: seq<MatchedDoc>, action: Value -> Result<UpdateAction>)
    requires Sound(before) && DistinctlyFound(before, docs) && UpdatePlan(docs, action).Ok?
    requires RunAtomic(limits, before, UpdatePlan(docs, action).value.0).Ok?
    ensures Rewritten(before, RunAtomic(limits, before, UpdatePlan(docs, action).value.0).value.db, docs, action)
  {
    hide Sound, RunAtomic, UpdatePlan, Targets;
    UpdatePlanTargets(before, docs, action);
    UpdatePlanServes(before, docs, action);
    var ops := UpdatePlan(docs, action).value.0;
    TouchedOnce(limits, before, ops);
    var after := RunAtomic(limits, before, ops).value.db;
    forall j | 0 <= j < |docs| ensures StoredAt(after, docs[j].index, docs[j].id) == Answered(docs[j], action) {
      assert Serves(ops, docs[j], action) && Found(before, docs[j]);
    }
    forall name, id | !Among(docs, name, id) ensures StoredAt(after, name, id) == StoredAt(before, name, id) {
      assert Untouched(ops, name, id);
    }
  }

  /** The script is refused exactly when it fails on some match. */
  lemma {:induction false} UpdatePlanExactlyWhen(docs: seq<MatchedDoc>, action: Value -> Result<UpdateAction>)
    ensures UpdatePlan(docs, action).Ok? <==> forall i :: 0 <= i < |docs| ==> action(docs[i].source).Ok?
  {
    if docs != [] {
      var n := |docs| - 1;
      UpdatePlanExactlyWhen(docs[..n], action);
      assert forall i :: 0 <= i < n ==> docs[..n][i] == docs[i];
    }
  }

  // ----- Reindex -----

  predicate DocumentExists(db: Database, name: string, id: string) {
    ResolveIndex(db, name).Some? && HasDocument(db, ResolveIndex(db, name).value, id)
  }

  /** A create of this id conflicts: the destination has it, or an earlier document asks for it. */
  predicate Taken(db: Database, dest: string, newId: MatchedDoc -> Result<string>, earlier: seq<MatchedDoc>,
                  id: string) {
    DocumentExists(db, dest, id) || exists i :: 0 <= i < |earlier| && newId(earlier[i]) == Ok(id)
  }

  datatype Reindexing = Reindexing(db: Database, dest: string, opType: ReindexOpType, conflictsProceed: bool)

  /** Each document's write, under its new id and with its source, unless its id is taken;
      and how many were passed over for that. */
  function ReindexPlan(r: Reindexing, docs: seq<MatchedDoc>, newId: MatchedDoc -> Result<string>)
    : Result<(seq<WriteOperation>, nat)>
  {
    if docs == [] then Ok(([], 0))
    else
      var earlier, doc := docs[..|docs| - 1], docs[|docs| - 1];
      var before := ReindexPlan(r, earlier, newId);
      if before.Err? then before
      else
        var (ops, conflicts) := before.value;
        match newId(doc)
        case Err(e) => Err(e)
        case Ok(id) =>
          if r.opType.ReindexIndex? then Ok((ops + [IndexOp(r.dest, id, doc.source)], conflicts))
          else if !Taken(r.db, r.dest, newId, earlier, id) then
            Ok((ops + [CreateOp(r.dest, id, doc.source)], conflicts))
          else if r.conflictsProceed then Ok((ops, conflicts + 1))
          else Err(VersionConflict())
  }

  /** A reindex is refused exactly when some new id cannot be made, or a create meets a taken
      id and conflicts do not proceed. */
  lemma {:induction false} ReindexPlanExactlyWhen(r: Reindexing, docs: seq<MatchedDoc>,
                                                  newId: MatchedDoc -> Result<string>)
    ensures ReindexPlan(r, docs, newId).Ok? <==> forall i :: 0 <= i < |docs| ==> Proceeds(r, docs, newId, i)
  {
    hide Taken;
    if docs != [] {
      var n := |docs| - 1;
      ReindexPlanExactlyWhen(r, docs[..n], newId);
      forall i | 0 <= i < n ensures Proceeds(r, docs[..n], newId, i) <==> Proceeds(r, docs, newId, i) {
        assert docs[..n][..i] == docs[..i];
      }
      assert ReindexPlan(r, docs[..n], newId).Ok? ==>
          (ReindexPlan(r, docs, newId).Ok? <==> Proceeds(r, docs, newId, n));
    }
  }

  ghost predicate Proceeds(r: Reindexing, docs: seq<MatchedDoc>, newId: MatchedDoc -> Result<string>, i: nat)
    requires i < |docs|
  {
    newId(docs[i]).Ok?
    && (r.opType.ReindexCreate? && !r.conflictsProceed ==>
          !Taken(r.db, r.dest, newId, docs[..i], newId(docs[i]).value))
  }

  lemma {:induction false} WritesAreLogged(limits: StoreLimits, before: Database, ops: seq<WriteOperation>)
    requires RunAtomic(limits, before, ops).Ok? && forall i :: 0 <= i < |ops| ==> ops[i].IndexOp? || ops[i].CreateOp?
    ensures |RunAtomic(limits, before, ops).value.mutations| >= |ops|
  {
    hide Admit, Outcome, Prepare;
    if ops != [] {
      var n := |ops| - 1;
      WritesAreLogged(limits, before, ops[..n]);
      PreparedStore(RunAtomic(limits, before, ops[..n]).value.db, ops[n]);
    }
  }

  lemma {:induction false} ReindexErrorStays(r: Reindexing, docs: seq<MatchedDoc>,
                                             newId: MatchedDoc -> Result<string>, i: nat)
    requires i <= |docs| && ReindexPlan(r, docs[..i], newId).Err?
    ensures ReindexPlan(r, docs, newId) == ReindexPlan(r, docs[..i], newId)
  {
    hide Taken;
    if i < |docs| {
      assert docs[..|docs| - 1][..i] == docs[..i];
      ReindexErrorStays(r, docs[..|docs| - 1], newId, i);
    } else {
      assert docs[..i] == docs;
    }
  }

  /** The planned ids are those asked for so far that the destination does not have. */
  ghost predicate PlannedIds(r: Reindexing, newId: MatchedDoc -> Result<string>, earlier: seq<MatchedDoc>,
                             planned: set<string>) {
    forall id :: id in planned <==> !DocumentExists(r.db, r.dest, id) && Taken(r.db, r.dest, newId, earlier, id)
  }

  lemma OneMorePlanned(r: Reindexing, newId: MatchedDoc -> Result<string>, earlier: seq<MatchedDoc>, doc: MatchedDoc,
                       planned: set<string>)
    requires PlannedIds(r, newId, earlier, planned) && newId(doc).Ok?
    ensures
      var id := newId(doc).value;
      PlannedIds(r, newId, earlier + [doc], if Taken(r.db, r.dest, newId, earlier, id) then planned else planned + {id})
  {
    hide DocumentExists;
    var longer := earlier + [doc];
    forall id ensures Taken(r.db, r.dest, newId, longer, id) <==>
        Taken(r.db, r.dest, newId, earlier, id) || id == newId(doc).value
    {
      assert longer[|earlier|] == doc;
      if Taken(r.db, r.dest, newId, earlier, id) && !DocumentExists(r.db, r.dest, id) {
        var i :| 0 <= i < |earlier| && newId(earlier[i]) == Ok(id);
        assert longer[i] == earlier[i];
      }
      assert newId(doc) == Ok(newId(doc).value);
    }
  }

  lemma NonePlanned(r: Reindexing, newId: MatchedDoc -> Result<string>)
    ensures PlannedIds(r, newId, [], {})
  {
    hide DocumentExists;
  }

  method PlanReindex(r: Reindexing, docs: seq<MatchedDoc>, newId: MatchedDoc -> Result<string>)
    returns (plan: Result<(seq<WriteOperation>, nat)>)
    ensures plan == ReindexPlan(r, docs, newId)
  {
    hide DocumentExists, Taken, PlannedIds;
    var ops: seq<WriteOperation> := [];
    var plannedCreateIds: set<string> := {};
    var conflicts := 0;
    NonePlanned(r, newId);
    var i := 0;
    while i < |docs|
      invariant 0 <= i <= |docs| && ReindexPlan(r, docs[..i], newId) == Ok((ops, conflicts))
      invariant r.opType.ReindexCreate? ==> PlannedIds(r, newId, docs[..i], plannedCreateIds)
    {
      assert docs[..i + 1] == docs[..i] + [docs[i]] && docs[..i + 1][..i] == docs[..i];
      var id := newId(docs[i]);
      if id.Err? {
        ReindexErrorStays(r, docs, newId, i + 1);
        return Err(id.error);
      }
      if r.opType.ReindexCreate? {
        TakenIsPlanned(r, newId, docs[..i], plannedCreateIds, id.value);
        OneMorePlanned(r, newId, docs[..i], docs[i], plannedCreateIds);
        if DocumentExists(r.db, r.dest, id.value) || id.value in plannedCreateIds {
          conflicts := conflicts + 1;
          if !r.conflictsProceed {
            ReindexErrorStays(r, docs, newId, i + 1);
            return Err(VersionConflict());
          }
        } else {
          plannedCreateIds := plannedCreateIds + {id.value};
          ops := ops + [CreateOp(r.dest, id.value, docs[i].source)];
        }
      } else {
        ops := ops + [IndexOp(r.dest, id.value, docs[i].source)];
      }
      i := i + 1;
    }
    assert docs[..|docs|] == docs;
    return Ok((ops, conflicts));
  }

  lemma TakenIsPlanned(r: Reindexing, newId: MatchedDoc -> Result<string>, earlier: seq<MatchedDoc>,
                       planned: set<string>, id: string)
    requires PlannedIds(r, newId, earlier, planned)
    ensures DocumentExists(r.db, r.dest, id) || id in planned <==> Taken(r.db, r.dest, newId, earlier, id)
  {
    hide DocumentExists;
  }

  /** Whose write this is: the document's own, under its new id, which no one had before it. */
  ghost predicate WriteOf(r: Reindexing, docs: seq<MatchedDoc>, newId: MatchedDoc -> Result<string>, i: nat,
                          op: WriteOperation)
    requires i < |docs|
  {
    newId(docs[i]).Ok?
    && if r.opType.ReindexIndex? then op == IndexOp(r.dest, newId(docs[i]).value, docs[i].source)
       else op == CreateOp(r.dest, newId(docs[i]).value, docs[i].source)
            && !Taken(r.db, r.dest, newId, docs[..i], newId(docs[i]).value)
  }

  /** Every write of the plan is some document's, and every document not passed over has one. */
  lemma {:induction false} ReindexPlanIsTheDocuments(r: Reindexing, docs: seq<MatchedDoc>,
                                                     newId: MatchedDoc -> Result<string>)
    requires ReindexPlan(r, docs, newId).Ok?
    ensures
      var (ops, conflicts) := ReindexPlan(r, docs, newId).value;
      |ops| + conflicts == |docs|
      && (forall op :: op in ops ==> exists i :: 0 <= i < |docs| && WriteOf(r, docs, newId, i, op))
      && (forall i, op :: 0 <= i < |docs| && WriteOf(r, docs, newId, i, op) ==> op in ops)
      && (r.opType.ReindexIndex? ==> conflicts == 0 && RewritesOnly(r.dest, ops))
      && (r.opType.ReindexCreate? ==> CreatesOnly(r.db, r.dest, ops))
      && (!r.conflictsProceed ==> conflicts == 0)
  {
    hide DocumentExists, Taken;
    if docs != [] {
      var n := |docs| - 1;
      ReindexPlanIsTheDocuments(r, docs[..n], newId);
      forall i, op | 0 <= i < n ensures WriteOf(r, docs[..n], newId, i, op) <==> WriteOf(r, docs, newId, i, op) {
        assert docs[..n][..i] == docs[..i] && docs[..n][i] == docs[i];
      }
      var before, after := ReindexPlan(r, docs[..n], newId).value.0, ReindexPlan(r, docs, newId).value.0;
      if after != before {
        var op := after[|before|];
        assert after == before + [op] && WriteOf(r, docs, newId, n, op);
        if r.opType.ReindexCreate? {
          forall o | o in before ensures AskedFor(newId, docs[..n], o.id) {
            var i :| 0 <= i < n && WriteOf(r, docs[..n], newId, i, o);
            assert newId(docs[..n][i]) == Ok(o.id);
          }
          CreatesGrow(r, newId, docs[..n], before, op);
        }
      }
    }
  }

  ghost predicate AskedFor(newId: MatchedDoc -> Result<string>, docs: seq<MatchedDoc>, id: string) {
    exists i :: 0 <= i < |docs| && newId(docs[i]) == Ok(id)
  }

  lemma CreatesGrow(r: Reindexing, newId: MatchedDoc -> Result<string>, earlier: seq<MatchedDoc>,
                    ops: seq<WriteOperation>, op: WriteOperation)
    requires CreatesOnly(r.db, r.dest, ops) && forall o :: o in ops ==> AskedFor(newId, earlier, o.id)
    requires op.CreateOp? && op.index == r.dest && !Taken(r.db, r.dest, newId, earlier, op.id)
    ensures CreatesOnly(r.db, r.dest, ops + [op])
  {
    hide DocumentExists;
    forall i | 0 <= i < |ops| ensures ops[i].id != op.id {
      assert ops[i] in ops;
    }
  }

  ghost predicate RewritesOnly(dest: string, ops: seq<WriteOperation>) {
    forall i :: 0 <= i < |ops| ==> ops[i].IndexOp? && ops[i].index == dest
  }

  /** Creates of distinct documents that are not there. */
  ghost predicate CreatesOnly(db: Database, dest: string, ops: seq<WriteOperation>) {
    (forall i :: 0 <= i < |ops| ==> ops[i].CreateOp? && ops[i].index == dest && !DocumentExists(db, dest, ops[i].id))
    && forall i, j :: 0 <= i < j < |ops| ==> ops[i].id != ops[j].id
  }

  lemma OutcomeKind(limits: StoreLimits, st: Batch, op: WriteOperation)
    requires Sound(st.db) && AtomicStep(limits, st, op).Ok?
    ensures var next := AtomicStep(limits, st, op).value;
            Sound(next.db) && |next.outcomes| == |st.outcomes| + 1 && next.outcomes[..|st.outcomes|] == st.outcomes
            && (next.outcomes[|st.outcomes|].Deleted? <==> op.DeleteOp?)
  {
    hide Prepare, Sound, AdmitOne, Applied, ApplyAll;
    PreparedShape(st.db, op);
    AdmittedIsApplied(limits, st.db, Prepare(st.db, op).value.mutations);
  }

  lemma {:induction false} OutcomeKinds(limits: StoreLimits, before: Database, ops: seq<WriteOperation>)
    requires Sound(before) && RunAtomic(limits, before, ops).Ok?
    ensures var st := RunAtomic(limits, before, ops).value;
            Sound(st.db) && |st.outcomes| == |ops|
            && forall i :: 0 <= i < |ops| ==> (st.outcomes[i].Deleted? <==> ops[i].DeleteOp?)
  {
    hide AtomicStep, Sound;
    if ops != [] {
      var n := |ops| - 1;
      OutcomeKinds(limits, before, ops[..n]);
      var st := RunAtomic(limits, before, ops[..n]).value;
      OutcomeKind(limits, st, ops[n]);
      var next := AtomicStep(limits, st, ops[n]).value;
      forall i | 0 <= i < n ensures next.outcomes[i] == st.outcomes[i] {
        assert next.outcomes[..n][i] == next.outcomes[i];
      }
    }
  }

  /** Reindex with op_type index: every document is reported created or updated. */
  lemma ReindexIndexConserves(limits: StoreLimits, before: Database, dest: string, ops: seq<WriteOperation>)
    requires Sound(before) && RewritesOnly(dest, ops) && RunAtomic(limits, before, ops).Ok?
    ensures var c := Tally(RunAtomic(limits, before, ops).value.outcomes);
            c.created + c.updated == |ops| && c.deleted == 0
  {
    hide Sound, RunAtomic, Tally;
    OutcomeKinds(limits, before, ops);
    TallyOf(RunAtomic(limits, before, ops).value.outcomes);
  }

  lemma PreparedCreate(db: Database, op: WriteOperation)
    requires op.CreateOp?
    ensures Prepare(db, op).Ok?
    ensures
      var ms := Prepare(db, op).value.mutations;
      ms != [] && ms[|ms| - 1].CreateDocument? && ms[|ms| - 1].id == op.id
      && (match ResolveIndex(db, op.index)
          case Some(index) => |ms| == 1 && ms[0].index == index
          case None => |ms| == 2 && ms[0].CreateIndex? && ms[0].name == op.index == ms[1].index)
  {
    hide TemplateConfig, TemplatesInOrder;
  }

  /** Admission never reports a version conflict for anything but a document that is there. */
  lemma AdmitOneConflicts(limits: StoreLimits, db: Database, m: Mutation)
    requires m.CreateIndex? || (m.CreateDocument? && !HasDocument(db, m.index, m.id))
    requires AdmitOne(limits, db, m).Err?
    ensures AdmitOne(limits, db, m).error.status != 409
  {
    hide DatabaseBytes, DocumentCount, IsBlank, Applied;
  }

  lemma ResolvesTheSame(db: Database, m: Mutation, name: string)
    requires m.CreateDocument?
    ensures ResolveIndex(Applied(db, m), name) == ResolveIndex(db, name)
  {
    hide IndexEffect;
  }

  lemma OnlyOneAdded(db: Database, m: Mutation, name: string, id: string)
    requires m.CreateDocument? && HasDocument(Applied(db, m), name, id)
    ensures HasDocument(db, name, id) || (name == m.index && id == m.id)
  {
  }

  lemma CreatedResolvesToItself(db: Database, m: Mutation)
    requires m.CreateIndex? && m.name !in db.indexes
    ensures ResolveIndex(Applied(db, m), m.name) == Some(m.name)
  {
    hide NewIndex;
  }

  /** One more document, at version 1, and no other id under the operation's name. */
  ghost predicate AddedOne(st: Batch, next: Batch, op: WriteOperation) {
    Sound(next.db) && |next.outcomes| == |st.outcomes| + 1 && next.outcomes[..|st.outcomes|] == st.outcomes
    && next.outcomes[|st.outcomes|].Document? && next.outcomes[|st.outcomes|].document.version == 1
    && forall id :: DocumentExists(next.db, op.index, id) ==> DocumentExists(st.db, op.index, id) || id == op.id
  }

  lemma NotThere(db: Database, op: WriteOperation, index: string)
    requires !DocumentExists(db, op.index, op.id)
    requires ResolveIndex(db, op.index) == Some(index) || (ResolveIndex(db, op.index) == None && index == op.index)
    ensures !HasDocument(db, index, op.id)
  {
  }

  /** One planned create: it meets no conflict, is reported created, and adds only its own id. */
  lemma CreateOne(limits: StoreLimits, st: Batch, op: WriteOperation)
    requires Sound(st.db) && op.CreateOp? && !DocumentExists(st.db, op.index, op.id)
    ensures
      var r := AtomicStep(limits, st, op);
      (r.Err? ==> r.error.status != 409) && (r.Ok? ==> AddedOne(st, r.value, op))
  {
    hide Prepare, Sound, AdmitOne, Applied, ApplyAll, HasDocument, Admit;
    PreparedCreate(st.db, op);
    var ms := Prepare(st.db, op).value.mutations;
    AdmitOneOrTwo(limits, st.db, ms);
    if ResolveIndex(st.db, op.index).None? {
      CreateOneInNew(limits, st.db, op, ms);
    } else {
      CreateOneInOld(limits, st.db, op, ms);
    }
    if Admit(limits, st.db, ms).Ok? {
      AdmittedIsApplied(limits, st.db, ms);
      PreparedShape(st.db, op);
      NotThere(st.db, op, ms[|ms| - 1].index);
      PreparedWriteResolves(limits, st.db, op);
    }
  }

  lemma CreateOneInOld(limits: StoreLimits, db: Database, op: WriteOperation, ms: seq<Mutation>)
    requires |ms| == 1 && ms[0].CreateDocument? && ms[0].id == op.id
    requires ResolveIndex(db, op.index) == Some(ms[0].index) && !DocumentExists(db, op.index, op.id)
    ensures
      var r := Admit(limits, db, ms);
      (r.Err? ==> r.error.status != 409)
      && (r.Ok? ==> forall id :: DocumentExists(r.value, op.index, id) ==>
        DocumentExists(db, op.index, id) || id == op.id)
  {
    hide AdmitOne, Applied, ResolveIndex, HasDocument, Admit;
    AdmitOneOrTwo(limits, db, ms);
    if Admit(limits, db, ms).Err? {
      AdmitOneConflicts(limits, db, ms[0]);
    } else {
      AdmittedOneIsApplied(limits, db, ms[0]);
      ResolvesTheSame(db, ms[0], op.index);
      forall id | DocumentExists(Applied(db, ms[0]), op.index, id)
        ensures DocumentExists(db, op.index, id) || id == op.id {
        OnlyOneAdded(db, ms[0], ms[0].index, id);
      }
    }
  }

  lemma CreateOneInNew(limits: StoreLimits, db: Database, op: WriteOperation, ms: seq<Mutation>)
    requires |ms| == 2 && ms[0].CreateIndex? && ms[0].name == op.index && ms[1].CreateDocument?
    requires ms[1].index == op.index && ms[1].id == op.id && ResolveIndex(db, op.index) == None
    ensures
      var r := Admit(limits, db, ms);
      (r.Err? ==> r.error.status != 409)
      && (r.Ok? ==> forall id :: DocumentExists(r.value, op.index, id) ==> id == op.id)
  {
    hide AdmitOne, Applied, Admit, HasDocument;
    AdmitOneOrTwo(limits, db, ms);
    ResolvesToNothing(db, op.index);
    if AdmitOne(limits, db, ms[0]).Err? {
      AdmitOneConflicts(limits, db, ms[0]);
    } else {
      AdmittedOneIsApplied(limits, db, ms[0]);
      var mid := Applied(db, ms[0]);
      CreatedIndexIsEmpty(db, ms[0], op.id);
      CreatedResolvesToItself(db, ms[0]);
      if AdmitOne(limits, mid, ms[1]).Err? {
        AdmitOneConflicts(limits, mid, ms[1]);
      } else {
        AdmittedOneIsApplied(limits, mid, ms[1]);
        ResolvesTheSame(mid, ms[1], op.index);
        forall id | DocumentExists(Applied(mid, ms[1]), op.index, id) ensures id == op.id {
          OnlyOneAdded(mid, ms[1], op.index, id);
          CreatedIndexIsEmpty(db, ms[0], id);
        }
      }
    }
  }

  /** Every create reported at version 1, and no id under the destination but old and created ones. */
  ghost predicate AddedAll(before: Database, st: Batch, dest: string, ops: seq<WriteOperation>) {
    Sound(st.db) && |st.outcomes| == |ops|
    && (forall i :: 0 <= i < |ops| ==> st.outcomes[i].Document? && st.outcomes[i].document.version == 1)
    && forall id :: DocumentExists(st.db, dest, id) ==>
      DocumentExists(before, dest, id) || exists i :: 0 <= i < |ops| && ops[i].id == id
  }

  /** No planned create ever meets a version conflict, whatever else may refuse the batch,
      and each that is written is reported created. */
  lemma {:induction false} PlannedCreatesNeverConflict(
      limits: StoreLimits, before: Database, dest: string, ops: seq<WriteOperation>)
    requires Sound(before) && CreatesOnly(before, dest, ops)
    ensures
      var r := RunAtomic(limits, before, ops);
      (r.Err? ==> r.error.status != 409) && (r.Ok? ==> AddedAll(before, r.value, dest, ops))
  {
    hide AtomicStep, Sound, DocumentExists;
    if ops != [] {
      var n := |ops| - 1;
      PlannedCreatesNeverConflict(limits, before, dest, ops[..n]);
      var r := RunAtomic(limits, before, ops[..n]);
      if r.Ok? {
        CreateOne(limits, r.value, ops[n]);
        var next := AtomicStep(limits, r.value, ops[n]);
        if next.Ok? {
          forall i | 0 <= i < n ensures next.value.outcomes[i] == r.value.outcomes[i] {
            assert next.value.outcomes[..n][i] == next.value.outcomes[i];
          }
          forall id | DocumentExists(next.value.db, dest, id) && !DocumentExists(before, dest, id)
            ensures exists i :: 0 <= i < |ops| && ops[i].id == id
          {
            if id != ops[n].id {
              var i :| 0 <= i < n && ops[..n][i].id == id;
              assert ops[i].id == id;
            }
          }
        }
      }
    }
  }

  /** Reindex with op_type create: created and conflicts make up everything that matched. */
  lemma ReindexCreateConserves(limits: StoreLimits, r: Reindexing, docs: seq<MatchedDoc>,
                               newId: MatchedDoc -> Result<string>)
    requires Sound(r.db) && r.opType.ReindexCreate? && ReindexPlan(r, docs, newId).Ok?
    requires RunAtomic(limits, r.db, ReindexPlan(r, docs, newId).value.0).Ok?
    ensures var (ops, conflicts) := ReindexPlan(r, docs, newId).value;
            var c := Tally(RunAtomic(limits, r.db, ops).value.outcomes);
            c.created + conflicts == |docs| && c.updated == 0 && c.deleted == 0
  {
    hide Sound, RunAtomic, Tally, DocumentExists, ReindexPlan, WriteOf;
    ReindexPlanIsTheDocuments(r, docs, newId);
    PlannedCreatesNeverConflict(limits, r.db, r.dest, ReindexPlan(r, docs, newId).value.0);
    TallyOf(RunAtomic(limits, r.db, ReindexPlan(r, docs, newId).value.0).value.outcomes);
  }

  // ----- What a reindex stores -----

  /** The index a write to a name ends up in. */
  function Destination(db: Database, name: string): string {
    match ResolveIndex(db, name) case Some(index) => index case None => name
  }

  /** The source last written for an id. */
  function LastWrite(ops: seq<WriteOperation>, id: string): Option<Value> {
    if ops == [] then None
    else if ops[|ops| - 1].id == id then Wanted(ops[|ops| - 1])
    else LastWrite(ops[..|ops| - 1], id)
  }

  /** Writes of whole documents to one name. */
  ghost predicate WritesTo(ops: seq<WriteOperation>, dest: string) {
    forall i :: 0 <= i < |ops| ==> (ops[i].IndexOp? || ops[i].CreateOp?) && ops[i].index == dest
  }

  lemma PreparedStore(db: Database, op: WriteOperation)
    requires op.IndexOp? || op.CreateOp?
    ensures Prepare(db, op).Ok?
    ensures
      var ms := Prepare(db, op).value.mutations;
      1 <= |ms| <= 2 && (|ms| == 2 <==> ResolveIndex(db, op.index) == None)
      && (|ms| == 2 ==> ms[0].CreateIndex? && ms[0].name == op.index)
      && ms[|ms| - 1] == if op.IndexOp? then IndexDocument(Destination(db, op.index), op.id, op.source)
                         else CreateDocument(Destination(db, op.index), op.id, op.source)
  {
    hide TemplateConfig, TemplatesInOrder;
  }

  lemma CreatedIndexStoresNothing(db: Database, m: Mutation)
    requires m.CreateIndex? && m.name !in db.indexes
    ensures forall name, id :: StoredAt(Applied(db, m), name, id) == StoredAt(db, name, id)
  {
  }

  lemma StoredInDestination(db: Database, m: Mutation)
    requires (m.IndexDocument? || m.CreateDocument?) && m.index in db.indexes
    requires m.CreateDocument? ==> !HasDocument(db, m.index, m.id)
    ensures StoredAsAsked(db, Applied(db, m), m.index, m.id, Some(m.source))
  {
  }

  lemma ValidatedCreateIsNew(limits: StoreLimits, db: Database, m: Mutation)
    requires m.CreateDocument? && ValidateMutation(limits, db, m).Ok?
    ensures !HasDocument(db, m.index, m.id)
  {
    hide DocumentCount;
  }

  lemma DestinationStays(db: Database, m: Mutation, name: string)
    requires IsDocumentMutation(m)
    ensures ResolveIndex(Applied(db, m), name) == ResolveIndex(db, name)
  {
    hide IndexEffect;
  }

  /** One write: its document is stored where its name leads, and nothing else changes. */
  lemma StoreOne(limits: StoreLimits, st: Batch, op: WriteOperation)
    requires Sound(st.db) && (op.IndexOp? || op.CreateOp?) && AtomicStep(limits, st, op).Ok?
    ensures
      var next := AtomicStep(limits, st, op).value;
      var dest := Destination(st.db, op.index);
      Sound(next.db) && Destination(next.db, op.index) == dest
      && StoredAsAsked(st.db, next.db, dest, op.id, Some(op.source))
  {
    hide Prepare, Sound, AdmitOne, Applied, StoredAsAsked, Admit, StoredAt;
    var dest := Destination(st.db, op.index);
    PreparedStore(st.db, op);
    var ms := Prepare(st.db, op).value.mutations;
    AdmitOneOrTwo(limits, st.db, ms);
    AdmittedIsApplied(limits, st.db, ms);
    ApplyUpToTwo(st.db, ms);
    AdmittedOneIsApplied(limits, st.db, ms[0]);
    var mid := if |ms| == 2 then Applied(st.db, ms[0]) else st.db;
    var m := ms[|ms| - 1];
    if |ms| == 2 {
      ResolvesToNothing(st.db, op.index);
      CreatedIndexStoresNothing(st.db, ms[0]);
      CreatedResolvesToItself(st.db, ms[0]);
      AdmittedOneIsApplied(limits, mid, m);
    }
    ValidatedDocumentMutation(limits, mid, m);
    if m.CreateDocument? {
      ValidatedCreateIsNew(limits, mid, m);
    }
    StoredInDestination(mid, m);
    DestinationStays(mid, m, op.index);
    StoredTwice(st.db, mid, Applied(mid, m), dest, op.id, Some(op.source));
  }

  lemma StoredTwice(db: Database, mid: Database, after: Database, index: string, key: string, wanted: Option<Value>)
    requires StoredAsAsked(mid, after, index, key, wanted)
    requires forall name, id :: StoredAt(mid, name, id) == StoredAt(db, name, id)
    ensures StoredAsAsked(db, after, index, key, wanted)
  {
    hide StoredAt;
  }

  /** After writes to one name its index holds the last one for each id, and nothing else changes. */
  ghost predicate LastWritesStored(before: Database, after: Database, dest: string, ops: seq<WriteOperation>) {
    forall name, id ::
      StoredAt(after, name, id) ==
      if name == dest && LastWrite(ops, id).Some? then LastWrite(ops, id) else StoredAt(before, name, id)
  }

  lemma {:induction false} LastWritesAreStored(
      limits: StoreLimits, before: Database, dest: string, ops: seq<WriteOperation>)
    requires Sound(before) && WritesTo(ops, dest) && RunAtomic(limits, before, ops).Ok?
    ensures
      var after := RunAtomic(limits, before, ops).value.db;
      Sound(after) && Destination(after, dest) == Destination(before, dest)
      && LastWritesStored(before, after, Destination(before, dest), ops)
  {
    hide AtomicStep, Sound, StoredAt, Destination;
    if ops != [] {
      var n := |ops| - 1;
      LastWritesAreStored(limits, before, dest, ops[..n]);
      StoreOne(limits, RunAtomic(limits, before, ops[..n]).value, ops[n]);
    }
  }

  /** The document whose write an id keeps: the last to ask for it, or with creates the
      first, if the destination did not have it. */
  ghost predicate Decides(r: Reindexing, docs: seq<MatchedDoc>, newId: MatchedDoc -> Result<string>, i: nat)
    requires i < |docs|
  {
    newId(docs[i]).Ok?
    && if r.opType.ReindexIndex? then forall j :: i < j < |docs| ==> newId(docs[j]) != newId(docs[i])
       else !Taken(r.db, r.dest, newId, docs[..i], newId(docs[i]).value)
  }

  /** What the plan writes for an id was asked for it, and by creates only if it was not there. */
  ghost predicate PlannedFor(r: Reindexing, docs: seq<MatchedDoc>, newId: MatchedDoc -> Result<string>,
                             ops: seq<WriteOperation>, id: string)
  {
    LastWrite(ops, id).Some? ==>
      AskedFor(newId, docs, id) && (r.opType.ReindexCreate? ==> !DocumentExists(r.db, r.dest, id))
  }

  lemma AskedForMore(newId: MatchedDoc -> Result<string>, docs: seq<MatchedDoc>, id: string)
    requires docs != []
    ensures AskedFor(newId, docs, id) <==>
      AskedFor(newId, docs[..|docs| - 1], id) || newId(docs[|docs| - 1]) == Ok(id)
  {
    if AskedFor(newId, docs[..|docs| - 1], id) {
      var i :| 0 <= i < |docs| - 1 && newId(docs[..|docs| - 1][i]) == Ok(id);
      assert newId(docs[i]) == Ok(id);
    }
  }

  lemma {:induction false} PlanIsAskedFor(r: Reindexing, docs: seq<MatchedDoc>, newId: MatchedDoc -> Result<string>)
    requires ReindexPlan(r, docs, newId).Ok?
    ensures WritesTo(ReindexPlan(r, docs, newId).value.0, r.dest)
    ensures forall id :: PlannedFor(r, docs, newId, ReindexPlan(r, docs, newId).value.0, id)
  {
    hide DocumentExists, AskedFor;
    if docs != [] {
      var n := |docs| - 1;
      PlanIsAskedFor(r, docs[..n], newId);
      var before, after := ReindexPlan(r, docs[..n], newId).value.0, ReindexPlan(r, docs, newId).value.0;
      if after != before {
        assert after[..|before|] == before;
      }
      forall id ensures PlannedFor(r, docs, newId, after, id) {
        AskedForMore(newId, docs, id);
        assert PlannedFor(r, docs[..n], newId, before, id);
      }
    }
  }

  lemma DecidedBefore(r: Reindexing, docs: seq<MatchedDoc>, newId: MatchedDoc -> Result<string>, i: nat)
    requires i < |docs| - 1 && Decides(r, docs, newId, i)
    ensures Decides(r, docs[..|docs| - 1], newId, i) && docs[..|docs| - 1][i] == docs[i]
    ensures r.opType.ReindexIndex? ==> newId(docs[|docs| - 1]) != newId(docs[i])
    ensures Taken(r.db, r.dest, newId, docs[..|docs| - 1], newId(docs[i]).value)
  {
    hide DocumentExists;
    assert docs[..|docs| - 1][..i] == docs[..i] && newId(docs[..|docs| - 1][i]) == Ok(newId(docs[i]).value);
  }

  lemma {:induction false} PlanWritesWhatDecides(r: Reindexing, docs: seq<MatchedDoc>,
                                                 newId: MatchedDoc -> Result<string>)
    requires ReindexPlan(r, docs, newId).Ok?
    ensures forall i :: 0 <= i < |docs| && Decides(r, docs, newId, i) ==>
      LastWrite(ReindexPlan(r, docs, newId).value.0, newId(docs[i]).value) == Some(docs[i].source)
  {
    hide DocumentExists, Taken;
    if docs != [] {
      var n := |docs| - 1;
      PlanWritesWhatDecides(r, docs[..n], newId);
      var before, after := ReindexPlan(r, docs[..n], newId).value.0, ReindexPlan(r, docs, newId).value.0;
      if after != before {
        assert after[..|before|] == before;
      }
      forall i | 0 <= i < |docs| && Decides(r, docs, newId, i)
        ensures LastWrite(after, newId(docs[i]).value) == Some(docs[i].source)
      {
        if i < n {
          DecidedBefore(r, docs, newId, i);
        }
      }
    }
  }

  /** The destination holds the deciding document under every id asked for; ids nobody asked
      for, ids that creates found there, and other indexes keep what they had. */
  ghost predicate Copied(
      r: Reindexing, docs: seq<MatchedDoc>, newId: MatchedDoc -> Result<string>, after: Database)
  {
    var dest := Destination(r.db, r.dest);
    (forall i :: 0 <= i < |docs| && Decides(r, docs, newId, i) ==>
      StoredAt(after, dest, newId(docs[i]).value) == Some(docs[i].source))
    && (forall name, id :: name != dest || !AskedFor(newId, docs, id) || PassedOver(r, id) ==>
          StoredAt(after, name, id) == StoredAt(r.db, name, id))
  }

  /** Creates leave alone what they find. */
  predicate PassedOver(r: Reindexing, id: string) {
    r.opType.ReindexCreate? && DocumentExists(r.db, r.dest, id)
  }

  /** What a reindex leaves stored. */
  lemma ReindexStoresDecidingDocuments(limits: StoreLimits, r: Reindexing, docs: seq<MatchedDoc>,
                                       newId: MatchedDoc -> Result<string>)
    requires Sound(r.db) && ReindexPlan(r, docs, newId).Ok?
    requires RunAtomic(limits, r.db, ReindexPlan(r, docs, newId).value.0).Ok?
    ensures Copied(r, docs, newId, RunAtomic(limits, r.db, ReindexPlan(r, docs, newId).value.0).value.db)
  {
    hide Sound, RunAtomic, ReindexPlan, AskedFor, StoredAt, Destination, DocumentExists, WritesTo, Taken;
    PlanIsAskedFor(r, docs, newId);
    PlanWritesWhatDecides(r, docs, newId);
    var ops := ReindexPlan(r, docs, newId).value.0;
    LastWritesAreStored(limits, r.db, r.dest, ops);
    var after, dest := RunAtomic(limits, r.db, ops).value.db, Destination(r.db, r.dest);
    forall name, id | name != dest || !AskedFor(newId, docs, id) || PassedOver(r, id)
      ensures StoredAt(after, name, id) == StoredAt(r.db, name, id)
    {
      assert PlannedFor(r, docs, newId, ops, id);
    }
  }

  /** Of a batch that goes through, something is logged exactly when something was planned. */
  lemma ReindexIsLogged(limits: StoreLimits, r: Reindexing, docs: seq<MatchedDoc>, newId: MatchedDoc -> Result<string>)
    requires Sound(r.db) && ReindexPlan(r, docs, newId).Ok?
    ensures
      var ops := ReindexPlan(r, docs, newId).value.0;
      var batch := RunAtomic(limits, r.db, ops);
      (batch.Ok? <==> Operations.AllAcceptedInTurn(limits, r.db, ops))
      && (batch.Ok? ==> (batch.value.mutations == [] <==> ops == []))
  {
    hide Sound, ReindexPlan, AtomicStep;
    var ops := ReindexPlan(r, docs, newId).value.0;
    PlanIsAskedFor(r, docs, newId);
    AtomicBatchExactlyWhen(limits, r.db, ops);
    if RunAtomic(limits, r.db, ops).Ok? {
      WritesAreLogged(limits, r.db, ops);
    }
  }

  // ----- The requests, from matching to response -----

  datatype Response = Response(total: nat, updated: nat, created: nat, deleted: nat, noops: nat, versionConflicts: nat)

  datatype ByQueryPlan = ByQueryPlan(total: nat, noops: nat, versionConflicts: nat)

  function BuildDelete(db: Database, requested: seq<string>, query: StoredDocument -> Result<bool>)
    : Result<(seq<WriteOperation>, ByQueryPlan)>
  {
    match Matched(db, requested, query)
    case Err(e) => Err(e)
    case Ok(docs) => Ok((DeletePlan(docs), ByQueryPlan(|docs|, 0, 0)))
  }

  function BuildUpdate(db: Database, requested: seq<string>, query: StoredDocument -> Result<bool>,
                       action: Value -> Result<UpdateAction>): Result<(seq<WriteOperation>, ByQueryPlan)>
  {
    match Matched(db, requested, query)
    case Err(e) => Err(e)
    case Ok(docs) =>
      match UpdatePlan(docs, action)
      case Err(e) => Err(e)
      case Ok((ops, noops)) => Ok((ops, ByQueryPlan(|docs|, noops, 0)))
  }

  function BuildReindex(r: Reindexing, requested: seq<string>, query: StoredDocument -> Result<bool>,
                        newId: MatchedDoc -> Result<string>): Result<(seq<WriteOperation>, ByQueryPlan)>
  {
    match Matched(r.db, requested, query)
    case Err(e) => Err(e)
    case Ok(docs) =>
      match ReindexPlan(r, docs, newId)
      case Err(e) => Err(e)
      case Ok((ops, conflicts)) => Ok((ops, ByQueryPlan(|docs|, 0, conflicts)))
  }

  /** The first delete fits, and with it all. */
  ghost predicate CanDelete(limits: StoreLimits, before: Database, docs: seq<MatchedDoc>) {
    docs == [] || DatabaseBytes(before) <= limits.memoryLimitBytes + 48 + ValueBytes(docs[0].source)
  }

  /** Deletes everything that matches: the response reports all of it deleted. */
  method DeleteByQuery(store: Store.Store, requested: seq<string>, query: StoredDocument -> Result<bool>,
                       id: string, io: Store.Outside)
    returns (r: Result<Response>)
    requires store.Valid() && (!store.ephemeral ==> id !in store.usedIds)
    modifies store`db, store`disk, store`flush, store`committed, store`usedIds
    ensures store.Valid()
    ensures var before := old(store.db.View());
            r.Ok? <==> Matched(before, requested, query).Ok?
                       && CanDelete(store.limits, before, Matched(before, requested, query).value)
                       && (Matched(before, requested, query).value == [] || store.ephemeral || io.log.BothWritten?)
    ensures var before := old(store.db.View());
            r.Ok? ==> forall name, i ::
              StoredAt(store.db.View(), name, i)
              == if Asked(before, requested, query, name, i) then None else StoredAt(before, name, i)
    ensures r.Ok? ==> var n := |Matched(old(store.db.View()), requested, query).value|;
                      r.value == Response(n, 0, 0, n, 0, 0)
    ensures var before := old(store.db.View());
            r.Ok? ==> Removed(before, store.db.View(), Matched(before, requested, query).value)
    ensures r.Err? ==> store.db.View() == old(store.db.View())
    ensures !store.ephemeral ==> Store.Performs(store.limits, old(store.Now()), store.Now())
  {
    hide Sound, RunAtomic, Tally, Matched, DistinctlyFound, AllMatch, SelectedNames, NoneMissed, Among, Asked, StoredAt,
      DatabaseBytes, Covered, Selects, DeletePlan, Operations.AllAcceptedInTurn;
    ghost var before := store.db.View();
    SoundAgrees(before);
    if Matched(before, requested, query).Ok? {
      MatchedIsEvery(before, requested, query);
      MatchedExactlyWhenAsked(before, requested, query);
      DeletesGoThroughExactlyWhen(store.limits, before, Matched(before, requested, query).value);
    }
    var done := store.ApplyDynamicWriteOperationsAtomic(db => BuildDelete(db, requested, query), id, io);
    if done.Err? {
      return Err(done.error);
    }
    var (outcomes, plan) := done.value;
    var c := CountOutcomes(outcomes);
    DeleteByQueryConserves(store.limits, before, Matched(before, requested, query).value);
    DeleteByQueryRemovesExactly(store.limits, before, Matched(before, requested, query).value);
    return Ok(Response(plan.total, 0, 0, c.deleted, 0, 0));
  }

  lemma SoundAgrees(db: Database)
    requires Sound(db)
    ensures NamesAgree(db)
  {
  }

  /** The query, the script and each write after those before it go through. */
  ghost predicate CanUpdate(limits: StoreLimits, before: Database, requested: seq<string>,
                            query: StoredDocument -> Result<bool>, action: Value -> Result<UpdateAction>)
  {
    Matched(before, requested, query).Ok?
    && var plan := UpdatePlan(Matched(before, requested, query).value, action);
       plan.Ok? && forall i :: 0 <= i < |plan.value.0| ==>
         (plan.value.0[i].DeleteOp? || plan.value.0[i].IndexOp?) && FitsInTurn(limits, before, plan.value.0, i)
  }

  lemma UpdateGoesThrough(limits: StoreLimits, before: Database, requested: seq<string>,
                          query: StoredDocument -> Result<bool>, action: Value -> Result<UpdateAction>)
    requires Sound(before)
    ensures
      var plan := BuildUpdate(before, requested, query, action);
      (CanUpdate(limits, before, requested, query, action) <==> plan.Ok? && RunAtomic(limits, before, plan.value.0).Ok?)
      && (plan.Ok? ==>
            Matched(before, requested, query).Ok? && DistinctlyFound(before, Matched(before, requested, query).value)
            && UpdatePlan(Matched(before, requested, query).value, action).Ok?
            && plan.value.0 == UpdatePlan(Matched(before, requested, query).value, action).value.0)
      && (plan.Ok? && RunAtomic(limits, before, plan.value.0).Ok? ==>
            (RunAtomic(limits, before, plan.value.0).value.mutations == [] <==> plan.value.0 == []))
  {
    hide Sound, RunAtomic, Matched, DistinctlyFound, AllMatch, NoneMissed, UpdatePlan, FitsInTurn, Selects, NamesAgree;
    SoundAgrees(before);
    if Matched(before, requested, query).Ok? {
      var docs := Matched(before, requested, query).value;
      MatchedIsEvery(before, requested, query);
      if UpdatePlan(docs, action).Ok? {
        UpdatePlanTargets(before, docs, action);
        TargetsGoThroughExactlyWhen(limits, before, UpdatePlan(docs, action).value.0);
      }
    }
  }

  /** Runs the script over everything that matches: updated, deleted and left alone make up the total. */
  method UpdateByQuery(store: Store.Store, requested: seq<string>, query: StoredDocument -> Result<bool>,
                       action: Value -> Result<UpdateAction>, id: string, io: Store.Outside)
    returns (r: Result<Response>)
    requires store.Valid() && (!store.ephemeral ==> id !in store.usedIds)
    modifies store`db, store`disk, store`flush, store`committed, store`usedIds
    ensures store.Valid()
    ensures var before := old(store.db.View());
            r.Ok? <==> CanUpdate(store.limits, before, requested, query, action)
                       && (UpdatePlan(Matched(before, requested, query).value, action).value.0 == [] || store.ephemeral
                           || io.log.BothWritten?)
    ensures r.Ok? ==> r.value.total == |Matched(old(store.db.View()), requested, query).value|
    ensures r.Ok? ==> r.value.updated + r.value.deleted + r.value.noops == r.value.total
    ensures r.Ok? ==> r.value.created == 0 && r.value.versionConflicts == 0
    ensures var before := old(store.db.View());
            r.Ok? ==> Rewritten(before, store.db.View(), Matched(before, requested, query).value, action)
    ensures r.Err? ==> store.db.View() == old(store.db.View())
    ensures !store.ephemeral ==> Store.Performs(store.limits, old(store.Now()), store.Now())
  {
    hide Sound, RunAtomic, Tally, Matched, DistinctlyFound, AllMatch, SelectedNames, NoneMissed, UpdatePlan, Rewritten,
      Targets, CanUpdate, Operations.AllAcceptedInTurn, Selects;
    ghost var before := store.db.View();
    UpdateGoesThrough(store.limits, before, requested, query, action);
    var done := store.ApplyDynamicWriteOperationsAtomic(db => BuildUpdate(db, requested, query, action), id, io);
    if done.Err? {
      return Err(done.error);
    }
    var (outcomes, plan) := done.value;
    var c := CountOutcomes(outcomes);
    UpdateByQueryConserves(store.limits, before, Matched(before, requested, query).value, action);
    UpdateByQueryStoresAnswers(store.limits, before, Matched(before, requested, query).value, action);
    return Ok(Response(plan.total, c.updated, 0, c.deleted, plan.noops, 0));
  }

  /** The query, the new ids and each write after those before it go through. */
  ghost predicate CanReindex(limits: StoreLimits, r: Reindexing, requested: seq<string>,
                             query: StoredDocument -> Result<bool>, newId: MatchedDoc -> Result<string>)
  {
    Matched(r.db, requested, query).Ok?
    && var plan := ReindexPlan(r, Matched(r.db, requested, query).value, newId);
       plan.Ok? && Operations.AllAcceptedInTurn(limits, r.db, plan.value.0)
  }

  /** Copies everything that matches: created, updated and passed over make up the total. */
  method Reindex(store: Store.Store, requested: seq<string>, query: StoredDocument -> Result<bool>, dest: string,
                 opType: ReindexOpType, conflictsProceed: bool, newId: MatchedDoc -> Result<string>,
                 id: string, io: Store.Outside)
    returns (r: Result<Response>)
    requires store.Valid() && (!store.ephemeral ==> id !in store.usedIds)
    modifies store`db, store`disk, store`flush, store`committed, store`usedIds
    ensures store.Valid()
    ensures var before := old(store.db.View());
            var planned := Reindexing(before, dest, opType, conflictsProceed);
            r.Ok? <==> CanReindex(store.limits, planned, requested, query, newId)
                       && (ReindexPlan(planned, Matched(before, requested, query).value, newId).value.0 == []
                           || store.ephemeral || io.log.BothWritten?)
    ensures r.Ok? ==> r.value.total == |Matched(old(store.db.View()), requested, query).value|
    ensures r.Ok? ==> r.value.created + r.value.updated + r.value.versionConflicts == r.value.total
    ensures r.Ok? ==> if opType.ReindexIndex? then r.value.versionConflicts == 0 else r.value.updated == 0
    ensures r.Ok? && !conflictsProceed ==> r.value.versionConflicts == 0
    ensures var before := old(store.db.View());
            r.Ok? ==>
              var plan := ReindexPlan(Reindexing(before, dest, opType, conflictsProceed),
                                      Matched(before, requested, query).value, newId);
              plan.Ok? && r.value.versionConflicts == plan.value.1
              && RunAtomic(store.limits, before, plan.value.0).Ok?
              && store.db.View() == RunAtomic(store.limits, before, plan.value.0).value.db
    ensures var before := old(store.db.View());
            r.Ok? ==> Copied(Reindexing(before, dest, opType, conflictsProceed),
                             Matched(before, requested, query).value, newId, store.db.View())
    ensures r.Err? ==> store.db.View() == old(store.db.View())
    ensures !store.ephemeral ==> Store.Performs(store.limits, old(store.Now()), store.Now())
  {
    hide Sound, RunAtomic, Tally, Matched, ReindexPlan, WriteOf, CreatesOnly, RewritesOnly, Copied,
      Operations.AllAcceptedInTurn;
    ghost var before := store.db.View();
    ghost var planned := Reindexing(before, dest, opType, conflictsProceed);
    ghost var matched := Matched(before, requested, query);
    if matched.Ok? && ReindexPlan(planned, matched.value, newId).Ok? {
      ReindexIsLogged(store.limits, planned, matched.value, newId);
    }
    var build := (db: Database) =>
      BuildReindex(Reindexing(db, dest, opType, conflictsProceed), requested, query, newId);
    var done := store.ApplyDynamicWriteOperationsAtomic(build, id, io);
    if done.Err? {
      return Err(done.error);
    }
    var (outcomes, plan) := done.value;
    var c := CountOutcomes(outcomes);
    ghost var r0 := Reindexing(before, dest, opType, conflictsProceed);
    ghost var docs := Matched(before, requested, query).value;
    ReindexPlanIsTheDocuments(r0, docs, newId);
    ReindexStoresDecidingDocuments(store.limits, r0, docs, newId);
    if opType.ReindexIndex? {
      ReindexIndexConserves(store.limits, before, dest, ReindexPlan(r0, docs, newId).value.0);
    } else {
      ReindexCreateConserves(store.limits, r0, docs, newId);
    }
    return Ok(Response(plan.total, c.updated, c.created, 0, 0, plan.versionConflicts));
  }
}
