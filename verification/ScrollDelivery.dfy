/** Whole runs of the scroll and point-in-time contexts: what every reachable state
    keeps, and what a client that keeps asking receives. */
module ScrollDelivery {
  import opened Prelude
  import opened Json
  import opened Catalog
  import opened ScrollRuntime

  datatype Event =
    | OpenScroll(hits: seq<Value>, total: Value, maxScore: Value, batchSize: nat, accessed: nat, now: nat)
    | NextScroll(id: string, now: nat, accessed: nat)
    | ClearScrolls(ids: seq<string>, now: nat)
    | CreatePit(database: Database, keepAlive: nat, creationTime: nat, now: nat, later: nat)
    | ListPits(now: nat)
    | DeletePits(ids: seq<string>, now: nat)
    | DeleteAllPits(now: nat)
    | PitDatabase(id: string, keepAliveFor: Option<nat>, now: nat, later: nat)

  datatype Budgets = Budgets(scroll: nat, pit: nat)

  function CursorOf(e: Event): ScrollCursor
    requires e.OpenScroll?
  {
    Opened(e.hits, e.total, e.maxScore, e.batchSize, e.accessed)
  }

  function Step(s: State, e: Event, b: Budgets): State {
    match e
    case OpenScroll(_, _, _, _, _, now) => ScrollCreated(s, CursorOf(e), now, b.scroll)
    case NextScroll(id, now, accessed) => ScrollNexted(s, id, now, accessed)
    case ClearScrolls(ids, now) => ScrollsCleared(s, ids, now)
    case CreatePit(database, keepAlive, creationTime, now, later) =>
      var pit := PitContext(database, creationTime, later + keepAlive, keepAlive, SerializedBytes(database));
      PitCreated(s, pit, now, b.pit)
    case ListPits(now) => s.(pits := LivePits(s.pits, now))
    case DeletePits(ids, now) => PitsDeleted(s, ids, now)
    case DeleteAllPits(now) => s.(pits := map[])
    case PitDatabase(id, keepAliveFor, now, later) => PitTouched(s, id, keepAliveFor, now, later)
  }

  function Run(s: State, events: seq<Event>, b: Budgets): State
    decreases |events|
  {
    if events == [] then s else Run(Step(s, events[0], b), events[1..], b)
  }

  const NOTHING_OPEN := State(map[], map[], 0)

  // ----- Budgets -----

  ghost predicate ScrollsWithin(scrolls: map<string, ScrollCursor>, nextId: nat, budget: nat) {
    |scrolls| <= MAX_SCROLL_CONTEXTS
    && MapSum(scrolls, CursorWeight) <= budget
    && (forall id :: id in scrolls ==> CursorOk(scrolls[id]) && Issued("scroll", id, nextId))
  }

  ghost predicate PitsWithin(pits: map<string, PitContext>, nextId: nat, budget: nat) {
    |pits| <= MAX_PIT_CONTEXTS
    && MapSum(pits, PitWeight) <= budget && MapSum(pits, PitWeight) <= MAX_PIT_RETAINED_BYTES
    && (forall id :: id in pits ==> Issued("pit", id, nextId))
  }

  ghost predicate Within(s: State, b: Budgets) {
    ScrollsWithin(s.scrolls, s.nextId, b.scroll) && PitsWithin(s.pits, s.nextId, b.pit)
  }

  lemma IssuedLater(prefix: string, id: string, nextId: nat, later: nat)
    requires Issued(prefix, id, nextId) && nextId <= later
    ensures Issued(prefix, id, later)
  {
  }

  lemma NextIsIssued(prefix: string, nextId: nat)
    ensures Issued(prefix, RuntimeId(prefix, nextId + 1), nextId + 1)
  {
  }

  lemma ScrollsPart(part: map<string, ScrollCursor>, scrolls: map<string, ScrollCursor>, nextId: nat, later: nat,
                    budget: nat)
    requires ScrollsWithin(scrolls, nextId, budget) && SubMap(part, scrolls) && nextId <= later
    ensures ScrollsWithin(part, later, budget)
  {
    hide MapSum, CursorOk, Issued;
    MapSumPart(part, scrolls, CursorWeight);
    forall id | id in part ensures CursorOk(part[id]) && Issued("scroll", id, later) {
      IssuedLater("scroll", id, nextId, later);
    }
  }

  lemma PitsPart(part: map<string, PitContext>, pits: map<string, PitContext>, nextId: nat, later: nat, budget: nat)
    requires PitsWithin(pits, nextId, budget) && SubMap(part, pits) && nextId <= later
    ensures PitsWithin(part, later, budget)
  {
    hide MapSum, Issued;
    MapSumPart(part, pits, PitWeight);
    forall id | id in part ensures Issued("pit", id, later) {
      IssuedLater("pit", id, nextId, later);
    }
  }

  lemma OpenedIsOk(hits: seq<Value>, total: Value, maxScore: Value, batchSize: nat, accessed: nat)
    ensures CursorOk(Opened(hits, total, maxScore, batchSize, accessed))
  {
  }

  /** Delivering a page never makes a cursor heavier. */
  lemma AdvancedIsOk(cursor: ScrollCursor, accessed: nat)
    requires CursorOk(cursor)
    ensures var next := Advanced(cursor, accessed);
            next.Some? ==> CursorOk(next.value) && next.value.bytes <= cursor.bytes
  {
    assert HitsBytes([]) == 0;
  }

  lemma OpeningKeepsBudget(s: State, cursor: ScrollCursor, now: nat, budget: nat)
    requires ScrollsWithin(s.scrolls, s.nextId, budget) && CursorOk(cursor)
    ensures var after := ScrollCreated(s, cursor, now, budget); ScrollsWithin(after.scrolls, after.nextId, budget)
  {
    hide MapSum, CursorOk, Issued, RuntimeId, Fresh, Evicted;
    NextIsIssued("scroll", s.nextId);
    if cursor.bytes > budget {
      ScrollsPart(s.scrolls, s.scrolls, s.nextId, s.nextId + 1, budget);
    } else {
      var live := LiveScrolls(s.scrolls, now);
      var id := RuntimeId("scroll", s.nextId + 1);
      EvictionMakesRoom(live, cursor.bytes, budget);
      var kept := Evicted(live, cursor.bytes, budget);
      assert SubMap(kept, s.scrolls);
      ScrollsPart(kept, s.scrolls, s.nextId, s.nextId + 1, budget);
      InsertBound(kept, id, cursor, CursorWeight);
    }
  }

  lemma NextKeepsBudget(s: State, id: string, now: nat, accessed: nat, budget: nat)
    requires ScrollsWithin(s.scrolls, s.nextId, budget)
    ensures var after := ScrollNexted(s, id, now, accessed); ScrollsWithin(after.scrolls, after.nextId, budget)
  {
    hide MapSum, CursorOk, Issued, Fresh, Advanced;
    var live := LiveScrolls(s.scrolls, now);
    ScrollsPart(live, s.scrolls, s.nextId, s.nextId, budget);
    if id in live {
      var next := Advanced(live[id], accessed);
      AdvancedIsOk(live[id], accessed);
      if next.Some? {
        MapSumInsert(live, id, next.value, CursorWeight);
        assert |live[id := next.value]| == |live| by { assert live[id := next.value].Keys == live.Keys; }
      } else {
        ScrollsPart(live - {id}, live, s.nextId, s.nextId, budget);
      }
    }
  }

  lemma CreatingKeepsPitBudget(s: State, pit: PitContext, now: nat, budget: nat)
    requires PitsWithin(s.pits, s.nextId, budget)
    ensures var after := PitCreated(s, pit, now, budget); PitsWithin(after.pits, after.nextId, budget)
  {
    hide MapSum, Issued, RuntimeId;
    NextIsIssued("pit", s.nextId);
    var live := LivePits(s.pits, now);
    PitsPart(live, s.pits, s.nextId, s.nextId + 1, budget);
    InsertBound(live, RuntimeId("pit", s.nextId + 1), pit, PitWeight);
  }

  lemma TouchingKeepsPitBudget(s: State, id: string, keepAlive: Option<nat>, now: nat, later: nat, budget: nat)
    requires PitsWithin(s.pits, s.nextId, budget)
    ensures PitsWithin(PitTouched(s, id, keepAlive, now, later).pits, s.nextId, budget)
  {
    hide MapSum, Issued;
    var live := LivePits(s.pits, now);
    PitsPart(live, s.pits, s.nextId, s.nextId, budget);
    if id in live && keepAlive.Some? {
      var pit := live[id].(keepAlive := keepAlive.value, expiresAt := later + keepAlive.value);
      MapSumInsert(live, id, pit, PitWeight);
      assert |live[id := pit]| == |live| by { assert live[id := pit].Keys == live.Keys; }
    }
  }

  /** Every operation keeps both budgets, the well-formed cursors and the issued ids. */
  lemma StepKeepsBudgets(s: State, e: Event, b: Budgets)
    requires Within(s, b)
    ensures Within(Step(s, e, b), b)
  {
    hide ScrollsWithin, PitsWithin, ScrollCreated, PitCreated, ScrollNexted, PitTouched, CursorOk, MapSum, Opened;
    match e {
      case OpenScroll(_, _, _, _, _, now) =>
        OpenedIsOk(e.hits, e.total, e.maxScore, e.batchSize, e.accessed);
        OpeningKeepsBudget(s, CursorOf(e), now, b.scroll);
        OpeningIsForScrolls(s, CursorOf(e), now, b.scroll);
        PitsPart(s.pits, s.pits, s.nextId, s.nextId + 1, b.pit);
      case NextScroll(id, now, accessed) =>
        NextKeepsBudget(s, id, now, accessed, b.scroll);
        NextIsForScrolls(s, id, now, accessed);
      case ClearScrolls(ids, now) =>
        ScrollsPart(Without(LiveScrolls(s.scrolls, now), ids), s.scrolls, s.nextId, s.nextId, b.scroll);
      case CreatePit(database, keepAlive, creationTime, now, later) =>
        var pit := PitContext(database, creationTime, later + keepAlive, keepAlive, SerializedBytes(database));
        CreatingKeepsPitBudget(s, pit, now, b.pit);
        var after := PitCreated(s, pit, now, b.pit);
        PitStepsAreForPits(s, pit, "", None, now, later, b.pit);
        ScrollsPart(s.scrolls, s.scrolls, s.nextId, after.nextId, b.scroll);
      case ListPits(now) =>
        PitsPart(LivePits(s.pits, now), s.pits, s.nextId, s.nextId, b.pit);
      case DeletePits(ids, now) =>
        PitsPart(Without(LivePits(s.pits, now), ids), s.pits, s.nextId, s.nextId, b.pit);
      case DeleteAllPits(now) =>
        PitsPart(map[], s.pits, s.nextId, s.nextId, b.pit);
      case PitDatabase(id, keepAliveFor, now, later) =>
        TouchingKeepsPitBudget(s, id, keepAliveFor, now, later, b.pit);
        PitStepsAreForPits(s, PitContext(EMPTY_DATABASE, 0, 0, 0, 0), id, keepAliveFor, now, later, b.pit);
    }
  }

  lemma NextIsForScrolls(s: State, id: string, now: nat, accessed: nat)
    ensures var after := ScrollNexted(s, id, now, accessed); after.pits == s.pits && after.nextId == s.nextId
  {
  }

  lemma PitStepsAreForPits(s: State, pit: PitContext, id: string, keepAlive: Option<nat>, now: nat, later: nat,
                           budget: nat)
    ensures var after := PitCreated(s, pit, now, budget); after.scrolls == s.scrolls && after.nextId >= s.nextId
    ensures var after := PitTouched(s, id, keepAlive, now, later);
      after.scrolls == s.scrolls && after.nextId == s.nextId
  {
  }

  lemma OpeningIsForScrolls(s: State, cursor: ScrollCursor, now: nat, budget: nat)
    ensures var after := ScrollCreated(s, cursor, now, budget); after.pits == s.pits && after.nextId == s.nextId + 1
  {
  }

  lemma {:induction false} RunKeepsBudgets(s: State, events: seq<Event>, b: Budgets)
    requires Within(s, b)
    ensures Within(Run(s, events, b), b)
    decreases |events|
  {
    hide Within, Step;
    if events != [] {
      StepKeepsBudgets(s, events[0], b);
      RunKeepsBudgets(Step(s, events[0], b), events[1..], b);
    }
  }

  lemma NothingOpenIsWithin(b: Budgets)
    ensures Within(NOTHING_OPEN, b)
  {
  }

  /** In every state reachable with fixed budgets: at most 32 scrolls and 16 points in
      time, each within its bytes. */
  lemma ReachableKeepsBudgets(events: seq<Event>, b: Budgets)
    ensures Within(Run(NOTHING_OPEN, events, b), b)
    ensures |Run(NOTHING_OPEN, events, b).scrolls| <= 32 && |Run(NOTHING_OPEN, events, b).pits| <= 16
    ensures MapSum(Run(NOTHING_OPEN, events, b).pits, PitWeight) <= 64 * 1024 * 1024
  {
    NothingOpenIsWithin(b);
    RunKeepsBudgets(NOTHING_OPEN, events, b);
  }

  // ----- One cursor on its own -----

  /** The pages a list is cut into, with the empty page that says it is over. */
  function Batches(hits: seq<Value>, size: nat): seq<seq<Value>>
    requires size > 0
  {
    if hits == [] then [[]] else [PageHits(hits, 0, size)] + Batches(hits[PageEnd(hits, 0, size)..], size)
  }

  function Flat(pages: seq<seq<Value>>): seq<Value> {
    if pages == [] then [] else pages[0] + Flat(pages[1..])
  }

  lemma FirstBatch(hits: seq<Value>, size: nat)
    requires size > 0 && hits != []
    ensures var page := PageHits(hits, 0, size);
            var rest := hits[PageEnd(hits, 0, size)..];
            hits == page + rest && 0 < |page| <= size && (rest != [] ==> |page| == size) && |rest| < |hits|
  {
  }

  /** Whole, in order, and told apart from its end: only the last page is empty. */
  lemma {:induction false} BatchesAreTheList(hits: seq<Value>, size: nat)
    requires size > 0
    ensures var pages := Batches(hits, size);
            Flat(pages) == hits && pages != [] && pages[|pages| - 1] == []
            && (forall i :: 0 <= i < |pages| - 1 ==> 0 < |pages[i]| <= size)
            && (forall i :: 0 <= i < |pages| - 2 ==> |pages[i]| == size)
  {
    hide PageHits, PageEnd;
    if hits == [] {
      assert Batches(hits, size) == [[]] && Flat([[]]) == [];
    } else {
      FirstBatch(hits, size);
      var rest := hits[PageEnd(hits, 0, size)..];
      BatchesAreTheList(rest, size);
      var pages := Batches(hits, size);
      var later := Batches(rest, size);
      assert pages[1..] == later;
      forall i | 0 <= i < |pages| - 1 ensures 0 < |pages[i]| <= size && (i < |pages| - 2 ==> |pages[i]| == size) {
        if i > 0 { assert pages[i] == later[i - 1]; } else if |pages| > 2 { assert rest != []; }
      }
    }
  }

  /** What is still to come from a cursor. */
  function Rest(cursor: ScrollCursor): seq<Value>
    requires CursorOk(cursor)
  {
    cursor.hits[cursor.position..]
  }

  /** The answers to successive requests, while the cursor lasts. */
  function Pages(cursor: Option<ScrollCursor>, times: seq<nat>): seq<seq<Value>>
    decreases |times|
  {
    if times == [] || cursor.None? then []
    else [NextPage(cursor.value)] + Pages(Advanced(cursor.value, times[0]), times[1..])
  }

  function CursorAfter(cursor: Option<ScrollCursor>, times: seq<nat>): Option<ScrollCursor>
    decreases |times|
  {
    if times == [] || cursor.None? then cursor else CursorAfter(Advanced(cursor.value, times[0]), times[1..])
  }

  function FirstOf<T>(s: seq<T>, n: nat): seq<T> {
    if n < |s| then s[..n] else s
  }

  lemma AdvancedRest(cursor: ScrollCursor, accessed: nat)
    requires CursorOk(cursor) && !cursor.terminalEmptyPending
    ensures var next := Advanced(cursor, accessed);
            var end := PageEnd(Rest(cursor), 0, cursor.batchSize);
            next.Some? && CursorOk(next.value) && next.value.batchSize == cursor.batchSize
            && Rest(next.value) == Rest(cursor)[end..]
    ensures NextPage(cursor) == PageHits(Rest(cursor), 0, cursor.batchSize) && Rest(cursor) != []
  {
    AdvancedIsOk(cursor, accessed);
  }

  lemma NothingLeft(cursor: ScrollCursor)
    requires CursorOk(cursor)
    ensures cursor.batchSize > 0 && (cursor.terminalEmptyPending ==> Rest(cursor) == [])
  {
  }

  /** Asking one cursor again and again yields the pages of what is left, then its end. */
  lemma {:induction false} CursorDelivers(cursor: ScrollCursor, times: seq<nat>)
    requires CursorOk(cursor)
    ensures Pages(Some(cursor), times) == FirstOf(Batches(Rest(cursor), cursor.batchSize), |times|)
    ensures CursorAfter(Some(cursor), times).None? <==> |times| >= |Batches(Rest(cursor), cursor.batchSize)|
    decreases |times|
  {
    hide PageHits, PageEnd, CursorOk;
    NothingLeft(cursor);
    var batches := Batches(Rest(cursor), cursor.batchSize);
    if times == [] {
      assert batches != [];
    } else if cursor.terminalEmptyPending {
      assert Pages(Advanced(cursor, times[0]), times[1..]) == [];
    } else {
      AdvancedRest(cursor, times[0]);
      var next := Advanced(cursor, times[0]).value;
      CursorDelivers(next, times[1..]);
      assert batches[1..] == Batches(Rest(next), cursor.batchSize);
    }
  }

  // ----- One cursor among all requests -----

  /** The cursors that expiry, eviction and clearing leave alone in a step. */
  function Surviving(s: State, e: Event, b: Budgets): map<string, ScrollCursor> {
    match e
    case OpenScroll(_, _, _, _, _, now) =>
      if CursorOf(e).bytes > b.scroll then s.scrolls
      else Evicted(LiveScrolls(s.scrolls, now), CursorOf(e).bytes, b.scroll)
    case NextScroll(_, now, _) => LiveScrolls(s.scrolls, now)
    case ClearScrolls(ids, now) => Without(LiveScrolls(s.scrolls, now), ids)
    case _ => s.scrolls
  }

  ghost predicate Undisturbed(s: State, events: seq<Event>, b: Budgets, id: string)
    decreases |events|
  {
    events == []
    || ((id in s.scrolls ==> id in Surviving(s, events[0], b))
      && Undisturbed(Step(s, events[0], b), events[1..], b, id))
  }

  predicate Asks(e: Event, id: string) {
    e.NextScroll? && e.id == id
  }

  /** When requests for this scroll came in. */
  function Times(events: seq<Event>, id: string): seq<nat> {
    if events == [] then [] else (if Asks(events[0], id) then [events[0].accessed] else []) + Times(events[1..], id)
  }

  /** The pages those requests were answered with. */
  function PagesOf(s: State, events: seq<Event>, b: Budgets, id: string): seq<seq<Value>>
    decreases |events|
  {
    if events == [] then []
    else
      (if Asks(events[0], id) && NextReply(s, id, events[0].now).Some?
       then [NextReply(s, id, events[0].now).value.hits] else [])
      + PagesOf(Step(s, events[0], b), events[1..], b, id)
  }

  function CursorIn(s: State, id: string): Option<ScrollCursor> {
    if id in s.scrolls then Some(s.scrolls[id]) else None
  }

  /** What one step does to one issued cursor that nothing disturbs. */
  lemma StepOnCursor(s: State, e: Event, b: Budgets, id: string)
    requires Issued("scroll", id, s.nextId)
    requires id in s.scrolls ==> id in Surviving(s, e, b)
    ensures Issued("scroll", id, Step(s, e, b).nextId)
    ensures CursorIn(Step(s, e, b), id) ==
      if Asks(e, id) && id in s.scrolls then Advanced(s.scrolls[id], e.accessed) else CursorIn(s, id)
  {
    hide Advanced, Opened, RuntimeId, PitFits, MapSum, LivePits;
    NextIdIsFresh("scroll", s.nextId);
    IssuedLater("scroll", id, s.nextId, Step(s, e, b).nextId);
    if e.OpenScroll? {
      EvictedIsPart(LiveScrolls(s.scrolls, e.now), CursorOf(e).bytes, b.scroll);
    }
  }

  lemma AskedIsFresh(s: State, e: Event, b: Budgets, id: string)
    requires Asks(e, id) && (id in s.scrolls ==> id in Surviving(s, e, b))
    ensures id in s.scrolls ==> Fresh(s.scrolls[id], e.now)
  {
  }

  /** Whatever other requests come in between, the pages of one scroll are those of its cursor. */
  lemma {:induction false} RunOnCursor(s: State, events: seq<Event>, b: Budgets, id: string)
    requires Issued("scroll", id, s.nextId) && Undisturbed(s, events, b, id)
    ensures PagesOf(s, events, b, id) == Pages(CursorIn(s, id), Times(events, id))
    ensures CursorIn(Run(s, events, b), id) == CursorAfter(CursorIn(s, id), Times(events, id))
    decreases |events|
  {
    hide Advanced, Step, Surviving, Issued, NextPage;
    if events != [] {
      var e := events[0];
      StepOnCursor(s, e, b, id);
      RunOnCursor(Step(s, e, b), events[1..], b, id);
      if Asks(e, id) {
        AskedIsFresh(s, e, b, id);
        assert Times(events, id)[1..] == Times(events[1..], id);
      } else {
        assert Times(events, id) == Times(events[1..], id);
      }
    }
  }

  /** The answer to the request that opened a scroll. */
  function FirstPage(e: Event): seq<Value>
    requires e.OpenScroll?
  {
    PageHits(e.hits, 0, AtLeastOne(e.batchSize))
  }

  /** A client that opens a scroll and keeps asking receives, with whatever else is going
      on, its hits in order: first page and later pages join to the original list, no page
      exceeds the batch, only the last is empty, and after it the scroll is gone. */
  lemma ScrollDelivers(s: State, open: Event, events: seq<Event>, b: Budgets)
    requires open.OpenScroll? && CursorOf(open).bytes <= b.scroll
    requires Undisturbed(Step(s, open, b), events, b, RuntimeId("scroll", s.nextId + 1))
    ensures var id := RuntimeId("scroll", s.nextId + 1);
            var pages := PagesOf(Step(s, open, b), events, b, id);
            var all := Batches(Rest(CursorOf(open)), AtLeastOne(open.batchSize));
            pages == FirstOf(all, |Times(events, id)|)
            && open.hits == FirstPage(open) + Flat(all) && all[|all| - 1] == []
            && (forall i :: 0 <= i < |all| - 1 ==> 0 < |all[i]| <= AtLeastOne(open.batchSize))
            && (id !in Run(Step(s, open, b), events, b).scrolls <==> |Times(events, id)| >= |all|)
  {
    hide Undisturbed, Batches, Pages, CursorAfter, PagesOf, Times, Run, Evicted, LiveScrolls, ScrollBytes, FirstOf,
      Flat;
    var id := RuntimeId("scroll", s.nextId + 1);
    var cursor := CursorOf(open);
    var after := Step(s, open, b);
    assert after.scrolls[id] == cursor && after.nextId == s.nextId + 1;
    assert Issued("scroll", id, after.nextId);
    RunOnCursor(after, events, b, id);
    CursorDelivers(cursor, Times(events, id));
    BatchesAreTheList(Rest(cursor), AtLeastOne(open.batchSize));
    assert open.hits == FirstPage(open) + Rest(cursor);
  }

  /** Nothing but requests for the scroll, each less than fifteen minutes after the one before. */
  predicate Prompt(events: seq<Event>, id: string, last: nat) {
    events == []
    || (Asks(events[0], id) && events[0].now < last + 900_000 && Prompt(events[1..], id, events[0].accessed))
  }

  /** So a client that only asks on, in time, is never disturbed. */
  lemma {:induction false} PromptIsUndisturbed(s: State, events: seq<Event>, b: Budgets, id: string)
    requires id in s.scrolls ==> Prompt(events, id, s.scrolls[id].lastAccessed)
    requires forall i :: 0 <= i < |events| ==> Asks(events[i], id)
    ensures Undisturbed(s, events, b, id)
    decreases |events|
  {
    if events != [] {
      var after := Step(s, events[0], b);
      forall i | 0 <= i < |events[1..]| ensures Asks(events[1..][i], id) {
        assert events[1..][i] == events[i + 1];
      }
      PromptIsUndisturbed(after, events[1..], b, id);
    }
  }

  // ----- Points in time -----

  lemma StepOnPit(s: State, e: Event, b: Budgets, id: string)
    requires Issued("pit", id, s.nextId)
    ensures Issued("pit", id, Step(s, e, b).nextId)
    ensures id in Step(s, e, b).pits ==> id in s.pits && Step(s, e, b).pits[id].database == s.pits[id].database
  {
    hide Advanced, Opened, RuntimeId, PitFits, MapSum, LiveScrolls, Evicted;
    NextIdIsFresh("pit", s.nextId);
    IssuedLater("pit", id, s.nextId, Step(s, e, b).nextId);
  }

  /** A point in time shows the database it was taken from for as long as it lasts, and
      once gone it never comes back. */
  lemma {:induction false} PitIsFrozen(s: State, events: seq<Event>, b: Budgets, id: string)
    requires Issued("pit", id, s.nextId)
    ensures var after := Run(s, events, b);
            id in after.pits ==> id in s.pits && after.pits[id].database == s.pits[id].database
    decreases |events|
  {
    hide Step, Issued;
    if events != [] {
      StepOnPit(s, events[0], b, id);
      PitIsFrozen(Step(s, events[0], b), events[1..], b, id);
    }
  }
}
