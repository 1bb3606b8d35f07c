/** Scroll cursors and points in time: contexts that live in memory between requests,
    within fixed budgets. Clock readings are inputs, in milliseconds. */
module ScrollRuntime {
  import opened Prelude
  import opened Json
  import opened Catalog

  const MAX_SCROLL_CONTEXTS: nat := 32
  const SCROLL_TTL: nat := 15 * 60 * 1000
  const MAX_PIT_CONTEXTS: nat := 16
  const MAX_PIT_RETAINED_BYTES: nat := 64 * 1024 * 1024

  /** The serialised size of a whole database stays abstract, like that of a value. */
  const SerializedBytes: Database -> nat

  datatype ScrollCursor = ScrollCursor(
    hits: seq<Value>, position: nat, batchSize: nat, total: Value, maxScore: Value,
    lastAccessed: nat, bytes: nat, terminalEmptyPending: bool)

  datatype ScrollPage = ScrollPage(scrollId: string, hits: seq<Value>, total: Value, maxScore: Value)

  datatype PitContext = PitContext(database: Database, createdAt: nat, expiresAt: nat, keepAlive: nat, bytes: nat)

  datatype PitInfo = PitInfo(pitId: string, creationTime: nat, keepAliveMillis: nat)

  datatype PitDeleteResult = PitDeleteResult(pitId: string, successful: bool)

  datatype State = State(scrolls: map<string, ScrollCursor>, pits: map<string, PitContext>, nextId: nat)

  function LimitExceeded(): StoreError {
    StoreError(429, "resource_limit_exception")
  }

  // ----- Identifiers -----

  function Decimal(n: nat): (text: string)
    ensures text != []
  {
    if n < 10 then ["0123456789"[n]] else Decimal(n / 10) + ["0123456789"[n % 10]]
  }

  lemma {:induction false} DecimalIsInjective(a: nat, b: nat)
    requires Decimal(a) == Decimal(b)
    ensures a == b
  {
    var x, y := Decimal(a), Decimal(b);
    assert "0123456789"[a % 10] == x[|x| - 1] == "0123456789"[b % 10];
    assert a % 10 == b % 10;
    if a >= 10 && b >= 10 {
      assert Decimal(a / 10) == x[..|x| - 1] == Decimal(b / 10);
      DecimalIsInjective(a / 10, b / 10);
    }
  }

  function RuntimeId(prefix: string, n: nat): string {
    "mainstack-search-" + prefix + ":" + Decimal(n)
  }

  ghost predicate Issued(prefix: string, id: string, upTo: nat) {
    exists n: nat :: 1 <= n <= upTo && id == RuntimeId(prefix, n)
  }

  /** The counter only grows, so an id is never given out twice. */
  lemma NextIdIsFresh(prefix: string, issued: nat)
    ensures !Issued(prefix, RuntimeId(prefix, issued + 1), issued)
  {
    var id := RuntimeId(prefix, issued + 1);
    forall n: nat | 1 <= n <= issued ensures id != RuntimeId(prefix, n) {
      if id == RuntimeId(prefix, n) {
        var head := "mainstack-search-" + prefix + ":";
        assert Decimal(issued + 1) == id[|head|..] == Decimal(n);
        DecimalIsInjective(issued + 1, n);
      }
    }
  }

  // ----- Cursors -----

  function HitsBytes(hits: seq<Value>): nat {
    if hits == [] then 0 else ValueBytes(hits[0]) + HitsBytes(hits[1..])
  }

  function ScrollBytes(hits: seq<Value>, total: Value, maxScore: Value): nat {
    HitsBytes(hits) + ValueBytes(total) + ValueBytes(maxScore)
  }

  function AtLeastOne(n: nat): nat {
    if n == 0 then 1 else n
  }

  /** Where a page from `position` ends. */
  function PageEnd(hits: seq<Value>, position: nat, batchSize: nat): (end: nat)
    ensures end <= |hits|
  {
    if position + batchSize < |hits| then position + batchSize else |hits|
  }

  function PageHits(hits: seq<Value>, position: nat, batchSize: nat): seq<Value> {
    hits[if position < |hits| then position else |hits|..PageEnd(hits, position, batchSize)]
  }

  lemma FirstPageHits(hits: seq<Value>, size: nat)
    ensures PageHits(hits, 0, size) == if |hits| <= size then hits else hits[..size]
  {
  }

  /** The cursor left behind by the first page. */
  function Opened(hits: seq<Value>, total: Value, maxScore: Value, batchSize: nat, accessed: nat): ScrollCursor {
    var batch := AtLeastOne(batchSize);
    var remaining := hits[PageEnd(hits, 0, batch)..];
    var bytes := ScrollBytes(remaining, total, maxScore);
    ScrollCursor(remaining, 0, batch, total, maxScore, accessed, bytes, remaining == [])
  }

  function NextPage(cursor: ScrollCursor): seq<Value> {
    if cursor.terminalEmptyPending then [] else PageHits(cursor.hits, cursor.position, cursor.batchSize)
  }

  /** The cursor after one more page; none after the empty page that ends the scroll. */
  function Advanced(cursor: ScrollCursor, accessed: nat): Option<ScrollCursor> {
    if cursor.terminalEmptyPending then None
    else
      var end := PageEnd(cursor.hits, cursor.position, cursor.batchSize);
      if end < |cursor.hits| then Some(cursor.(lastAccessed := accessed, position := end))
      else Some(cursor.(lastAccessed := accessed, position := 0, hits := [], terminalEmptyPending := true,
                        bytes := ScrollBytes([], cursor.total, cursor.maxScore)))
  }

  predicate CursorOk(cursor: ScrollCursor) {
    cursor.batchSize > 0
    && cursor.bytes == ScrollBytes(cursor.hits, cursor.total, cursor.maxScore)
    && if cursor.terminalEmptyPending then cursor.hits == [] && cursor.position == 0
       else cursor.position < |cursor.hits|
  }

  // ----- Expiry and eviction -----

  predicate Fresh(cursor: ScrollCursor, now: nat) {
    now < cursor.lastAccessed + SCROLL_TTL
  }

  function LiveScrolls(scrolls: map<string, ScrollCursor>, now: nat): map<string, ScrollCursor> {
    map k | k in scrolls && Fresh(scrolls[k], now) :: scrolls[k]
  }

  function LivePits(pits: map<string, PitContext>, now: nat): map<string, PitContext> {
    map k | k in pits && pits[k].expiresAt > now :: pits[k]
  }

  function CursorWeight(id: string, cursor: ScrollCursor): nat {
    cursor.bytes
  }

  function PitWeight(id: string, pit: PitContext): nat {
    pit.bytes
  }

  predicate FitsBudget(scrolls: map<string, ScrollCursor>, incoming: nat, maxBytes: nat) {
    |scrolls| < MAX_SCROLL_CONTEXTS && MapSum(scrolls, CursorWeight) + incoming <= maxBytes
  }

  predicate IsOldest(scrolls: map<string, ScrollCursor>, id: string) {
    id in scrolls && forall j :: j in scrolls ==> scrolls[id].lastAccessed <= scrolls[j].lastAccessed
  }

  lemma {:induction false} OldestExists(scrolls: map<string, ScrollCursor>)
    requires scrolls.Keys != {}
    ensures exists id :: IsOldest(scrolls, id)
    decreases |scrolls|
  {
    var x :| x in scrolls;
    var rest := scrolls - {x};
    assert forall j :: j in scrolls ==> j == x || j in rest;
    if rest.Keys == {} {
      assert IsOldest(scrolls, x);
    } else {
      OldestExists(rest);
      var y :| IsOldest(rest, y);
      assert IsOldest(scrolls, if scrolls[x].lastAccessed <= scrolls[y].lastAccessed then x else y);
    }
  }

  /** The least recently used cursor, the first by id if several are. */
  function Oldest(scrolls: map<string, ScrollCursor>): (id: string)
    requires scrolls.Keys != {}
    ensures IsOldest(scrolls, id)
  {
    OldestExists(scrolls);
    var oldest := set id | id in scrolls && IsOldest(scrolls, id);
    assert oldest != {} by {
      var y :| IsOldest(scrolls, y);
      assert y in oldest;
    }
    Least(oldest)
  }

  /** What eviction leaves so that `incoming` more bytes fit. */
  function Evicted(scrolls: map<string, ScrollCursor>, incoming: nat, maxBytes: nat): map<string, ScrollCursor>
    decreases |scrolls|
  {
    if FitsBudget(scrolls, incoming, maxBytes) || scrolls.Keys == {} then scrolls
    else Evicted(scrolls - {Oldest(scrolls)}, incoming, maxBytes)
  }

  /** Nothing is evicted exactly when fewer than 32 cursors live and the bytes fit beside them. */
  lemma NothingIsEvictedExactlyWhen(scrolls: map<string, ScrollCursor>, incoming: nat, maxBytes: nat)
    requires scrolls.Keys != {}
    ensures Evicted(scrolls, incoming, maxBytes) == scrolls <==>
      |scrolls| < 32 && MapSum(scrolls, CursorWeight) + incoming <= maxBytes
  {
    if !FitsBudget(scrolls, incoming, maxBytes) {
      EvictedIsPart(scrolls - {Oldest(scrolls)}, incoming, maxBytes);
      assert Oldest(scrolls) !in Evicted(scrolls, incoming, maxBytes);
    }
  }

  /** A cursor that fits alone fits after eviction. */
  lemma {:induction false} EvictionMakesRoom(scrolls: map<string, ScrollCursor>, incoming: nat, maxBytes: nat)
    requires incoming <= maxBytes
    ensures FitsBudget(Evicted(scrolls, incoming, maxBytes), incoming, maxBytes)
    ensures SubMap(Evicted(scrolls, incoming, maxBytes), scrolls)
    decreases |scrolls|
  {
    if !FitsBudget(scrolls, incoming, maxBytes) && scrolls.Keys != {} {
      EvictionMakesRoom(scrolls - {Oldest(scrolls)}, incoming, maxBytes);
    }
  }

  /** Whatever was evicted had been used no later than anything kept. */
  lemma {:induction false} EvictionTakesOldest(scrolls: map<string, ScrollCursor>, incoming: nat, maxBytes: nat,
                                               gone: string, kept: string)
    requires gone in scrolls && gone !in Evicted(scrolls, incoming, maxBytes)
    requires kept in Evicted(scrolls, incoming, maxBytes)
    ensures kept in scrolls && scrolls[gone].lastAccessed <= scrolls[kept].lastAccessed
    decreases |scrolls|
  {
    hide FitsBudget;
    var oldest := Oldest(scrolls);
    EvictedIsPart(scrolls - {oldest}, incoming, maxBytes);
    if gone != oldest {
      EvictionTakesOldest(scrolls - {oldest}, incoming, maxBytes, gone, kept);
    }
  }

  lemma {:induction false} EvictedIsPart(scrolls: map<string, ScrollCursor>, incoming: nat, maxBytes: nat)
    ensures SubMap(Evicted(scrolls, incoming, maxBytes), scrolls)
    decreases |scrolls|
  {
    hide FitsBudget;
    if !FitsBudget(scrolls, incoming, maxBytes) && scrolls.Keys != {} {
      EvictedIsPart(scrolls - {Oldest(scrolls)}, incoming, maxBytes);
    }
  }

  /** Eviction goes no further than it must: giving back the last one taken breaks the budget. */
  lemma {:induction false} EvictionIsMinimal(scrolls: map<string, ScrollCursor>, incoming: nat,
                                             maxBytes: nat) returns (last: string)
    requires Evicted(scrolls, incoming, maxBytes) != scrolls
    ensures last in scrolls && last !in Evicted(scrolls, incoming, maxBytes)
    ensures var more := Evicted(scrolls, incoming, maxBytes)[last := scrolls[last]];
            |more| >= 32 || MapSum(more, CursorWeight) + incoming > maxBytes
    decreases |scrolls|
  {
    hide MapSum;
    var oldest := Oldest(scrolls);
    var rest := scrolls - {oldest};
    EvictedIsPart(rest, incoming, maxBytes);
    if Evicted(rest, incoming, maxBytes) == rest {
      last := oldest;
      assert rest[oldest := scrolls[oldest]] == scrolls;
    } else {
      last := EvictionIsMinimal(rest, incoming, maxBytes);
    }
  }

  // ----- The operations as steps on a state -----

  /** Given a page that fits, the oldest cursors make way for the new one; a page that
      cannot fit only uses up an id. */
  function ScrollCreated(s: State, cursor: ScrollCursor, now: nat, maxBytes: nat): State {
    if cursor.bytes > maxBytes then s.(nextId := s.nextId + 1)
    else
      var kept := Evicted(LiveScrolls(s.scrolls, now), cursor.bytes, maxBytes);
      s.(scrolls := kept[RuntimeId("scroll", s.nextId + 1) := cursor],
         nextId := s.nextId + 1)
  }

  function WithCursor(scrolls: map<string, ScrollCursor>, id: string,
                      cursor: Option<ScrollCursor>): map<string, ScrollCursor> {
    if cursor.Some? then scrolls[id := cursor.value] else scrolls - {id}
  }

  function ScrollNexted(s: State, id: string, now: nat, accessed: nat): State {
    var live := LiveScrolls(s.scrolls, now);
    if id !in live then s.(scrolls := live)
    else s.(scrolls := WithCursor(live, id, Advanced(live[id], accessed)))
  }

  function NextReply(s: State, id: string, now: nat): Option<ScrollPage> {
    if id in s.scrolls && Fresh(s.scrolls[id], now)
    then Some(ScrollPage(id, NextPage(s.scrolls[id]), s.scrolls[id].total, s.scrolls[id].maxScore))
    else None
  }

  /** A scroll answers exactly while less than fifteen minutes, in milliseconds, have passed
      since it was last used, and a purge keeps exactly such scrolls. */
  lemma ScrollsLiveFifteenMinutes(s: State, id: string, now: nat)
    ensures NextReply(s, id, now).Some? <==> id in s.scrolls && now < s.scrolls[id].lastAccessed + 900_000
    ensures id in LiveScrolls(s.scrolls, now) <==> id in s.scrolls && now < s.scrolls[id].lastAccessed + 900_000
    ensures id in LiveScrolls(s.scrolls, now) ==> LiveScrolls(s.scrolls, now)[id] == s.scrolls[id]
  {
  }

  /** A point in time lives exactly until it expires, and a use with a new life sets that. */
  lemma PitsLiveUntilTheyExpire(s: State, id: string, keepAlive: Option<nat>, now: nat, later: nat)
    ensures id in LivePits(s.pits, now) <==> id in s.pits && now < s.pits[id].expiresAt
    ensures id in LivePits(s.pits, now) ==>
      id in PitTouched(s, id, keepAlive, now, later).pits
      && var pit := PitTouched(s, id, keepAlive, now, later).pits[id];
         pit.database == s.pits[id].database && pit.createdAt == s.pits[id].createdAt
         && pit.expiresAt == (if keepAlive.Some? then later + keepAlive.value else s.pits[id].expiresAt)
         && pit.keepAlive == (if keepAlive.Some? then keepAlive.value else s.pits[id].keepAlive)
  {
  }

  /** A cursor weighs its hits, its total and its best score; of two parts each weighs its own. */
  lemma {:induction false} CursorWeighs(hits: seq<Value>, more: seq<Value>, total: Value, maxScore: Value)
    ensures ScrollBytes([], total, maxScore) == ValueBytes(total) + ValueBytes(maxScore)
    ensures hits != [] ==>
      ScrollBytes(hits, total, maxScore) == ValueBytes(hits[0]) + ScrollBytes(hits[1..], total, maxScore)
    ensures ScrollBytes(hits + more, total, maxScore) + ValueBytes(total) + ValueBytes(maxScore)
         == ScrollBytes(hits, total, maxScore) + ScrollBytes(more, total, maxScore)
  {
    if hits == [] {
      assert hits + more == more;
    } else {
      CursorWeighs(hits[1..], more, total, maxScore);
      assert (hits + more)[1..] == hits[1..] + more;
    }
  }

  function Without<T>(m: map<string, T>, ids: seq<string>): map<string, T> {
    map k | k in m && k !in ids :: m[k]
  }

  function ScrollsCleared(s: State, ids: seq<string>, now: nat): State {
    s.(scrolls := Without(LiveScrolls(s.scrolls, now), ids))
  }

  predicate PitFits(pits: map<string, PitContext>, bytes: nat, maxBytes: nat) {
    |pits| < MAX_PIT_CONTEXTS
    && MapSum(pits, PitWeight) + bytes <= maxBytes
    && MapSum(pits, PitWeight) + bytes <= MAX_PIT_RETAINED_BYTES
  }

  /** Points in time are never evicted: one that does not fit is refused. */
  function PitCreated(s: State, pit: PitContext, now: nat, maxBytes: nat): State {
    if pit.bytes > maxBytes || pit.bytes > MAX_PIT_RETAINED_BYTES then s
    else
      var live := LivePits(s.pits, now);
      s.(pits := if PitFits(live, pit.bytes, maxBytes) then live[RuntimeId("pit", s.nextId + 1) := pit] else live,
         nextId := s.nextId + 1)
  }

  function PitsDeleted(s: State, ids: seq<string>, now: nat): State {
    s.(pits := Without(LivePits(s.pits, now), ids))
  }

  function PitTouched(s: State, id: string, keepAlive: Option<nat>, now: nat, later: nat): State {
    var live := LivePits(s.pits, now);
    if id in live && keepAlive.Some?
    then s.(pits := live[id := live[id].(keepAlive := keepAlive.value, expiresAt := later + keepAlive.value)])
    else s.(pits := live)
  }

  lemma WithoutNone<T>(m: map<string, T>)
    ensures Without(m, []) == m
  {
  }

  lemma WithoutOneMore<T>(m: map<string, T>, ids: seq<string>, i: nat)
    requires i < |ids|
    ensures Without(m, ids[..i + 1]) == Without(m, ids[..i]) - {ids[i]}
  {
    assert ids[..i + 1] == ids[..i] + [ids[i]];
  }

  lemma RemoveOne<T>(m: map<string, T>, id: string)
    ensures |m - {id}| == if id in m then |m| - 1 else |m|
  {
    if id in m {
      MapSizes(m, id, m[id]);
    } else {
      assert m - {id} == m;
    }
  }

  /** The runtime state shared by all requests; every method is one critical section. */
  class RuntimeState {
    var scrolls: map<string, ScrollCursor>
    var pits: map<string, PitContext>
    var nextId: nat

    function View(): State
      reads this
    {
      State(scrolls, pits, nextId)
    }

    constructor ()
      ensures View() == State(map[], map[], 0)
    {
      scrolls, pits, nextId := map[], map[], 0;
    }

    method NextRuntimeId(prefix: string) returns (id: string)
      modifies this`nextId
      ensures nextId == old(nextId) + 1 && id == RuntimeId(prefix, nextId)
    {
      nextId := nextId + 1;
      id := RuntimeId(prefix, nextId);
    }

    method PurgeExpiredScrolls(now: nat)
      modifies this`scrolls
      ensures scrolls == LiveScrolls(old(scrolls), now)
    {
      scrolls := map k | k in scrolls && Fresh(scrolls[k], now) :: scrolls[k];
    }

    method PurgeExpiredPits(now: nat)
      modifies this`pits
      ensures pits == LivePits(old(pits), now)
    {
      pits := map k | k in pits && pits[k].expiresAt > now :: pits[k];
    }

    method EvictScrollsForBudget(incoming: nat, maxBytes: nat)
      modifies this`scrolls
      ensures scrolls == Evicted(old(scrolls), incoming, maxBytes)
    {
      while (|scrolls| >= MAX_SCROLL_CONTEXTS || MapSum(scrolls, CursorWeight) + incoming > maxBytes)
        && scrolls.Keys != {}
        invariant Evicted(scrolls, incoming, maxBytes) == Evicted(old(scrolls), incoming, maxBytes)
        decreases |scrolls|
      {
        scrolls := scrolls - {Oldest(scrolls)};
      }
    }

    /** Refused only when the new cursor alone is over the budget: the second check,
        after eviction, always passes. */
    method CreateScroll(hits: seq<Value>, total: Value, maxScore: Value, batchSize: nat, maxBytes: nat, accessed: nat,
                        now: nat)
      returns (r: Result<ScrollPage>)
      modifies this
      ensures View() == ScrollCreated(old(View()), Opened(hits, total, maxScore, batchSize, accessed), now, maxBytes)
      ensures r.Err? <==> Opened(hits, total, maxScore, batchSize, accessed).bytes > maxBytes
      ensures r.Err? ==> r.error == LimitExceeded()
      ensures r.Ok? ==>
        r.value == ScrollPage(RuntimeId("scroll", nextId), PageHits(hits, 0, AtLeastOne(batchSize)), total, maxScore)
      ensures r.Ok? ==>
        var size := if batchSize == 0 then 1 else batchSize;
        r.value.hits == if |hits| <= size then hits else hits[..size]
    {
      hide LiveScrolls, Evicted, MapSum, RuntimeId, ScrollBytes, PageHits;
      var scrollId := NextRuntimeId("scroll");
      var batch := AtLeastOne(batchSize);
      var page, position := PageHits(hits, 0, batch), PageEnd(hits, 0, batch);
      FirstPageHits(hits, batch);
      var remaining := hits[position..];
      var bytes := ScrollBytes(remaining, total, maxScore);
      if bytes > maxBytes {
        return Err(LimitExceeded());
      }
      var cursor := ScrollCursor(remaining, 0, batch, total, maxScore, accessed, bytes, remaining == []);
      PurgeExpiredScrolls(now);
      EvictionMakesRoom(scrolls, bytes, maxBytes);
      EvictScrollsForBudget(bytes, maxBytes);
      if |scrolls| >= MAX_SCROLL_CONTEXTS || MapSum(scrolls, CursorWeight) + bytes > maxBytes {
        return Err(LimitExceeded());
      }
      scrolls := scrolls[scrollId := cursor];
      return Ok(ScrollPage(scrollId, page, total, maxScore));
    }

    method NextScroll(scrollId: string, now: nat, accessed: nat) returns (page: Option<ScrollPage>)
      modifies this`scrolls
      ensures View() == ScrollNexted(old(View()), scrollId, now, accessed)
      ensures page == NextReply(old(View()), scrollId, now)
    {
      PurgeExpiredScrolls(now);
      if scrollId !in scrolls {
        return None;
      }
      var cursor := scrolls[scrollId].(lastAccessed := accessed);
      if cursor.terminalEmptyPending {
        scrolls := scrolls - {scrollId};
        return Some(ScrollPage(scrollId, [], cursor.total, cursor.maxScore));
      }
      var hits := PageHits(cursor.hits, cursor.position, cursor.batchSize);
      var position := PageEnd(cursor.hits, cursor.position, cursor.batchSize);
      cursor := cursor.(position := position);
      if position >= |cursor.hits| {
        cursor := cursor.(terminalEmptyPending := true, hits := [], position := 0,
                          bytes := ScrollBytes([], cursor.total, cursor.maxScore));
      }
      scrolls := scrolls[scrollId := cursor];
      return Some(ScrollPage(scrollId, hits, cursor.total, cursor.maxScore));
    }

    method ClearScrolls(scrollIds: seq<string>, now: nat) returns (freed: nat)
      modifies this`scrolls
      ensures View() == ScrollsCleared(old(View()), scrollIds, now)
      ensures freed + |scrolls| == |LiveScrolls(old(scrolls), now)|
    {
      hide Without, LiveScrolls;
      PurgeExpiredScrolls(now);
      freed := 0;
      ghost var live := scrolls;
      WithoutNone(live);
      var i := 0;
      while i < |scrollIds|
        invariant 0 <= i <= |scrollIds|
        invariant scrolls == Without(live, scrollIds[..i])
        invariant freed + |scrolls| == |live|
      {
        WithoutOneMore(live, scrollIds, i);
        if scrollIds[i] in scrolls {
          freed := freed + 1;
        }
        RemoveOne(scrolls, scrollIds[i]);
        scrolls := scrolls - {scrollIds[i]};
        i := i + 1;
      }
      assert scrollIds[..|scrollIds|] == scrollIds;
    }

    method CreatePit(database: Database, keepAlive: nat, maxBytes: nat, creationTime: nat, now: nat, later: nat)
      returns (r: Result<string>)
      modifies this
      ensures var pit := PitContext(database, creationTime, later + keepAlive, keepAlive, SerializedBytes(database));
              View() == PitCreated(old(View()), pit, now, maxBytes)
      ensures var bytes, live := SerializedBytes(database), LivePits(old(pits), now);
              r.Ok? <==> |live| < 16 && MapSum(live, PitWeight) + bytes <= maxBytes
                         && MapSum(live, PitWeight) + bytes <= 64 * 1024 * 1024
      ensures r == if r.Ok? then Ok(RuntimeId("pit", nextId)) else Err(LimitExceeded())
    {
      var bytes := SerializedBytes(database);
      if bytes > maxBytes || bytes > MAX_PIT_RETAINED_BYTES {
        return Err(LimitExceeded());
      }
      var pitId := NextRuntimeId("pit");
      PurgeExpiredPits(now);
      if |pits| >= MAX_PIT_CONTEXTS || MapSum(pits, PitWeight) + bytes > maxBytes
         || MapSum(pits, PitWeight) + bytes > MAX_PIT_RETAINED_BYTES {
        return Err(LimitExceeded());
      }
      pits := pits[pitId := PitContext(database, creationTime, later + keepAlive, keepAlive, bytes)];
      return Ok(pitId);
    }

    method ListPits(now: nat) returns (infos: seq<PitInfo>)
      modifies this`pits
      ensures pits == LivePits(old(pits), now)
      ensures |infos| == |pits|
      ensures forall i :: 0 <= i < |infos| ==> infos[i].pitId == InOrder(pits.Keys)[i] && InOrder(pits.Keys)[i] in pits
      ensures forall i :: 0 <= i < |infos| ==>
        infos[i].creationTime == pits[InOrder(pits.Keys)[i]].createdAt
        && infos[i].keepAliveMillis == pits[InOrder(pits.Keys)[i]].keepAlive
    {
      hide InOrder;
      PurgeExpiredPits(now);
      var ids := InOrder(pits.Keys);
      infos := [];
      var i := 0;
      while i < |ids|
        invariant 0 <= i <= |ids| && |infos| == i
        invariant forall j :: 0 <= j < i ==> ids[j] in pits
        invariant forall j :: 0 <= j < i ==> infos[j] == PitInfo(ids[j], pits[ids[j]].createdAt, pits[ids[j]].keepAlive)
      {
        assert ids[i] in ids;
        infos := infos + [PitInfo(ids[i], pits[ids[i]].createdAt, pits[ids[i]].keepAlive)];
        i := i + 1;
      }
    }

    /** Every id is answered as deleted, whether it named a context or not. */
    method RemovePits(pitIds: seq<string>) returns (results: seq<PitDeleteResult>)
      modifies this`pits
      ensures pits == Without(old(pits), pitIds)
      ensures |results| == |pitIds| && forall i :: 0 <= i < |results| ==> results[i] == PitDeleteResult(pitIds[i], true)
    {
      hide Without;
      WithoutNone(pits);
      results := [];
      var i := 0;
      while i < |pitIds|
        invariant 0 <= i <= |pitIds| == |results| + |pitIds| - i
        invariant pits == Without(old(pits), pitIds[..i])
        invariant forall j :: 0 <= j < i ==> results[j] == PitDeleteResult(pitIds[j], true)
      {
        WithoutOneMore(old(pits), pitIds, i);
        pits := pits - {pitIds[i]};
        results := results + [PitDeleteResult(pitIds[i], true)];
        i := i + 1;
      }
      assert pitIds[..|pitIds|] == pitIds;
    }

    method DeletePits(pitIds: seq<string>, now: nat) returns (results: seq<PitDeleteResult>)
      modifies this`pits
      ensures View() == PitsDeleted(old(View()), pitIds, now)
      ensures |results| == |pitIds| && forall i :: 0 <= i < |results| ==> results[i] == PitDeleteResult(pitIds[i], true)
    {
      PurgeExpiredPits(now);
      results := RemovePits(pitIds);
    }

    method DeleteAllPits(now: nat) returns (results: seq<PitDeleteResult>)
      modifies this`pits
      ensures pits == map[]
      ensures |results| == |LivePits(old(pits), now)|
      ensures forall i :: 0 <= i < |results| ==>
        results[i] == PitDeleteResult(InOrder(LivePits(old(pits), now).Keys)[i], true)
    {
      hide InOrder, LivePits;
      PurgeExpiredPits(now);
      results := RemovePits(InOrder(pits.Keys));
    }

    method PitDatabase(pitId: string, keepAlive: Option<nat>, now: nat, later: nat) returns (database: Option<Database>)
      modifies this`pits
      ensures View() == PitTouched(old(View()), pitId, keepAlive, now, later)
      ensures var live := LivePits(old(pits), now);
              database == if pitId in live then Some(live[pitId].database) else None
    {
      PurgeExpiredPits(now);
      if pitId !in pits {
        return None;
      }
      var pit := pits[pitId];
      if keepAlive.Some? {
        pit := pit.(keepAlive := keepAlive.value, expiresAt := later + keepAlive.value);
      }
      pits := pits[pitId := pit];
      return Some(pit.database);
    }
  }
}
