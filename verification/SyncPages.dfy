/** Reading a collection page by page while other requests come in between. */
module SyncPages {
  import opened SyncTables
  import opened OffsetText
  import opened Paging
  import opened PagingDrift
  import opened PagingTokens
  import opened PagingTheorems
  import opened Wrappers
  import opened SyncRequests
  import opened SyncIncremental
  import opened SyncState
  import opened SyncTheorems

  /** The tables each page request meets, its clock and limit, the page it gets, and what came before the next one. */
  datatype Walk = Walk(
    states: seq<Tables>, clocks: seq<int>, limits: seq<nat>, pages: seq<Page>, traffic: seq<seq<Request>>)

  /** A token goes out as text in a header, and comes back as text in a query. */
  function Reread(token: Option<Offset>): Option<Offset> {
    if token.None? then None else ParseOffset(SpellOffset(token.value))
  }

  function PageQuery(w: Walk, q: Query, i: nat): Query
    requires i < |w.pages| == |w.limits|
  {
    WithPage(q, w.limits[i], Reread(TokenBefore(w.pages, i)))
  }

  function PageRequest(w: Walk, coll: string, q: Query, full: bool, i: nat): Request
    requires i < |w.pages| == |w.limits| == |w.clocks|
  {
    Request(w.clocks[i], Unconditional, GetCollection(coll, PageQuery(w, q, i), full))
  }

  /** Request i asks with the token of the page before, and only the last page may come without one. */
  ghost predicate Asks(w: Walk, coll: string, q: Query, full: bool, i: nat)
    requires i < |w.pages| == |w.limits| == |w.clocks| == |w.states|
  {
    w.limits[i] > 0
    && w.pages[i] == ReadPage(w.states[i], w.clocks[i], coll, PageQuery(w, q, i), full)
    && (i > 0 ==> w.pages[i - 1].offset.Some?)
  }

  /** Between page i and the next, requests that neither wipe nor delete the collection. */
  ghost predicate Meanwhile(w: Walk, coll: string, i: nat)
    requires i + 1 < |w.states| && i < |w.traffic|
  {
    AllWellFormed(w.traffic[i]) && NeverDrops(w.states[i], w.traffic[i], coll)
    && w.states[i + 1] == Run(w.states[i], w.traffic[i])
  }

  ghost predicate WalksOn(w: Walk, coll: string, q: Query, full: bool) {
    1 <= |w.pages| == |w.limits| == |w.clocks| == |w.states| == |w.traffic| + 1
    && Valid(w.states[0]) && coll in w.states[0].names && coll != TOMBSTONE
    && (forall i :: 0 <= i < |w.pages| ==> Asks(w, coll, q, full, i))
    && forall i :: 0 <= i < |w.traffic| ==> Meanwhile(w, coll, i)
  }

  /** The rows of the query's window as page request i finds them. */
  function View(w: Walk, coll: string, q: Query, i: nat): Rows
    requires i < |w.states| == |w.clocks|
  {
    Visible(w.states[i].RowsOf(coll), w.clocks[i], q)
  }

  function Views(w: Walk, coll: string, q: Query): seq<Rows>
    requires |w.states| == |w.clocks|
  {
    seq(|w.states|, i requires 0 <= i < |w.states| => View(w, coll, q, i))
  }

  /** The traffic left every record as it was, and none expired meanwhile. */
  predicate LeavesRecords(w: Walk, coll: string, i: nat)
    requires i + 1 < |w.states| == |w.clocks|
  {
    var rows, later := w.states[i].RowsOf(coll), w.states[i + 1].RowsOf(coll);
    forall id :: id in rows ==>
      id in later && later[id] == rows[id] && (rows[id].expiry > w.clocks[i] <==> rows[id].expiry > w.clocks[i + 1])
  }

  // ---- the walk, step by step ----

  lemma NamesStay(t: Tables, req: Request)
    ensures t.names <= Exec(t, req).tables.names
  {
  }

  lemma {:induction false} NamesStayAlong(t: Tables, reqs: seq<Request>)
    ensures t.names <= Run(t, reqs).names
  {
    if reqs != [] {
      NamesStayAlong(t, reqs[..|reqs| - 1]);
      NamesStay(Run(t, reqs[..|reqs| - 1]), reqs[|reqs| - 1]);
    }
  }

  lemma {:induction false} StaysValid(w: Walk, coll: string, q: Query, full: bool, i: nat)
    requires WalksOn(w, coll, q, full) && i < |w.states|
    ensures Valid(w.states[i]) && coll in w.states[i].names
  {
    if i > 0 {
      StaysValid(w, coll, q, full, i - 1);
      assert Meanwhile(w, coll, i - 1);
      RunKeepsValid(w.states[i - 1], w.traffic[i - 1]);
      NamesStayAlong(w.states[i - 1], w.traffic[i - 1]);
    }
  }

  /** Whatever a read was asked, the token it answers with is parsed back as it was issued. */
  lemma ReadTokenIsReread(t: Tables, now: int, coll: string, q: Query, full: bool)
    requires Valid(t)
    ensures Reread(ReadPage(t, now, coll, q, full).offset) == ReadPage(t, now, coll, q, full).offset
  {
    var token := ReadPage(t, now, coll, q, full).offset;
    if token.Some? {
      ViewsAreStamped(t, now, coll, q);
      TokenIsARow(Visible(t.RowsOf(coll), now, q), q, full);
      OffsetRoundTrip(token.value);
    }
  }

  lemma TokenComesBack(w: Walk, coll: string, q: Query, full: bool, i: nat)
    requires WalksOn(w, coll, q, full) && i < |w.pages|
    ensures Reread(TokenBefore(w.pages, i)) == TokenBefore(w.pages, i)
  {
    if i > 0 {
      assert Asks(w, coll, q, full, i - 1);
      StaysValid(w, coll, q, full, i - 1);
      ReadTokenIsReread(w.states[i - 1], w.clocks[i - 1], coll, PageQuery(w, q, i - 1), full);
    }
  }

  lemma WalkFollows(w: Walk, coll: string, q: Query, full: bool)
    requires WalksOn(w, coll, q, full)
    ensures Follows(w.pages, Views(w, coll, q), q, full, w.limits)
  {
    var views := Views(w, coll, q);
    forall i: nat | i < |w.pages| ensures IsPage(w.pages, views, q, full, w.limits, i) {
      assert Asks(w, coll, q, full, i);
      StaysValid(w, coll, q, full, i);
      TokenComesBack(w, coll, q, full, i);
      ViewsAreStamped(w.states[i], w.clocks[i], coll, q);
      assert Visible(w.states[i].RowsOf(coll), w.clocks[i], PageQuery(w, q, i)) == views[i];
    }
  }

  lemma ViewGrows(w: Walk, coll: string, q: Query, full: bool, i: nat)
    requires WalksOn(w, coll, q, full) && i < |w.traffic| && LeavesRecords(w, coll, i)
    ensures Grows(View(w, coll, q, i), View(w, coll, q, i + 1))
  {
    StaysValid(w, coll, q, full, i);
    assert Meanwhile(w, coll, i);
    GuardedInsertsGrow(w.states[i], w.clocks[i], w.traffic[i], w.clocks[i + 1], coll, q);
  }

  // ---- the theorems ----

  /** The server never refuses a token it issued: as text it is parsed back as it was, the window check passes, and every
      request of the walk is answered with its page. */
  lemma TokensAreAccepted(w: Walk, coll: string, q: Query, full: bool, i: nat)
    requires WalksOn(w, coll, q, full) && i < |w.pages|
    ensures var reply := Exec(w.states[i], PageRequest(w, coll, q, full, i)).reply;
            reply.Answer? && reply.body == Records(w.pages[i])
    ensures i > 0 ==> w.pages[i - 1].offset.Some?
                      && ParseOffset(SpellOffset(w.pages[i - 1].offset.value)) == w.pages[i - 1].offset
  {
    TokenComesBack(w, coll, q, full, i);
    assert Asks(w, coll, q, full, i);
    if i > 0 {
      StaysValid(w, coll, q, full, i - 1);
      assert Asks(w, coll, q, full, i - 1);
      ReadTokenFits(w.states[i - 1], w.clocks[i - 1], coll, PageQuery(w, q, i - 1), full);
      assert PageQuery(w, q, i - 1).newer == q.newer && PageQuery(w, q, i - 1).older == q.older;
    }
    FittingReadIsAnswered(w.states[i], w.clocks[i], coll, PageQuery(w, q, i), full);
  }

  lemma ReadTokenFits(t: Tables, now: int, coll: string, q: Query, full: bool)
    requires Valid(t)
    ensures TokenFits(q.(offset := ReadPage(t, now, coll, q, full).offset))
  {
    ViewsAreStamped(t, now, coll, q);
    IssuedTokenFits(t.RowsOf(coll), now, q, full);
  }

  lemma FittingReadIsAnswered(t: Tables, now: int, coll: string, q: Query, full: bool)
    requires TokenFits(q)
    ensures var reply := Exec(t, Request(now, Unconditional, GetCollection(coll, q, full))).reply;
            reply.Answer? && reply.body == Records(ReadPage(t, now, coll, q, full))
  {
  }

  /** Requests that touch other collections, or nothing, leave the walk exact. */
  lemma QuietWalkIsExact(w: Walk, coll: string, q: Query, full: bool)
    requires WalksOn(w, coll, q, full)
    requires forall i :: 0 <= i < |w.pages| ==> View(w, coll, q, i) == View(w, coll, q, 0)
    ensures var s, next := Ordered(View(w, coll, q, 0), q.sort), w.pages[|w.pages| - 1].offset;
            if next.None? then Items(w.pages, |w.pages|) == s
            else |w.pages| <= Sum(w.limits, |w.limits|) < |s| && Items(w.pages, |w.pages|) == s[..Sum(w.limits, |w.limits|)]
  {
    WalkFollows(w, coll, q, full);
    PaginationExact(View(w, coll, q, 0), w.pages, Views(w, coll, q), q, full, w.limits);
  }

  /**
   * Any traffic that leaves the records there are alone, whatever it inserts: a newest-first walk ends with the rows
   * of its first page's moment, an oldest-first walk with those of its last page's.
   */
  lemma BusyWalkIsStable(w: Walk, coll: string, q: Query)
    requires WalksOn(w, coll, q, true) && q.sort != Index
    requires forall i :: 0 <= i < |w.traffic| ==> LeavesRecords(w, coll, i)
    requires w.pages[|w.pages| - 1].offset.None?
    ensures Items(w.pages, |w.pages|) == Ordered(View(w, coll, q, if q.sort == Newest then 0 else |w.pages| - 1), q.sort)
  {
    var views := Views(w, coll, q);
    WalkFollows(w, coll, q, true);
    forall i | 0 <= i < |views| - 1 ensures OnlyInserts(views, i) { ViewGrows(w, coll, q, true, i); }
    if q.sort == Newest {
      NewestWalkStable(w.pages, views, q, w.limits);
    } else {
      OldestWalkStable(w.pages, views, q, w.limits);
    }
  }

  // ---- any traffic at all ----

  /** No record that had expired when page i was read was brought back, with its old timestamp, before the next page. */
  ghost predicate RevivesNothing(w: Walk, coll: string, q: Query, i: nat)
    requires i + 1 < |w.states| == |w.clocks| && i < |w.traffic|
  {
    var rows := w.states[i].RowsOf(coll);
    forall id :: id in rows && rows[id].expiry <= w.clocks[i] && id in View(w, coll, q, i + 1) ==>
      !NeverRewrites(w.states[i], w.traffic[i], coll, id)
  }

  /** Inserts, updates, deletions and expiry: a row of the next view is in place, or newer than all there were. */
  lemma TrafficDrifts(w: Walk, coll: string, q: Query, full: bool, i: nat)
    requires WalksOn(w, coll, q, full) && i < |w.traffic| && RevivesNothing(w, coll, q, i)
    ensures Drifts(View(w, coll, q, i), View(w, coll, q, i + 1))
  {
    StaysValid(w, coll, q, full, i);
    assert Meanwhile(w, coll, i);
    var t, reqs := w.states[i], w.traffic[i];
    RunIsCaught(t, reqs, coll);
    assert CollectionValid(t, coll);
    forall id | id in View(w, coll, q, i + 1) && id in t.RowsOf(coll) && t.RowsOf(coll)[id].expiry <= w.clocks[i]
      ensures View(w, coll, q, i + 1)[id].modified > t.Stamp(coll)
    {
      OldAsLongAsNotRewritten(t, reqs, coll, id);
    }
  }

  lemma NextPage(w: Walk, coll: string, q: Query, i: nat)
    requires WalksOn(w, coll, q, true) && i + 1 < |w.pages|
    ensures w.limits[i + 1] > 0
    ensures w.pages[i + 1] == PageOf(View(w, coll, q, i + 1), WithPage(q, w.limits[i + 1], w.pages[i].offset), true)
  {
    WalkFollows(w, coll, q, true);
    FollowsAt(w.pages, Views(w, coll, q), q, true, w.limits, i + 1);
  }

  /** Whatever happened before, the token a page ends with stands somewhere in the view the page was read from. */
  lemma TokenStandsInView(w: Walk, coll: string, q: Query, i: nat) returns (start: nat, p: nat)
    requires WalksOn(w, coll, q, true) && q.sort != Index && i < |w.pages| && w.pages[i].offset.Some?
    ensures var s, asked := Ordered(View(w, coll, q, i), q.sort), WithPage(q, w.limits[i], TokenBefore(w.pages, i));
            w.limits[i] > 0 && IsCut(s, asked, start, w.limits[i], w.pages[i])
            && w.pages[i].offset.value.timestamp.Some? && StandsAt(s, false, w.pages[i].offset, p)
            && p <= start + w.limits[i] && (p < start + w.limits[i] <==> Overlaps(s, asked, start, w.limits[i]))
  {
    WalkFollows(w, coll, q, true);
    FollowsAt(w.pages, Views(w, coll, q), q, true, w.limits, i);
    start, p := TokenStands(View(w, coll, q, i), WithPage(q, w.limits[i], TokenBefore(w.pages, i)), w.limits[i]);
    TokenHasStamp(Ordered(View(w, coll, q, i), q.sort), WithPage(q, w.limits[i], TokenBefore(w.pages, i)), start, w.limits[i]);
  }

  /** The page after any traffic: of the rows due after the place p where the last token stands it misses exactly as many
      as rows that token counts on have been updated, deleted or have expired. */
  lemma PageAfterTraffic(w: Walk, coll: string, q: Query, i: nat) returns (p: nat)
    requires WalksOn(w, coll, q, true) && q.sort != Index && i < |w.traffic| && RevivesNothing(w, coll, q, i)
    ensures w.pages[i].offset.Some? && w.pages[i].offset.value.timestamp.Some?
    ensures StandsAt(Ordered(View(w, coll, q, i), q.sort), false, w.pages[i].offset, p)
    ensures var v, v' := View(w, coll, q, i), View(w, coll, q, i + 1);
            w.pages[i + 1].items
            == Slice(Due(v, v', q.sort, p), Lost(Ordered(v, q.sort), p, w.pages[i].offset.value.offset, v'), w.limits[i + 1])
  {
    assert Asks(w, coll, q, true, i + 1);
    var start;
    start, p := TokenStandsInView(w, coll, q, i);
    NextPageServes(w, coll, q, i, p);
  }

  lemma NextPageServes(w: Walk, coll: string, q: Query, i: nat, p: nat)
    requires WalksOn(w, coll, q, true) && q.sort != Index && i < |w.traffic| && RevivesNothing(w, coll, q, i)
    requires w.pages[i].offset.Some? && w.pages[i].offset.value.timestamp.Some?
    requires StandsAt(Ordered(View(w, coll, q, i), q.sort), false, w.pages[i].offset, p)
    ensures var v, v' := View(w, coll, q, i), View(w, coll, q, i + 1);
            w.pages[i + 1].items
            == Slice(Due(v, v', q.sort, p), Lost(Ordered(v, q.sort), p, w.pages[i].offset.value.offset, v'), w.limits[i + 1])
  {
    TrafficDrifts(w, coll, q, true, i);
    NextPage(w, coll, q, i);
    PagePassesOver(View(w, coll, q, i), View(w, coll, q, i + 1), WithPage(q, w.limits[i + 1], w.pages[i].offset),
                   w.limits[i + 1], p);
  }
}
