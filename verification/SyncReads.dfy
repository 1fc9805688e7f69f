/** What a read answers, in terms of the stored records and of what was asked. */
module SyncReads {
  import opened Wrappers
  import opened SyncTables
  import opened Paging
  import opened PagingTheorems
  import opened PagingWalks
  import opened SyncRequests
  import opened SyncPages
  import opened SyncWalks

  /** A stored record that a query asks for at some time: not expired, within the window, and named if names are given. */
  predicate Wanted(rows: Rows, now: int, q: Query, id: string) {
    id in rows && now < rows[id].expiry
    && (q.newer.None? || q.newer.value < rows[id].modified)
    && (q.older.None? || rows[id].modified < q.older.value)
    && (q.ids == [] || exists i :: 0 <= i < |q.ids| && q.ids[i] == id)
  }

  // ---- one page ----

  lemma ItemsAreListed(listing: seq<Bso>, q: Query, full: bool)
    ensures exists k :: 0 <= k <= |listing| && PageFrom(listing, q, full).items <= listing[k..]
    ensures |PageFrom(listing, q, full).items| <= q.limit.GetOr(DEFAULT_LIMIT)
  {
    var k := if Skip(q) <= |listing| then Skip(q) else |listing|;
    assert PageFrom(listing, q, full).items <= listing[k..];
  }

  lemma PartIsListed(s: seq<Bso>, k: nat, part: seq<Bso>, sort: Sorting)
    requires k <= |s| && part <= s[k..] && Sorted(s, sort)
    ensures Sorted(part, sort) && forall b :: b in part ==> b in s
  {
    assert forall i :: 0 <= i < |part| ==> part[i] == s[k + i];
  }

  /** Whatever a read answers with is stored in the collection as it is given, and is what was asked for; the records come
      in the order asked for, none twice, and no more than the limit. */
  lemma ReadIsSound(t: Tables, req: Request)
    requires req.op.GetCollection? && Exec(t, req).reply.Answer?
    ensures var reply, q, rows := Exec(t, req).reply, req.op.query, t.RowsOf(req.op.coll);
            reply.body.Records?
            && (forall b :: b in reply.body.page.items ==> Wanted(rows, req.now, q, b.id) && b.row == rows[b.id])
            && Sorted(reply.body.page.items, q.sort)
            && |reply.body.page.items| <= q.limit.GetOr(DEFAULT_LIMIT)
  {
    PageIsSound(t.RowsOf(req.op.coll), req.now, req.op.query, req.op.full);
  }

  lemma PageIsSound(rows: Rows, now: int, q: Query, full: bool)
    ensures var items := GetBsos(rows, now, q, full).items;
            (forall b :: b in items ==> Wanted(rows, now, q, b.id) && b.row == rows[b.id])
            && Sorted(items, q.sort) && |items| <= q.limit.GetOr(DEFAULT_LIMIT)
  {
    var left := Resume(Visible(rows, now, q), q, full);
    OrderedLists(left, q.sort);
    PageIsListed(Ordered(left, q.sort), q, full);
    forall b | b in GetBsos(rows, now, q, full).items ensures Wanted(rows, now, q, b.id) && b.row == rows[b.id] {
      assert b in Ordered(left, q.sort) && b.id in left && b.row == left[b.id];
    }
  }

  lemma PageIsListed(listing: seq<Bso>, q: Query, full: bool)
    requires Sorted(listing, q.sort)
    ensures var items := PageFrom(listing, q, full).items;
            Sorted(items, q.sort) && |items| <= q.limit.GetOr(DEFAULT_LIMIT) && forall b :: b in items ==> b in listing
  {
    ItemsAreListed(listing, q, full);
    var items := PageFrom(listing, q, full).items;
    var k :| 0 <= k <= |listing| && items <= listing[k..];
    PartIsListed(listing, k, items, q.sort);
  }

  /** Newest first the stamps never rise, oldest first they never fall, and by index neither does the sortindex rise nor does
      a record without one come before one that has it. */
  predicate InOrder(sort: Sorting, a: Row, b: Row) {
    match sort
    case Newest => b.modified <= a.modified
    case Oldest => a.modified <= b.modified
    case Index => b.sortindex.Some? ==> a.sortindex.Some? && b.sortindex.value <= a.sortindex.value
  }

  lemma ReadIsInOrder(t: Tables, req: Request)
    requires req.op.GetCollection? && Exec(t, req).reply.Answer?
    ensures var items := Exec(t, req).reply.body.page.items;
            (forall i, j :: 0 <= i < j < |items| ==> InOrder(req.op.query.sort, items[i].row, items[j].row))
            && forall i, j :: 0 <= i < j < |items| ==> items[i].id != items[j].id
  {
    ReadIsSound(t, req);
    var items, sort := Exec(t, req).reply.body.page.items, req.op.query.sort;
    forall i, j | 0 <= i < j < |items| ensures InOrder(sort, items[i].row, items[j].row) && items[i].id != items[j].id {
      assert Before(sort, items[i], items[j]);
      BeforeAsymmetric(sort, items[i], items[j]);
      assert items[i] in items && items[j] in items;
    }
  }

  /** A read that names nothing to resume from and whose limit is not reached answers with everything that is wanted. */
  lemma ReadIsComplete(t: Tables, req: Request, id: string)
    requires req.op.GetCollection? && Exec(t, req).reply.Answer? && req.op.query.offset.None? && req.op.coll in t.names
    requires |Exec(t, req).reply.body.page.items| < req.op.query.limit.GetOr(DEFAULT_LIMIT)
    requires Wanted(t.RowsOf(req.op.coll), req.now, req.op.query, id)
    ensures Bso(id, t.RowsOf(req.op.coll)[id]) in Exec(t, req).reply.body.page.items
  {
    var q, rows := req.op.query, t.RowsOf(req.op.coll);
    var left := Resume(Visible(rows, req.now, q), q, req.op.full);
    OrderedLists(left, q.sort);
    WholePage(Ordered(left, q.sort), q, req.op.full);
    assert id in left && left[id] == rows[id];
  }

  lemma WholePage(listing: seq<Bso>, q: Query, full: bool)
    requires q.offset.None? && |PageFrom(listing, q, full).items| < q.limit.GetOr(DEFAULT_LIMIT)
    ensures PageFrom(listing, q, full).items == listing
  {
    assert listing[0..] == listing;
  }

  /** The token's timestamp lies outside the window that the query gives with it. */
  predicate TokenIsForeign(q: Query) {
    q.sort != Index && q.offset.Some? && q.offset.value.timestamp.Some?
    && var stamp := q.offset.value.timestamp.value;
       if q.newer.Some? then stamp < q.newer.value else q.older.Some? && q.older.value < stamp
  }

  /** A read is answered unless its token is foreign to its window; then it is an error. */
  lemma ReadIsAnswered(t: Tables, now: int, coll: string, q: Query, full: bool)
    ensures var out := Exec(t, Request(now, Unconditional, GetCollection(coll, q, full)));
            if TokenIsForeign(q) then out == Outcome(t, Refused(BadRequest))
            else out.tables == t && out.reply.Answer? && out.reply.lastModified == t.Stamp(coll)
  {
  }

  /** With a limit of zero nothing is answered, and of full records there is a token that starts anew. */
  lemma NothingIsAskedFor(t: Tables, now: int, coll: string, q: Query, full: bool)
    requires q.limit == Some(0) && !TokenIsForeign(q) && coll in t.names
    ensures Exec(t, Request(now, Unconditional, GetCollection(coll, q, full))).reply.body
            == Records(Page([], if full then Some(Offset(None, 0)) else None))
  {
  }

  /** One record is answered with if and only if it is stored and has not expired, and as it is stored. */
  lemma RecordIsRead(t: Tables, now: int, coll: string, id: string)
    ensures var reply := Exec(t, Request(now, Unconditional, GetBso(coll, id))).reply;
            (reply.Answer? <==> id in t.RowsOf(coll) && now < t.RowsOf(coll)[id].expiry)
            && (reply.Answer? ==> reply == Answer(t.RowsOf(coll)[id].modified, Record(Bso(id, t.RowsOf(coll)[id]))))
            && (!reply.Answer? ==> reply == Refused(NotFound))
  {
  }

  // ---- a finished walk ----

  /** The record is on one page, as often as once, and on no other. */
  predicate OnOnePage(pages: seq<Page>, id: string) {
    exists i :: 0 <= i < |pages| && TimesOf(pages[i], id) == 1
                && forall j :: 0 <= j < |pages| && j != i ==> TimesOf(pages[j], id) == 0
  }

  lemma {:induction false} ServedOnOnePage(pages: seq<Page>, n: nat, id: string) returns (i: nat)
    requires n <= |pages| && ServedBetween(pages, 0, n, id) == 1
    ensures i < n && TimesOf(pages[i], id) == 1 && forall j :: 0 <= j < n && j != i ==> TimesOf(pages[j], id) == 0
  {
    if TimesOf(pages[n - 1], id) == 1 {
      i := n - 1;
      NeverServed(pages, n - 1, id);
    } else {
      i := ServedOnOnePage(pages, n - 1, id);
    }
  }

  lemma {:induction false} NeverServed(pages: seq<Page>, n: nat, id: string)
    requires n <= |pages| && ServedBetween(pages, 0, n, id) == 0
    ensures forall j :: 0 <= j < n ==> TimesOf(pages[j], id) == 0
  {
    if n > 0 { NeverServed(pages, n - 1, id); }
  }

  lemma OnceIsOnOnePage(pages: seq<Page>, id: string)
    requires Times(Items(pages, |pages|), id) == 1
    ensures OnOnePage(pages, id)
  {
    ServedIsTimes(pages, 0, |pages|, id);
    var i := ServedOnOnePage(pages, |pages|, id);
  }

  /** Page request i of a walk, for a record. */
  predicate WantedAt(w: Walk, coll: string, q: Query, i: nat, id: string)
    requires i < |w.states| == |w.clocks|
  {
    Wanted(w.states[i].RowsOf(coll), w.clocks[i], q, id)
  }

  lemma ViewIsWanted(w: Walk, coll: string, q: Query, i: nat, id: string)
    requires i < |w.states| == |w.clocks|
    ensures id in View(w, coll, q, i) <==> WantedAt(w, coll, q, i, id)
    ensures id in View(w, coll, q, i) ==> View(w, coll, q, i)[id] == w.states[i].RowsOf(coll)[id]
  {
  }

  /** The collection is at rest: no record changes, and none expires, while the pages are read. */
  predicate AtRest(w: Walk, coll: string, i: nat)
    requires i < |w.states| == |w.clocks|
  {
    var rows := w.states[0].RowsOf(coll);
    w.states[i].RowsOf(coll) == rows && forall id :: id in rows ==> (w.clocks[i] < rows[id].expiry <==> w.clocks[0] < rows[id].expiry)
  }

  lemma ViewAtRest(w: Walk, coll: string, q: Query, i: nat)
    requires i < |w.states| == |w.clocks| && AtRest(w, coll, i)
    ensures View(w, coll, q, i) == View(w, coll, q, 0)
  {
  }

  /** A finished walk over a collection at rest, in any order: what is on its pages is stored and wanted, and every record
      that is stored and wanted is on exactly one of them. */
  lemma WalkAtRestIsExact(w: Walk, coll: string, q: Query, full: bool, id: string)
    requires WalksOn(w, coll, q, full) && w.pages[|w.pages| - 1].offset.None?
    requires forall i :: 0 <= i < |w.states| ==> AtRest(w, coll, i)
    ensures OnOnePage(w.pages, id) <==> WantedAt(w, coll, q, 0, id)
    ensures !OnOnePage(w.pages, id) ==> forall i :: 0 <= i < |w.pages| ==> TimesOf(w.pages[i], id) == 0
  {
    forall i | 0 <= i < |w.pages| ensures View(w, coll, q, i) == View(w, coll, q, 0) {
      assert AtRest(w, coll, i);
      ViewAtRest(w, coll, q, i);
    }
    QuietWalkIsExact(w, coll, q, full);
    TimesListed(View(w, coll, q, 0), q.sort, id);
    ViewIsWanted(w, coll, q, 0, id);
    if WantedAt(w, coll, q, 0, id) {
      OnceIsOnOnePage(w.pages, id);
    } else {
      ServedIsTimes(w.pages, 0, |w.pages|, id);
      NeverServed(w.pages, |w.pages|, id);
    }
  }

  /** The record is wanted all the time, and stays where it is. */
  predicate WantedThroughout(w: Walk, coll: string, q: Query, id: string)
    requires 0 < |w.states| == |w.clocks|
  {
    WantedAt(w, coll, q, 0, id)
    && forall i :: 0 <= i < |w.states| ==>
      WantedAt(w, coll, q, i, id)
      && w.states[i].RowsOf(coll)[id].modified == w.states[0].RowsOf(coll)[id].modified
  }

  /** And a finished walk with any traffic that spares the records its tokens count on has every record that is wanted
      throughout on exactly one page. */
  lemma WantedIsOnOnePage(w: Walk, coll: string, q: Query, id: string)
    requires Finishes(w, coll, q) && WantedThroughout(w, coll, q, id)
    ensures OnOnePage(w.pages, id)
  {
    var views: seq<Rows> := Views(w, coll, q);
    forall i: nat | i < |views| ensures id in views[i] && views[i][id].modified == views[0][id].modified {
      assert WantedAt(w, coll, q, i, id) && WantedAt(w, coll, q, 0, id);
      ViewIsWanted(w, coll, q, i, id);
      ViewIsWanted(w, coll, q, 0, id);
    }
    UntouchedIsServedOnce(w, coll, q, id);
    OnceIsOnOnePage(w.pages, id);
  }
}
