/** A walk that goes wrong, as a run from an empty account: a record that was served is updated before the next page. */
module BrokenWalks {
  import opened Wrappers
  import opened SyncTables
  import opened OffsetText
  import opened Paging
  import opened PagingTheorems
  import opened PagingWalks
  import opened SyncRequests
  import opened SyncState
  import opened SyncTheorems
  import opened SyncPages

  // ---- the account ----

  function Sent(id: string): Posted {
    Posted(id, Some("x"), None, None)
  }

  function At(modified: int): Row {
    Row(None, "x", modified, modified + DEFAULT_BSO_TTL * 1000)
  }

  /** z is written at 10, a and b at 20, x at 30; after the first page x is written again. */
  const WRITE_Z: Request := Request(10, Unconditional, PutBso("c", Sent("z")))
  const WRITE_A_B: Request := Request(20, Unconditional, PostCollection("c", None, [] + [Sent("a")] + [Sent("b")]))
  const WRITE_X: Request := Request(30, Unconditional, PutBso("c", Sent("x")))
  const SETUP: seq<Request> := [] + [WRITE_Z] + [WRITE_A_B] + [WRITE_X]
  const TOUCH_X: Request := Request(2000, Unconditional, PutBso("c", Posted("x", Some("y"), None, None)))

  const THREE: Rows := map["z" := At(10)]["a" := At(20)]["b" := At(20)]
  const FOUR: Rows := THREE["x" := At(30)]
  const TOUCHED: Row := Row(None, "y", 2000, 30 + DEFAULT_BSO_TTL * 1000)

  ghost function Before(): Tables {
    Run(EMPTY, SETUP)
  }

  ghost function After(): Tables {
    Run(Before(), [TOUCH_X])
  }

  lemma PostExec(t: Tables, req: Request)
    requires req.op.PostCollection? && req.op.upload.None? && req.pre == Unconditional && MayWrite(t, req.now, req.op.coll)
    ensures Exec(t, req).tables.RowsOf(req.op.coll) == PutAll(t.RowsOf(req.op.coll), req.op.valid, req.now)
    ensures Exec(t, req).tables.stamps == t.stamps[req.op.coll := req.now]
  {
  }

  lemma PutAllOneMore(rows: Rows, ps: seq<Posted>, p: Posted, now: int)
    ensures PutAll(rows, ps + [p], now) == Put(PutAll(rows, ps, now), p, now)
  {
    assert (ps + [p])[..|ps|] == ps;
  }

  /** The rows and the stamp of the one collection. */
  predicate IsAt(t: Tables, rows: Rows, stamp: int) {
    t.RowsOf("c") == rows && t.stamps == map["c" := stamp]
  }

  lemma ZIsWritten()
    ensures IsAt(Exec(EMPTY, WRITE_Z).tables, map["z" := At(10)], 10)
  {
    SinglePut(EMPTY, WRITE_Z);
  }

  lemma AAndBAreWritten(t: Tables)
    requires IsAt(t, map["z" := At(10)], 10)
    ensures IsAt(Exec(t, WRITE_A_B).tables, THREE, 20)
  {
    PostExec(t, WRITE_A_B);
    PutAllOneMore(t.RowsOf("c"), [] + [Sent("a")], Sent("b"), 20);
    PutAllOneMore(t.RowsOf("c"), [], Sent("a"), 20);
  }

  lemma XIsWritten(t: Tables)
    requires IsAt(t, THREE, 20)
    ensures IsAt(Exec(t, WRITE_X).tables, FOUR, 30)
  {
    SinglePut(t, WRITE_X);
    assert Put(THREE, Sent("x"), 30) == FOUR;
  }

  lemma RowsBefore()
    ensures IsAt(Before(), FOUR, 30)
  {
    var z, zab := Exec(EMPTY, WRITE_Z).tables, Exec(Exec(EMPTY, WRITE_Z).tables, WRITE_A_B).tables;
    RunOneMore(EMPTY, [], WRITE_Z);
    RunOneMore(EMPTY, [] + [WRITE_Z], WRITE_A_B);
    RunOneMore(EMPTY, [] + [WRITE_Z] + [WRITE_A_B], WRITE_X);
    ZIsWritten();
    AAndBAreWritten(z);
    XIsWritten(zab);
  }

  lemma RowsAfter()
    ensures After().RowsOf("c") == THREE["x" := TOUCHED]
  {
    RowsBefore();
    RunOne(Before(), TOUCH_X);
    SinglePut(Before(), TOUCH_X);
  }

  // ---- its pages, one row each, newest first ----

  const NEWEST: Query := Query(None, None, Newest, None, None, [])

  function Asked(bound: int, skip: nat): Query {
    WithPage(NEWEST, 1, Some(Offset(Some(bound), skip)))
  }

  const B_A_Z: seq<Bso> := [Bso("b", At(20)), Bso("a", At(20)), Bso("z", At(10))]
  const X_B_A_Z: seq<Bso> := [Bso("x", At(30)), Bso("b", At(20)), Bso("a", At(20)), Bso("z", At(10))]

  const X_PAGE: Page := Page([Bso("x", At(30))], Some(Offset(Some(30), 1)))
  const A_PAGE: Page := Page([Bso("a", At(20))], Some(Offset(Some(20), 1)))
  const A_AGAIN: Page := Page([Bso("a", At(20))], Some(Offset(Some(20), 2)))
  const Z_PAGE: Page := Page([Bso("z", At(10))], None)

  lemma ListingIs(v: Rows, s: seq<Bso>, sort: Sorting)
    requires Sorted(s, sort) && Lists(s, v)
    ensures Ordered(v, sort) == s
  {
    OrderedLists(v, sort);
    ListingUnique(Ordered(v, sort), s, sort);
  }

  lemma FourInOrder()
    ensures Ordered(FOUR, Newest) == X_B_A_Z
  {
    assert IdLess("a", "b");
    ListingIs(FOUR, X_B_A_Z, Newest);
  }

  lemma ThreeInOrder()
    ensures Ordered(THREE, Newest) == B_A_Z
  {
    assert IdLess("a", "b");
    ListingIs(THREE, B_A_Z, Newest);
  }

  /** No token with a bound of 20 or 30 leads to x any more. */
  lemma WithoutX(bound: int, skip: nat)
    requires 20 <= bound <= 30
    ensures Ordered(Resume(THREE["x" := TOUCHED], Asked(bound, skip), true), Newest) == B_A_Z
  {
    var left := Resume(THREE["x" := TOUCHED], Asked(bound, skip), true);
    assert left.Keys == {"b", "a", "z"};
    assert left == THREE;
    ThreeInOrder();
  }

  lemma OneRowPage(listing: seq<Bso>, q: Query, b: Bso, skip: nat)
    requires q.limit == Some(1) && q.sort == Newest && Skip(q) + 1 < |listing| && listing[Skip(q)] == b
    requires b.row.modified % 10 == 0 && skip == if Bound(q) == Some(b.row.modified) then 1 + Skip(q) else 1
    ensures PageFrom(listing, q, true) == Page([b], Some(Offset(Some(b.row.modified), skip)))
  {
    assert Slice(listing, Skip(q), 2)[..1] == [b];
    MoreFollows(listing, q, true, 1, [b]);
    assert Paging.Stamps([b]) == [b.row.modified];
  }

  lemma XIsServed()
    ensures PageOf(FOUR, WithPage(NEWEST, 1, None), true) == X_PAGE
  {
    FourInOrder();
    assert Resume(FOUR, WithPage(NEWEST, 1, None), true) == FOUR;
    OneRowPage(X_B_A_Z, WithPage(NEWEST, 1, None), X_B_A_Z[0], 1);
  }

  lemma AIsServed()
    ensures PageOf(THREE["x" := TOUCHED], Asked(30, 1), true) == A_PAGE
  {
    WithoutX(30, 1);
    OneRowPage(B_A_Z, Asked(30, 1), B_A_Z[1], 1);
  }

  lemma AIsServedAgain()
    ensures PageOf(THREE["x" := TOUCHED], Asked(20, 1), true) == A_AGAIN
  {
    WithoutX(20, 1);
    OneRowPage(B_A_Z, Asked(20, 1), B_A_Z[1], 2);
  }

  lemma ZIsServed()
    ensures PageOf(THREE["x" := TOUCHED], Asked(20, 2), true) == Z_PAGE
  {
    WithoutX(20, 2);
    assert Slice(B_A_Z, 2, 2) == [B_A_Z[2]];
    NothingFollows(B_A_Z, Asked(20, 2), true, 1);
  }

  // ---- the walk ----

  ghost function Stray(): Walk {
    Walk([Before(), After(), After(), After()], [1000, 3000, 4000, 5000], [1, 1, 1, 1],
         [X_PAGE, A_PAGE, A_AGAIN, Z_PAGE], [[TOUCH_X], [], []])
  }

  /** The token as text comes back. */
  lemma TokenIsReread(bound: int, skip: nat)
    requires bound >= 0 && bound % 10 == 0
    ensures Reread(Some(Offset(Some(bound), skip))) == Some(Offset(Some(bound), skip))
  {
    OffsetRoundTrip(Offset(Some(bound), skip));
  }

  lemma AllAreVisible(rows: Rows, now: int, limit: nat, token: Option<Offset>)
    requires forall id :: id in rows ==> rows[id].expiry > now
    ensures Visible(rows, now, WithPage(NEWEST, limit, token)) == rows
    ensures Visible(rows, now, NEWEST) == rows
  {
  }

  lemma PageIsRead(t: Tables, now: int, token: Option<Offset>, rows: Rows)
    requires "c" in t.names && t.RowsOf("c") == rows && forall id :: id in rows ==> rows[id].expiry > now
    ensures ReadPage(t, now, "c", WithPage(NEWEST, 1, token), true) == PageOf(rows, WithPage(NEWEST, 1, token), true)
  {
    AllAreVisible(rows, now, 1, token);
  }

  lemma NamesKnown()
    ensures "c" in Before().names && "c" in After().names
  {
    RunOneMore(EMPTY, [] + [WRITE_Z] + [WRITE_A_B], WRITE_X);
    var zab := Run(EMPTY, [] + [WRITE_Z] + [WRITE_A_B]);
    RowsBefore();
    assert "c" in zab.names by {
      RunOneMore(EMPTY, [] + [WRITE_Z], WRITE_A_B);
      RunOneMore(EMPTY, [], WRITE_Z);
      WriteKnowsName(EMPTY, WRITE_Z);
      NamesStay(Run(EMPTY, [] + [WRITE_Z]), WRITE_A_B);
    }
    NamesStay(zab, WRITE_X);
    RunOne(Before(), TOUCH_X);
    NamesStay(Before(), TOUCH_X);
  }

  lemma WriteKnowsName(t: Tables, req: Request)
    requires req.op.PutBso? && req.pre == Unconditional && MayWrite(t, req.now, req.op.coll)
    ensures req.op.coll in Exec(t, req).tables.names
  {
  }

  lemma BeforeIsValid()
    ensures Valid(Before())
  {
    EmptyIsValid({});
    RunKeepsValid(EMPTY, SETUP);
  }

  lemma FirstIsAsked()
    ensures Asks(Stray(), "c", NEWEST, true, 0)
  {
    NamesKnown();
    RowsBefore();
    PageIsRead(Before(), 1000, None, FOUR);
    XIsServed();
  }

  lemma NextIsAsked(i: nat, bound: int, skip: nat)
    requires 1 <= i < 4 && TokenBefore(Stray().pages, i) == Some(Offset(Some(bound), skip)) && bound >= 0 && bound % 10 == 0
    requires PageOf(THREE["x" := TOUCHED], Asked(bound, skip), true) == Stray().pages[i]
    ensures Asks(Stray(), "c", NEWEST, true, i)
  {
    AskedNext(i, bound, skip);
    ReadAfter(Stray().clocks[i], bound, skip);
  }

  lemma AskedNext(i: nat, bound: int, skip: nat)
    requires 1 <= i < 4 && TokenBefore(Stray().pages, i) == Some(Offset(Some(bound), skip)) && bound >= 0 && bound % 10 == 0
    ensures PageQuery(Stray(), NEWEST, i) == Asked(bound, skip)
    ensures Stray().states[i] == After() && Stray().clocks[i] <= 5000 && Stray().pages[i - 1].offset.Some?
  {
    TokenIsReread(bound, skip);
  }

  lemma ReadAfter(now: int, bound: int, skip: nat)
    requires now <= 5000
    ensures ReadPage(After(), now, "c", Asked(bound, skip), true) == PageOf(THREE["x" := TOUCHED], Asked(bound, skip), true)
  {
    NamesKnown();
    RowsAfter();
    PageIsRead(After(), now, Some(Offset(Some(bound), skip)), THREE["x" := TOUCHED]);
  }

  lemma IsAsked(i: nat)
    requires i < 4
    ensures Asks(Stray(), "c", NEWEST, true, i)
  {
    match i {
      case 0 => FirstIsAsked();
      case 1 => AIsServed(); NextIsAsked(1, 30, 1);
      case 2 => AIsServedAgain(); NextIsAsked(2, 20, 1);
      case 3 => ZIsServed(); NextIsAsked(3, 20, 2);
    }
  }

  lemma OnlyTheTouch(i: nat)
    requires i < 3
    ensures Meanwhile(Stray(), "c", i)
  {
    assert [TOUCH_X][..0] == [];
    assert NeverDrops(Before(), [TOUCH_X][..0], "c");
  }

  lemma StrayWalks()
    ensures WalksOn(Stray(), "c", NEWEST, true)
  {
    BeforeIsValid();
    NamesKnown();
    forall i: nat | i < 4 ensures Asks(Stray(), "c", NEWEST, true, i) { IsAsked(i); }
    forall i: nat | i < 3 ensures Meanwhile(Stray(), "c", i) { OnlyTheTouch(i); }
  }

  lemma Untouched(id: string)
    requires id == "a" || id == "b"
    ensures StaysInPlace(Views(Stray(), "c", NEWEST), 0, 3, id)
  {
    var views: seq<Rows> := Views(Stray(), "c", NEWEST);
    forall i: nat | i < 4 ensures id in views[i] && views[i][id].modified == 20 { ViewHas(i, id); }
  }

  lemma ViewHas(i: nat, id: string)
    requires i < 4 && (id == "a" || id == "b")
    ensures id in View(Stray(), "c", NEWEST, i) && View(Stray(), "c", NEWEST, i)[id].modified == 20
  {
    if i == 0 {
      RowsBefore();
      RowIsVisible(FOUR, 1000, id);
    } else {
      RowsAfter();
      RowIsVisible(THREE["x" := TOUCHED], Stray().clocks[i], id);
    }
  }

  lemma RowIsVisible(rows: Rows, now: int, id: string)
    requires id in rows && rows[id].expiry > now
    ensures id in Visible(rows, now, NEWEST) && Visible(rows, now, NEWEST)[id] == rows[id]
  {
  }

  lemma SetupIsWellFormed()
    ensures AllWellFormed(SETUP)
  {
  }

  lemma ServedTimes(id: string)
    ensures Times(Items(Stray().pages, 4), id)
            == Times(X_PAGE.items, id) + Times(A_PAGE.items, id) + Times(A_AGAIN.items, id) + Times(Z_PAGE.items, id)
  {
    ServedIsTimes(Stray().pages, 0, 4, id);
    ServedByPages(Stray().pages, id);
  }

  lemma ServedByPages(pages: seq<Page>, id: string)
    requires |pages| == 4
    ensures ServedBetween(pages, 0, 4, id)
            == TimesOf(pages[0], id) + TimesOf(pages[1], id) + TimesOf(pages[2], id) + TimesOf(pages[3], id)
  {
    assert ServedBetween(pages, 0, 1, id) == TimesOf(pages[0], id);
    assert ServedBetween(pages, 0, 2, id) == TimesOf(pages[0], id) + TimesOf(pages[1], id);
  }

  /** The walk comes to its end, nobody has touched b, and b is in none of its pages. */
  lemma UpdatedRowHidesAnother()
    ensures Stray().states[0] == Run(EMPTY, SETUP) && AllWellFormed(SETUP)
    ensures WalksOn(Stray(), "c", NEWEST, true) && Stray().pages[3].offset.None?
    ensures StaysInPlace(Views(Stray(), "c", NEWEST), 0, 3, "b") && Times(Items(Stray().pages, 4), "b") == 0
  {
    StrayWalks();
    SetupIsWellFormed();
    Untouched("b");
    ServedTimes("b");
    OnesServed("b");
  }

  lemma OnesServed(id: string)
    ensures Times(X_PAGE.items, id) == if id == "x" then 1 else 0
    ensures Times(A_PAGE.items, id) == Times(A_AGAIN.items, id) == if id == "a" then 1 else 0
    ensures Times(Z_PAGE.items, id) == if id == "z" then 1 else 0
  {
    TimesOne(Bso("x", At(30)), id);
    TimesOne(Bso("a", At(20)), id);
    TimesOne(Bso("z", At(10)), id);
  }

  /** And nobody has touched a, which is served twice. */
  lemma UpdatedRowRepeatsAnother()
    ensures Stray().states[0] == Run(EMPTY, SETUP) && AllWellFormed(SETUP)
    ensures WalksOn(Stray(), "c", NEWEST, true) && Stray().pages[3].offset.None?
    ensures StaysInPlace(Views(Stray(), "c", NEWEST), 0, 3, "a") && Times(Items(Stray().pages, 4), "a") == 2
  {
    StrayWalks();
    SetupIsWellFormed();
    Untouched("a");
    ServedTimes("a");
    OnesServed("a");
  }
}
