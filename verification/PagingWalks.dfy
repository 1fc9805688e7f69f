/** Whole walks while other clients insert, update and delete: how often a row is served. */
module PagingWalks {
  import opened Wrappers
  import opened SyncTables
  import opened Paging
  import opened PagingTheorems
  import opened PagingDrift
  import opened PagingTokens

  /** Every row the token counts on is still in place. */
  ghost predicate CountsInPlace(v: Rows, sort: Sorting, token: Option<Offset>, w: Rows) {
    token.Some? && forall p: nat :: StandsAt(Ordered(v, sort), false, token, p) && token.value.offset <= p ==>
                     Lost(Ordered(v, sort), p, token.value.offset, w) == 0
  }

  // ---- one page, with nothing lost ----

  lemma PageOfDue(listing: seq<Bso>, counted: seq<Bso>, due: seq<Bso>, q: Query, limit: nat)
    requires q.limit == Some(limit) && limit > 0 && listing == counted + due && |counted| == Skip(q)
    ensures var page := PageFrom(listing, q, true);
            if |due| <= limit then page == Page(due, None) else page.items == due[..limit] && page.offset.Some?
  {
    SliceOfConcat(counted, due, Skip(q), limit + 1);
    if |due| <= limit {
      NothingFollows(listing, q, true, limit);
    } else {
      assert due[0..limit + 1][..limit] == due[..limit];
      MoreFollows(listing, q, true, limit, due[..limit]);
    }
  }

  /** The counted rows all carry the bound, so the page behind them does not overlap. */
  lemma CountedCarryTheBound(s: seq<Bso>, q: Query, p: nat, w: Rows, k: nat)
    requires Bound(q).Some? && StandsAt(s, false, q.offset, p) && k < |Counted(s, p, Skip(q), w)|
    ensures Counted(s, p, Skip(q), w)[k].row.modified == Bound(q).value
  {
    var part := s[p - Skip(q)..p];
    var b := Kept(part, w)[k];
    KeptMembers(part, w, b);
    var a :| a in part && a.id == b.id && Still(a, w);
    var i :| 0 <= i < |part| && part[i] == a;
    assert Modified(s, p - Skip(q) + i) == Bound(q).value;
  }

  lemma CutIsDue(w: Rows, q: Query, start: nat, limit: nat, page: Page, counted: seq<Bso>, due: seq<Bso>)
    requires q.sort != Index && Bound(q).Some? && IsCut(Ordered(w, q.sort), q, start, limit, page)
    requires Ordered(Resume(w, q, true), q.sort) == counted + due && |counted| == Skip(q)
    ensures Ordered(w, q.sort)[start..] == due
    ensures Skip(q) > 0 ==> Ordered(w, q.sort)[start - 1] == counted[Skip(q) - 1]
  {
    var s, r := Ordered(w, q.sort), start - Skip(q);
    ResumeRestarts(w, q, r);
    SplitsThere(s, r, counted, due);
  }

  lemma SplitsThere(s: seq<Bso>, r: nat, counted: seq<Bso>, due: seq<Bso>)
    requires r <= |s| && s[r..] == counted + due
    ensures s[r + |counted|..] == due && (counted != [] ==> s[r + |counted| - 1] == counted[|counted| - 1])
  {
    assert s[r..][|counted|..] == s[r + |counted|..];
    assert (counted + due)[|counted|..] == due;
    if counted != [] { assert s[r..][|counted| - 1] == s[r + |counted| - 1]; }
  }

  /** The page holds what is due, or the first of it, and then the token stands in s where the rest begins. */
  ghost predicate ServesDue(s: seq<Bso>, page: Page, due: seq<Bso>, limit: nat, p: nat) {
    if page.offset.None? then page.items == due
    else
      limit <= |due| && page.items == due[..limit] && p <= |s| && StandsAt(s, false, page.offset, p) && s[p..] == due[limit..]
  }

  /** With nothing lost the page serves what is due, and its token stands where the rest of that begins. */
  lemma GoesOn(v: Rows, w: Rows, q: Query, limit: nat, p: nat) returns (p': nat)
    requires Drifts(v, w) && WholeHundredths(w) && q.sort != Index && q.limit == Some(limit) && limit > 0
    requires Bound(q).Some? && StandsAt(Ordered(v, q.sort), false, q.offset, p)
    requires Lost(Ordered(v, q.sort), p, Skip(q), w) == 0
    ensures ServesDue(Ordered(w, q.sort), PageOf(w, q, true), Due(v, w, q.sort, p), limit, p')
  {
    var counted, due := Counted(Ordered(v, q.sort), p, Skip(q), w), Due(v, w, q.sort, p);
    SplitListing(v, w, q, p);
    PageOfDue(Ordered(Resume(w, q, true), q.sort), counted, due, q, limit);
    p' := 0;
    if PageOf(w, q, true).offset.Some? {
      if Skip(q) > 0 { CountedCarryTheBound(Ordered(v, q.sort), q, p, w, Skip(q) - 1); }
      p' := TokenOfDue(w, q, limit, counted, due);
    }
  }

  lemma TokenOfDue(w: Rows, q: Query, limit: nat, counted: seq<Bso>, due: seq<Bso>) returns (p': nat)
    requires WholeHundredths(w) && q.sort != Index && q.limit == Some(limit) && limit > 0 && Bound(q).Some?
    requires Ordered(Resume(w, q, true), q.sort) == counted + due && |counted| == Skip(q)
    requires Skip(q) > 0 ==> counted[Skip(q) - 1].row.modified == Bound(q).value
    requires PageOf(w, q, true).offset.Some?
    ensures p' <= |Ordered(w, q.sort)| && StandsAt(Ordered(w, q.sort), false, PageOf(w, q, true).offset, p')
    ensures limit <= |due| && Ordered(w, q.sort)[p'..] == due[limit..]
  {
    var start;
    start, p' := TokenStands(w, q, limit);
    CutIsDue(w, q, start, limit, PageOf(w, q, true), counted, due);
    BoundDoesNotOverlap(Ordered(w, q.sort), q, start, limit);
    SuffixOfSuffix(Ordered(w, q.sort), start, limit);
  }

  lemma BoundDoesNotOverlap(s: seq<Bso>, q: Query, start: nat, limit: nat)
    requires limit > 0 && start + limit <= |s| && Bound(q).Some? && Skip(q) <= start
    requires Skip(q) > 0 ==> s[start - 1].row.modified == Bound(q).value
    ensures !Overlaps(s, q, start, limit)
  {
  }

  lemma SuffixOfSuffix(s: seq<Bso>, start: nat, limit: nat)
    requires start + limit <= |s|
    ensures s[start..][limit..] == s[start + limit..]
  {
  }

  // ---- how often a row occurs ----

  function Times(items: seq<Bso>, id: string): nat {
    if items == [] then 0 else Times(items[..|items| - 1], id) + if items[|items| - 1].id == id then 1 else 0
  }

  lemma {:induction false} TimesConcat(a: seq<Bso>, b: seq<Bso>, id: string)
    ensures Times(a + b, id) == Times(a, id) + Times(b, id)
  {
    if b == [] {
      assert a + b == a;
    } else {
      assert (a + b)[..|a + b| - 1] == a + b[..|b| - 1];
      TimesConcat(a, b[..|b| - 1], id);
    }
  }

  lemma TimesOne(b: Bso, id: string)
    ensures Times([b], id) == if b.id == id then 1 else 0
  {
    assert [b][..0] == [];
  }

  lemma {:induction false} TimesZero(s: seq<Bso>, id: string)
    ensures Times(s, id) == 0 <==> forall b :: b in s ==> b.id != id
  {
    if s != [] {
      TimesZero(s[..|s| - 1], id);
      assert forall b :: b in s <==> b in s[..|s| - 1] || b == s[|s| - 1];
    }
  }

  lemma {:induction false} TimesSorted(s: seq<Bso>, sort: Sorting, b: Bso)
    requires Sorted(s, sort) && b in s && forall a :: a in s && a.id == b.id ==> a == b
    ensures Times(s, b.id) == 1
  {
    var init, last := s[..|s| - 1], s[|s| - 1];
    assert forall a :: a in s <==> a in init || a == last;
    if last == b {
      forall a | a in init ensures a.id != b.id {
        var i :| 0 <= i < |init| && init[i] == a;
        assert Before(sort, s[i], s[|s| - 1]);
        BeforeAsymmetric(sort, a, last);
      }
      TimesZero(init, b.id);
    } else {
      TimesSorted(init, sort, b);
    }
  }

  lemma TimesListed(v: Rows, sort: Sorting, id: string)
    ensures Times(Ordered(v, sort), id) == if id in v then 1 else 0
  {
    OrderedLists(v, sort);
    if id in v {
      TimesSorted(Ordered(v, sort), sort, Bso(id, v[id]));
    } else {
      TimesZero(Ordered(v, sort), id);
    }
  }

  lemma {:induction false} TimesKept(s: seq<Bso>, w: Rows, id: string)
    requires id in w && forall b :: b in s && b.id == id ==> Still(b, w)
    ensures Times(Kept(s, w), id) == Times(s, id)
  {
    if s != [] {
      var init, last := s[..|s| - 1], s[|s| - 1];
      TimesKept(init, w, id);
      if Still(last, w) {
        TimesConcat(Kept(init, w), [Bso(last.id, w[last.id])], id);
        TimesOne(Bso(last.id, w[last.id]), id);
      } else {
        assert Kept(s, w) == Kept(init, w);
      }
    }
  }

  /** A row in place is due as often as it is left of the old listing. */
  lemma DueInPlace(v: Rows, w: Rows, sort: Sorting, p: nat, id: string)
    requires p <= |Ordered(v, sort)| && id in w && InPlace(v, w, id)
    ensures Times(Due(v, w, sort, p), id) == Times(Ordered(v, sort)[p..], id)
  {
    OrderedLists(v, sort);
    forall b | b in Ordered(v, sort)[p..] && b.id == id ensures Still(b, w) { assert b in Ordered(v, sort); }
    TimesKept(Ordered(v, sort)[p..], w, id);
    TimesListed(Comers(v, w, sort), sort, id);
    TimesConcat(Kept(Ordered(v, sort)[p..], w), Ordered(Comers(v, w, sort), sort), id);
  }

  /** A row that came in is due once oldest first, and not at all newest first. */
  lemma DueNewcomer(v: Rows, w: Rows, sort: Sorting, p: nat, id: string)
    requires p <= |Ordered(v, sort)| && id in w && NewerThanAll(v, w[id])
    ensures Times(Due(v, w, sort, p), id) == if sort == Oldest then 1 else 0
  {
    var part := Ordered(v, sort)[p..];
    OrderedLists(v, sort);
    forall b | b in Kept(part, w) ensures b.id != id {
      KeptMembers(part, w, b);
      var a :| a in part && a.id == b.id && Still(a, w);
      assert a in Ordered(v, sort);
    }
    TimesZero(Kept(part, w), id);
    TimesListed(Comers(v, w, sort), sort, id);
    TimesConcat(Kept(part, w), Ordered(Comers(v, w, sort), sort), id);
  }

  // ---- walks ----

  /** Between two pages rows vanish, stay in place or come in newer than all, and no row the token counts on is lost. */
  ghost predicate KeepsCount(pages: seq<Page>, views: seq<Rows>, sort: Sorting, i: nat)
    requires i < |pages| == |views|
  {
    i + 1 < |views| ==> Drifts(views[i], views[i + 1]) && CountsInPlace(views[i], sort, pages[i].offset, views[i + 1])
  }

  /** From view j to view k the row stays where it is. */
  predicate StaysInPlace(views: seq<Rows>, j: nat, k: nat, id: string)
    requires j <= k < |views|
  {
    id in views[j] && forall i :: j <= i <= k ==> id in views[i] && views[i][id].modified == views[j][id].modified
  }

  /** In view j the row is there from the start, or has just come in. */
  predicate ComesIn(views: seq<Rows>, j: nat, id: string)
    requires j < |views|
  {
    id in views[j] && (j == 0 || NewerThanAll(views[j - 1], views[j][id]))
  }

  ghost predicate WalksWithCount(pages: seq<Page>, views: seq<Rows>, q: Query, limits: seq<nat>) {
    Follows(pages, views, q, true, limits) && q.sort != Index
    && forall i :: 0 <= i < |pages| ==> KeepsCount(pages, views, q.sort, i)
  }

  /** After page k the token stands at p, so that s[p..] is still to be served. */
  ghost predicate Stands(pages: seq<Page>, views: seq<Rows>, sort: Sorting, k: nat, p: nat)
    requires k < |pages| == |views|
  {
    pages[k].offset.Some? && pages[k].offset.value.timestamp.Some? && p <= |Ordered(views[k], sort)|
    && StandsAt(Ordered(views[k], sort), false, pages[k].offset, p)
  }

  function TimesOf(page: Page, id: string): nat {
    Times(page.items, id)
  }

  /** How often a row is left behind the token of page k. */
  ghost function Left(pages: seq<Page>, views: seq<Rows>, sort: Sorting, k: nat, p: nat, id: string): nat
    requires k < |pages| == |views|
  {
    if pages[k].offset.None? || p > |Ordered(views[k], sort)| then 0 else Times(Ordered(views[k], sort)[p..], id)
  }

  /** Page k and what its token leaves hold a row so many times. */
  ghost predicate Holds(pages: seq<Page>, views: seq<Rows>, sort: Sorting, k: nat, p: nat, id: string, times: int)
    requires k < |pages| == |views|
  {
    (pages[k].offset.Some? ==> Stands(pages, views, sort, k, p))
    && TimesOf(pages[k], id) + Left(pages, views, sort, k, p, id) == times
  }

  /** What page k + 1 serves of a row, and leaves of it, is what is due of it after page k. */
  lemma NextServes(pages: seq<Page>, views: seq<Rows>, q: Query, limits: seq<nat>, k: nat, p: nat, id: string) returns (p': nat)
    requires WalksWithCount(pages, views, q, limits) && k + 1 < |pages| && Stands(pages, views, q.sort, k, p)
    ensures Holds(pages, views, q.sort, k + 1, p', id, Times(Due(views[k], views[k + 1], q.sort, p), id))
  {
    var asked, due := WithPage(q, limits[k + 1], pages[k].offset), Due(views[k], views[k + 1], q.sort, p);
    FollowsAt(pages, views, q, true, limits, k + 1);
    assert KeepsCount(pages, views, q.sort, k);
    p' := GoesOn(views[k], views[k + 1], asked, limits[k + 1], p);
    TimesOfDue(Ordered(views[k + 1], q.sort), pages[k + 1], due, limits[k + 1], p', id);
    if pages[k + 1].offset.Some? { StampedToken(views[k + 1], asked, limits[k + 1]); }
  }

  lemma TimesOfDue(s: seq<Bso>, page: Page, due: seq<Bso>, limit: nat, p: nat, id: string)
    requires ServesDue(s, page, due, limit, p)
    ensures page.offset.Some? ==> p <= |s| && StandsAt(s, false, page.offset, p)
    ensures Times(page.items, id) + (if page.offset.None? then 0 else Times(s[p..], id)) == Times(due, id)
  {
    if page.offset.Some? {
      assert due == due[..limit] + due[limit..];
      TimesConcat(due[..limit], due[limit..], id);
    }
  }

  lemma StampedToken(w: Rows, q: Query, limit: nat)
    requires q.sort != Index && q.limit == Some(limit) && limit > 0 && PageOf(w, q, true).offset.Some?
    ensures PageOf(w, q, true).offset.value.timestamp.Some?
  {
    var start := PageStarts(w, q, limit);
    TokenHasStamp(Ordered(w, q.sort), q, start, limit);
  }

  /** The first page serves, and leaves, every row of its view. */
  lemma FirstServes(pages: seq<Page>, views: seq<Rows>, q: Query, limits: seq<nat>, id: string) returns (p: nat)
    requires Follows(pages, views, q, true, limits) && q.sort != Index && id in views[0]
    ensures Holds(pages, views, q.sort, 0, p, id, 1)
  {
    var asked := WithPage(q, limits[0], None);
    FollowsAt(pages, views, q, true, limits, 0);
    PageServesNext(views[0], asked, true, 0, limits[0]);
    TimesListed(views[0], q.sort, id);
    TimesOfFirst(Ordered(views[0], q.sort), limits[0], pages[0], id);
    p := limits[0];
    if pages[0].offset.Some? { StampedToken(views[0], asked, limits[0]); }
  }

  lemma TimesOfFirst(s: seq<Bso>, limit: nat, page: Page, id: string)
    requires limit > 0 && Continues(s, false, 0, limit, page)
    ensures if page.offset.None? then Times(page.items, id) == Times(s, id)
            else
              limit <= |s| && StandsAt(s, false, page.offset, limit)
              && Times(page.items, id) + Times(s[limit..], id) == Times(s, id)
  {
    if limit < |s| {
      assert s == s[..limit] + s[limit..] && s[0..limit] == s[..limit];
      TimesConcat(s[..limit], s[limit..], id);
    } else {
      assert s[0..] == s;
    }
  }

  /** How often the pages from j up to, and without, k serve a row. */
  function ServedBetween(pages: seq<Page>, j: nat, k: nat, id: string): nat
    requires j <= k <= |pages|
  {
    if k == j then 0 else ServedBetween(pages, j, k - 1, id) + TimesOf(pages[k - 1], id)
  }

  lemma {:induction false} ServedIsTimes(pages: seq<Page>, j: nat, k: nat, id: string)
    requires j <= k <= |pages|
    ensures ServedBetween(pages, j, k, id) == Times(Items(pages, k), id) - Times(Items(pages, j), id)
  {
    if j < k {
      ServedIsTimes(pages, j, k - 1, id);
      TimesConcat(Items(pages, k - 1), pages[k - 1].items, id);
    }
  }

  /** So wherever one page's token stands, what is served of a row in the pages after it is what is due of it. */
  lemma {:induction false} ServedFrom(
      pages: seq<Page>, views: seq<Rows>, q: Query, limits: seq<nat>, j: nat, k: nat, id: string) returns (p: nat)
    requires WalksWithCount(pages, views, q, limits) && j <= k < |pages| == |views|
    requires ComesIn(views, j, id) && StaysInPlace(views, j, k, id)
    ensures Holds(pages, views, q.sort, k, p, id,
                  (if j == 0 || q.sort == Oldest then 1 else 0) - ServedBetween(pages, j, k, id))
    decreases k
  {
    if k == 0 {
      p := FirstServes(pages, views, q, limits, id);
    } else if k == j {
      p := NewcomerServed(pages, views, q, limits, k, id);
    } else {
      var before := ServedFrom(pages, views, q, limits, j, k - 1, id);
      p := InPlaceServed(pages, views, q, limits, k, before, id);
    }
  }

  lemma InPlaceServed(pages: seq<Page>, views: seq<Rows>, q: Query, limits: seq<nat>, k: nat, before: nat, id: string)
    returns (p: nat)
    requires WalksWithCount(pages, views, q, limits) && 0 < k < |pages| == |views|
    requires pages[k - 1].offset.Some? ==> Stands(pages, views, q.sort, k - 1, before)
    requires id in views[k] && InPlace(views[k - 1], views[k], id)
    ensures Holds(pages, views, q.sort, k, p, id, Left(pages, views, q.sort, k - 1, before, id))
  {
    FollowsBefore(pages, views, q, limits, k);
    p := NextServes(pages, views, q, limits, k - 1, before, id);
    DueInPlace(views[k - 1], views[k], q.sort, before, id);
  }

  lemma FollowsBefore(pages: seq<Page>, views: seq<Rows>, q: Query, limits: seq<nat>, k: nat)
    requires Follows(pages, views, q, true, limits) && 0 < k < |pages|
    ensures pages[k - 1].offset.Some?
  {
    assert IsPage(pages, views, q, true, limits, k);
  }

  lemma NewcomerServed(pages: seq<Page>, views: seq<Rows>, q: Query, limits: seq<nat>, k: nat, id: string) returns (p: nat)
    requires WalksWithCount(pages, views, q, limits) && 0 < k < |pages| == |views| && ComesIn(views, k, id)
    ensures Holds(pages, views, q.sort, k, p, id, if q.sort == Oldest then 1 else 0)
  {
    var before := PageStands(pages, views, q, limits, k - 1);
    p := NextServes(pages, views, q, limits, k - 1, before, id);
    DueNewcomer(views[k - 1], views[k], q.sort, before, id);
  }

  lemma PageStands(pages: seq<Page>, views: seq<Rows>, q: Query, limits: seq<nat>, k: nat) returns (p: nat)
    requires Follows(pages, views, q, true, limits) && q.sort != Index && k + 1 < |pages|
    ensures Stands(pages, views, q.sort, k, p)
  {
    FollowsAt(pages, views, q, true, limits, k);
    FollowsBefore(pages, views, q, limits, k + 1);
    var start;
    start, p := TokenStands(views[k], WithPage(q, limits[k], TokenBefore(pages, k)), limits[k]);
    StampedToken(views[k], WithPage(q, limits[k], TokenBefore(pages, k)), limits[k]);
  }

  /** A finished walk: a row that is there from the first page on and stays in place is served exactly once; one that comes
      in later and stays is served exactly once oldest first, and never newest first. */
  lemma ServedOnce(pages: seq<Page>, views: seq<Rows>, q: Query, limits: seq<nat>, j: nat, id: string)
    requires WalksWithCount(pages, views, q, limits) && pages[|pages| - 1].offset.None?
    requires j < |views| && ComesIn(views, j, id) && StaysInPlace(views, j, |views| - 1, id)
    ensures ServedBetween(pages, j, |pages|, id) == if j == 0 || q.sort == Oldest then 1 else 0
  {
    var p := ServedFrom(pages, views, q, limits, j, |pages| - 1, id);
  }
}
