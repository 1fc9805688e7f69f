/** Following the offset tokens serves every row once, even while other clients write. */
module PagingTheorems {
  import opened Wrappers
  import opened SyncTables
  import opened Paging

  /** Every stored timestamp is a whole hundredth of a second (an invariant of the store). */
  predicate WholeHundredths(v: Rows) {
    forall id :: id in v ==> v[id].modified % 10 == 0
  }

  function WithPage(q: Query, limit: nat, offset: Option<Offset>): Query {
    q.(limit := Some(limit), offset := offset)
  }

  /** Tokens that count rows, rather than resume at a timestamp. */
  predicate Counts(sort: Sorting, full: bool) {
    sort == Index || !full
  }

  function Modified(s: seq<Bso>, i: nat): int
    requires i < |s|
  {
    s[i].row.modified
  }

  /** The token stands exactly after the first p rows of the listing. */
  ghost predicate StandsAt(s: seq<Bso>, counts: bool, token: Option<Offset>, p: nat) {
    p <= |s|
    && match token
       case None => p == 0
       case Some(Offset(None, n)) => n == p && (p == 0 || counts)
       case Some(Offset(Some(bound), k)) =>
         !counts && 1 <= k <= p
         && (forall i :: p - k <= i < p ==> Modified(s, i) == bound)
         && (p - k > 0 ==> Modified(s, p - k - 1) != bound)
  }

  lemma SortedModified(s: seq<Bso>, sort: Sorting, i: nat, j: nat)
    requires Sorted(s, sort) && i <= j < |s|
    ensures sort == Newest ==> Modified(s, i) >= Modified(s, j)
    ensures sort == Oldest ==> Modified(s, i) <= Modified(s, j)
  {
    if i < j { assert Before(sort, s[i], s[j]); }
  }

  /** Where the WHERE clause of a timestamp token makes the listing restart. */
  function Restart(token: Option<Offset>, p: nat): int {
    if token.Some? && token.value.timestamp.Some? then p - token.value.offset else 0
  }

  lemma ResumeIsSuffix(v: Rows, q: Query, full: bool, p: nat)
    requires StandsAt(Ordered(v, q.sort), Counts(q.sort, full), q.offset, p)
    ensures 0 <= Restart(q.offset, p) <= p
    ensures Ordered(Resume(v, q, full), q.sort) == Ordered(v, q.sort)[Restart(q.offset, p)..]
    ensures Restart(q.offset, p) + Skip(q) == p
  {
    var s := Ordered(v, q.sort);
    OrderedLists(v, q.sort);
    if full && Bound(q).Some? {
      var bound, start := Bound(q).value, Restart(q.offset, p);
      forall i | 0 <= i < |s| ensures s[i].id in Resume(v, q, full) <==> start <= i {
        assert s[i] in s;
        if i < start {
          SortedModified(s, q.sort, i, start - 1);
          SortedModified(s, q.sort, start - 1, start);
        } else {
          SortedModified(s, q.sort, start, i);
        }
      }
      SuffixListing(v, Resume(v, q, full), q.sort, start);
    }
  }

  /** The page serves the next rows after the first p, and its token stands right after them. */
  ghost predicate Continues(s: seq<Bso>, counts: bool, p: nat, limit: nat, page: Page)
    requires p <= |s|
  {
    if p + limit < |s| then
      page.items == s[p..p + limit] && page.offset.Some? && StandsAt(s, counts, page.offset, p + limit)
    else
      page.items == s[p..] && page.offset.None?
  }

  /** One page of a read. */
  lemma PageServesNext(v: Rows, q: Query, full: bool, p: nat, limit: nat)
    requires WholeHundredths(v) && q.limit == Some(limit) && limit > 0
    requires StandsAt(Ordered(v, q.sort), Counts(q.sort, full), q.offset, p)
    ensures Continues(Ordered(v, q.sort), Counts(q.sort, full), p, limit, PageOf(v, q, full))
  {
    var s := Ordered(v, q.sort);
    OrderedLists(v, q.sort);
    ResumeIsSuffix(v, q, full, p);
    if p + limit < |s| {
      assert s[p + limit - 1] in s;
    }
    SuffixServesNext(s, q, full, p, limit);
  }

  lemma SuffixServesNext(s: seq<Bso>, q: Query, full: bool, p: nat, limit: nat)
    requires q.limit == Some(limit) && limit > 0
    requires StandsAt(s, Counts(q.sort, full), q.offset, p)
    requires 0 <= Restart(q.offset, p) <= p && Restart(q.offset, p) + Skip(q) == p
    requires p + limit < |s| ==> Modified(s, p + limit - 1) % 10 == 0
    ensures Continues(s, Counts(q.sort, full), p, limit, PageFrom(s[Restart(q.offset, p)..], q, full))
  {
    var listing := s[Restart(q.offset, p)..];
    SliceOfSuffix(s, Restart(q.offset, p), p, limit + 1);
    if p + limit < |s| {
      assert s[p..p + limit + 1][..limit] == s[p..p + limit];
      MoreFollows(listing, q, full, limit, s[p..p + limit]);
      if !Counts(q.sort, full) { NextStandsAfter(s, q, full, p, limit); }
    } else {
      NothingFollows(listing, q, full, limit);
    }
  }

  lemma MoreFollows(listing: seq<Bso>, q: Query, full: bool, limit: nat, items: seq<Bso>)
    requires q.limit == Some(limit) && limit > 0
    requires |Slice(listing, Skip(q), limit + 1)| == limit + 1 && Slice(listing, Skip(q), limit + 1)[..limit] == items
    ensures PageFrom(listing, q, full)
            == Page(items, Some(if full then NextOffset(q.sort, Skip(q), Bound(q), Stamps(items))
                                else Offset(None, limit + Skip(q))))
  {
  }

  lemma NothingFollows(listing: seq<Bso>, q: Query, full: bool, limit: nat)
    requires q.limit == Some(limit) && limit > 0 && |Slice(listing, Skip(q), limit + 1)| <= limit
    ensures PageFrom(listing, q, full) == Page(Slice(listing, Skip(q), limit + 1), None)
  {
  }

  lemma SliceOfSuffix(s: seq<Bso>, start: nat, p: nat, n: nat)
    requires start <= p <= |s|
    ensures Slice(s[start..], p - start, n) == if p + n <= |s| then s[p..p + n] else s[p..]
  {
    assert s[start..][p - start..] == s[p..];
    if p + n <= |s| { assert s[start..][p - start..p - start + n] == s[p..p + n]; }
  }

  /** The arithmetic of `encode_next_offset`: the skip counts every served row at the bound. */
  lemma NextStandsAfter(s: seq<Bso>, q: Query, full: bool, p: nat, limit: nat)
    requires !Counts(q.sort, full) && limit > 0 && p + limit <= |s|
    requires Modified(s, p + limit - 1) % 10 == 0
    requires StandsAt(s, Counts(q.sort, full), q.offset, p)
    ensures StandsAt(s, Counts(q.sort, full), Some(NextOffset(q.sort, Skip(q), Bound(q), Stamps(s[p..p + limit]))), p + limit)
  {
    RunOfPage(s, p, limit);
  }

  /** The run of equal stamps at the end of a page, in terms of the listing. */
  lemma RunOfPage(s: seq<Bso>, p: nat, limit: nat)
    requires limit > 0 && p + limit <= |s|
    ensures var modified, end := Stamps(s[p..p + limit]), p + limit;
            var run := TailRun(modified);
            |modified| == limit && 0 < run <= limit && modified[limit - 1] == Modified(s, end - 1)
            && (forall i :: end - run <= i < end ==> Modified(s, i) == Modified(s, end - 1))
            && (run < limit ==> Modified(s, end - run - 1) != Modified(s, end - 1))
  {
    var modified := Stamps(s[p..p + limit]);
    assert forall i :: 0 <= i < limit ==> modified[i] == Modified(s, p + i);
    TailRunIsMaximal(modified);
    var bound, run := modified[limit - 1], TailRun(modified);
    forall i | p + limit - run <= i < p + limit ensures Modified(s, i) == bound {
      assert modified[i - p] == bound;
    }
    if run < limit { assert modified[limit - run - 1] != bound; }
  }

  // ---- following the tokens ----

  function TokenBefore(pages: seq<Page>, i: nat): Option<Offset>
    requires i <= |pages|
  {
    if i == 0 then None else pages[i - 1].offset
  }

  /** Request i sees the rows views[i], asks for limits[i] of them and sends back the token of the
      page before. */
  ghost predicate IsPage(pages: seq<Page>, views: seq<Rows>, q: Query, full: bool, limits: seq<nat>, i: nat)
    requires i < |pages| == |views| == |limits|
  {
    limits[i] > 0 && WholeHundredths(views[i])
    && pages[i] == PageOf(views[i], WithPage(q, limits[i], TokenBefore(pages, i)), full)
    && (i > 0 ==> pages[i - 1].offset.Some?)
  }

  /** A walk: only its last page may come without a token. */
  ghost predicate Follows(pages: seq<Page>, views: seq<Rows>, q: Query, full: bool, limits: seq<nat>) {
    1 <= |pages| == |views| == |limits|
    && forall i :: 0 <= i < |pages| ==> IsPage(pages, views, q, full, limits, i)
  }

  /** The rows of the first n pages, one after the other. */
  function Items(pages: seq<Page>, n: nat): seq<Bso>
    requires n <= |pages|
  {
    if n == 0 then [] else Items(pages, n - 1) + pages[n - 1].items
  }

  function Sum(limits: seq<nat>, n: nat): nat
    requires n <= |limits|
  {
    if n == 0 then 0 else Sum(limits, n - 1) + limits[n - 1]
  }

  /** The pages so far hold the first rows of the listing: all of it once no token is left. */
  ghost predicate Serves(items: seq<Bso>, next: Option<Offset>, s: seq<Bso>, counts: bool, total: nat) {
    if next.None? then items == s
    else total < |s| && items == s[..total] && StandsAt(s, counts, next, total)
  }

  /** Wherever the token stands, the page continues from there. */
  ghost predicate Owed(s: seq<Bso>, counts: bool, token: Option<Offset>, limit: nat, page: Page) {
    limit > 0 && forall p: nat :: StandsAt(s, counts, token, p) ==> Continues(s, counts, p, limit, page)
  }

  /** Page i is the one that listing i owes to the token of the page before. */
  ghost predicate IsOwed(pages: seq<Page>, listings: seq<seq<Bso>>, counts: bool, limits: seq<nat>, i: nat)
    requires i < |pages| == |listings| == |limits|
  {
    Owed(listings[i], counts, TokenBefore(pages, i), limits[i], pages[i]) && (i > 0 ==> pages[i - 1].offset.Some?)
  }

  lemma FollowsAt(pages: seq<Page>, views: seq<Rows>, q: Query, full: bool, limits: seq<nat>, i: nat)
    requires Follows(pages, views, q, full, limits) && i < |pages|
    ensures WholeHundredths(views[i]) && limits[i] > 0
    ensures pages[i] == PageOf(views[i], WithPage(q, limits[i], TokenBefore(pages, i)), full)
  {
    assert IsPage(pages, views, q, full, limits, i);
  }

  /** As long as listings only grow at their end, the pages serve consecutive rows. */
  lemma {:induction false} ListingWalk(
      pages: seq<Page>, listings: seq<seq<Bso>>, counts: bool, limits: seq<nat>, n: nat)
    requires 1 <= n <= |pages| == |listings| == |limits|
    requires forall i :: 0 <= i < |pages| ==> IsOwed(pages, listings, counts, limits, i)
    requires forall i, j :: 0 <= i <= j < |listings| ==> listings[i] <= listings[j]
    ensures Serves(Items(pages, n), pages[n - 1].offset, listings[n - 1], counts, Sum(limits, n))
    ensures Sum(limits, n) >= n
  {
    var s, p := listings[n - 1], Sum(limits, n - 1);
    assert IsOwed(pages, listings, counts, limits, n - 1);
    if n > 1 {
      ListingWalk(pages, listings, counts, limits, n - 1);
      assert listings[n - 2] <= s;
      StandsAtExtends(listings[n - 2], s, counts, pages[n - 2].offset, p);
    }
    assert StandsAt(s, counts, TokenBefore(pages, n - 1), p);
    ServesNext(Items(pages, n - 1), s, counts, p, limits[n - 1], pages[n - 1]);
  }

  lemma ServesNext(items: seq<Bso>, s: seq<Bso>, counts: bool, p: nat, limit: nat, page: Page)
    requires p <= |s| && items == s[..p] && Continues(s, counts, p, limit, page)
    ensures Serves(items + page.items, page.offset, s, counts, p + limit)
  {
    if p + limit < |s| {
      assert s[..p] + s[p..p + limit] == s[..p + limit];
    } else {
      assert s[..p] + s[p..] == s;
    }
  }

  lemma StandsAtExtends(s: seq<Bso>, t: seq<Bso>, counts: bool, token: Option<Offset>, p: nat)
    requires s <= t && StandsAt(s, counts, token, p)
    ensures StandsAt(t, counts, token, p)
  {
    assert forall i :: 0 <= i < |s| ==> Modified(t, i) == Modified(s, i);
  }

  ghost function Listings(views: seq<Rows>, sort: Sorting): seq<seq<Bso>> {
    seq(|views|, i requires 0 <= i < |views| => Ordered(views[i], sort))
  }

  /** A read gives its token the page that the listing of its rows owes it. */
  lemma PageIsOwed(v: Rows, q: Query, full: bool, limit: nat, token: Option<Offset>)
    requires WholeHundredths(v) && limit > 0
    ensures Owed(Ordered(v, q.sort), Counts(q.sort, full), token, limit, PageOf(v, WithPage(q, limit, token), full))
  {
    forall p: nat | StandsAt(Ordered(v, q.sort), Counts(q.sort, full), token, p)
      ensures Continues(Ordered(v, q.sort), Counts(q.sort, full), p, limit, PageOf(v, WithPage(q, limit, token), full))
    {
      PageServesNext(v, WithPage(q, limit, token), full, p, limit);
    }
  }

  lemma PagesAreOwed(pages: seq<Page>, views: seq<Rows>, q: Query, full: bool, limits: seq<nat>, listings: seq<seq<Bso>>)
    requires Follows(pages, views, q, full, limits) && listings == Listings(views, q.sort)
    ensures forall i :: 0 <= i < |pages| ==> IsOwed(pages, listings, Counts(q.sort, full), limits, i)
  {
    forall i | 0 <= i < |pages| ensures IsOwed(pages, listings, Counts(q.sort, full), limits, i) {
      assert IsPage(pages, views, q, full, limits, i);
      PageIsOwed(views[i], q, full, limits[i], TokenBefore(pages, i));
    }
  }

  /** As long as the rows' listings only grow at their end, the walk serves consecutive rows. */
  lemma ExtendingWalk(
      pages: seq<Page>, views: seq<Rows>, q: Query, full: bool, limits: seq<nat>, listings: seq<seq<Bso>>)
    requires Follows(pages, views, q, full, limits) && listings == Listings(views, q.sort)
    requires forall i, j :: 0 <= i <= j < |listings| ==> listings[i] <= listings[j]
    ensures var n := |pages|;
            Serves(Items(pages, n), pages[n - 1].offset, listings[n - 1], Counts(q.sort, full), Sum(limits, n))
    ensures Sum(limits, |limits|) >= |pages|
  {
    PagesAreOwed(pages, views, q, full, limits, listings);
    ListingWalk(pages, listings, Counts(q.sort, full), limits, |pages|);
  }

  /** Over rows that do not change, the pages are the filtered, sorted list: nothing twice, nothing
      missed, whatever the page sizes; and the tokens run out. */
  lemma PaginationExact(v: Rows, pages: seq<Page>, views: seq<Rows>, q: Query, full: bool, limits: seq<nat>)
    requires Follows(pages, views, q, full, limits)
    requires forall i :: 0 <= i < |views| ==> views[i] == v
    ensures var s, next := Ordered(v, q.sort), pages[|pages| - 1].offset;
            if next.None? then Items(pages, |pages|) == s
            else |pages| <= Sum(limits, |limits|) < |s| == |v| && Items(pages, |pages|) == s[..Sum(limits, |limits|)]
  {
    ExtendingWalk(pages, views, q, full, limits, Listings(views, q.sort));
    OrderedLists(v, q.sort);
  }

  /** From v to w only new ids appear, each stamped after every row of v. */
  ghost predicate Grows(v: Rows, w: Rows) {
    (forall id :: id in v ==> id in w && w[id] == v[id])
    && forall id, k :: id in w && id !in v && k in v ==> w[id].modified > v[k].modified
  }

  /** Between one page and the next, other clients only inserted. */
  ghost predicate OnlyInserts(views: seq<Rows>, i: nat)
    requires i + 1 < |views|
  {
    Grows(views[i], views[i + 1])
  }

  lemma ConcatListing(s: seq<Bso>, t: seq<Bso>, v: Rows, w: Rows)
    requires IsListing(s, v, Oldest) && IsListing(t, w - v.Keys, Oldest) && Grows(v, w)
    ensures Sorted(s + t, Oldest) && Lists(s + t, w)
  {
    forall i, j | 0 <= i < j < |s + t| ensures Before(Oldest, (s + t)[i], (s + t)[j]) {
      if i < |s| <= j {
        assert s[i] in s && t[j - |s|] in t;
        assert t[j - |s|].id in w - v.Keys;
      }
    }
    forall b: Bso ensures b in s + t <==> b.id in w && b.row == w[b.id] {
      assert b.id in w ==> b.id in v || b.id in w - v.Keys;
    }
  }

  lemma OldestExtends(v: Rows, w: Rows)
    requires Grows(v, w)
    ensures Ordered(v, Oldest) <= Ordered(w, Oldest)
  {
    var s, t := Ordered(v, Oldest), Ordered(w - v.Keys, Oldest);
    OrderedLists(v, Oldest);
    OrderedLists(w, Oldest);
    OrderedLists(w - v.Keys, Oldest);
    ConcatListing(s, t, v, w);
    ListingUnique(s + t, Ordered(w, Oldest), Oldest);
  }

  lemma {:induction false} GrowsReach(views: seq<Rows>, m: nat, n: nat)
    requires m <= n < |views|
    requires forall i :: 0 <= i < |views| - 1 ==> OnlyInserts(views, i)
    ensures Grows(views[m], views[n])
  {
    if m < n {
      GrowsReach(views, m, n - 1);
      assert OnlyInserts(views, n - 1);
    }
  }

  /** While other clients only insert, an oldest-first walk serves the rows of its last page's
      moment, each exactly once. */
  lemma OldestWalkStable(pages: seq<Page>, views: seq<Rows>, q: Query, limits: seq<nat>)
    requires Follows(pages, views, q, true, limits) && q.sort == Oldest
    requires forall i :: 0 <= i < |views| - 1 ==> OnlyInserts(views, i)
    ensures var s, next := Ordered(views[|views| - 1], Oldest), pages[|pages| - 1].offset;
            if next.None? then Items(pages, |pages|) == s
            else Sum(limits, |limits|) < |s| && Items(pages, |pages|) == s[..Sum(limits, |limits|)]
  {
    var listings := Listings(views, Oldest);
    forall i, j | 0 <= i <= j < |listings| ensures listings[i] <= listings[j] {
      GrowsReach(views, i, j);
      OldestExtends(views[i], views[j]);
    }
    ExtendingWalk(pages, views, q, true, limits, listings);
    assert listings[|views| - 1] == Ordered(views[|views| - 1], Oldest);
  }

  /** A newest-first token cuts every later insert off. */
  lemma NewestPageUnmoved(v: Rows, w: Rows, q: Query, p: nat)
    requires Grows(v, w) && q.sort == Newest && p > 0
    requires StandsAt(Ordered(v, Newest), false, q.offset, p)
    ensures PageOf(w, q, true) == PageOf(v, q, true)
  {
    OrderedLists(v, Newest);
    var last := Ordered(v, Newest)[p - 1];
    assert last in Ordered(v, Newest);
    assert Bound(q) == Some(Modified(Ordered(v, Newest), p - 1));
    assert Resume(w, q, true) == Resume(v, q, true);
  }

  lemma NewestTokenHasStamp(v: Rows, q: Query)
    requires q.sort == Newest && q.limit.Some? && q.limit.value > 0 && PageOf(v, q, true).offset.Some?
    ensures PageOf(v, q, true).offset.value.timestamp.Some?
  {
  }

  /** After the first page, a newest-first walk gets what the first page's listing owes it. */
  lemma NewestPageIsOwed(v: Rows, w: Rows, q: Query, limit: nat, token: Option<Offset>)
    requires Grows(v, w) && WholeHundredths(v) && q.sort == Newest && limit > 0
    requires token.Some? && token.value.timestamp.Some?
    ensures Owed(Ordered(v, Newest), false, token, limit, PageOf(w, WithPage(q, limit, token), true))
  {
    PageIsOwed(v, q, true, limit, token);
    forall p: nat | StandsAt(Ordered(v, Newest), false, token, p)
      ensures PageOf(w, WithPage(q, limit, token), true) == PageOf(v, WithPage(q, limit, token), true)
    {
      NewestPageUnmoved(v, w, WithPage(q, limit, token), p);
    }
  }

  lemma NewestPagesAreOwed(pages: seq<Page>, views: seq<Rows>, q: Query, limits: seq<nat>, i: nat)
    requires Follows(pages, views, q, true, limits) && q.sort == Newest && i < |pages| && Grows(views[0], views[i])
    ensures IsOwed(pages, seq(|pages|, _ => Ordered(views[0], Newest)), false, limits, i)
  {
    assert IsPage(pages, views, q, true, limits, i) && IsPage(pages, views, q, true, limits, 0);
    if i == 0 {
      PageIsOwed(views[0], q, true, limits[0], None);
    } else {
      assert IsPage(pages, views, q, true, limits, i - 1);
      NewestTokenHasStamp(views[i - 1], WithPage(q, limits[i - 1], TokenBefore(pages, i - 1)));
      NewestPageIsOwed(views[0], views[i], q, limits[i], TokenBefore(pages, i));
    }
  }

  /** While other clients only insert, a newest-first walk serves exactly the rows of its first
      page's moment. */
  lemma NewestWalkStable(pages: seq<Page>, views: seq<Rows>, q: Query, limits: seq<nat>)
    requires Follows(pages, views, q, true, limits) && q.sort == Newest
    requires forall i :: 0 <= i < |views| - 1 ==> OnlyInserts(views, i)
    ensures var s, next := Ordered(views[0], Newest), pages[|pages| - 1].offset;
            if next.None? then Items(pages, |pages|) == s
            else |pages| <= Sum(limits, |limits|) < |s| == |views[0]| && Items(pages, |pages|) == s[..Sum(limits, |limits|)]
  {
    var still := seq(|pages|, _ => Ordered(views[0], Newest));
    forall i | 0 <= i < |pages| ensures IsOwed(pages, still, false, limits, i) {
      GrowsReach(views, 0, i);
      NewestPagesAreOwed(pages, views, q, limits, i);
    }
    ListingWalk(pages, still, false, limits, |pages|);
    assert Serves(Items(pages, |pages|), pages[|pages| - 1].offset, Ordered(views[0], Newest), false, Sum(limits, |limits|));
    OrderedLists(views[0], Newest);
  }

  /** The timestamp of a token is that of a row the query could see. */
  lemma TokenIsARow(v: Rows, q: Query, full: bool)
    requires WholeHundredths(v)
    ensures var token := PageOf(v, q, full).offset;
            token.Some? && token.value.timestamp.Some? ==>
              exists id :: id in v && token.value.timestamp.value == v[id].modified
  {
    var left, token := Resume(v, q, full), PageOf(v, q, full).offset;
    if token.Some? && token.value.timestamp.Some? {
      OrderedLists(left, q.sort);
      var i := TokenIsAStamp(Ordered(left, q.sort), q, full);
      var b := Ordered(left, q.sort)[i];
      assert b in Ordered(left, q.sort) && b.id in v && v[b.id] == b.row;
    }
  }

  lemma TokenIsAStamp(listing: seq<Bso>, q: Query, full: bool) returns (i: nat)
    requires PageFrom(listing, q, full).offset.Some? && PageFrom(listing, q, full).offset.value.timestamp.Some?
    ensures i < |listing| && PageFrom(listing, q, full).offset.value.timestamp.value == Quantize(Modified(listing, i))
  {
    var limit := q.limit.GetOr(DEFAULT_LIMIT);
    var fetched := Slice(listing, Skip(q), if limit > 0 then limit + 1 else 0);
    i := Skip(q) + |fetched| - 2;
    assert fetched[|fetched| - 2] == listing[i];
  }

  /** Whatever token a read was given, the token it answers with is accepted back for the same window. */
  lemma IssuedTokenFits(rows: Rows, now: int, q: Query, full: bool)
    requires WholeHundredths(Visible(rows, now, q))
    ensures TokenFits(q.(offset := GetBsos(rows, now, q, full).offset))
  {
    TokenIsARow(Visible(rows, now, q), q, full);
  }
}
