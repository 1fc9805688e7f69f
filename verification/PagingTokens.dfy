/** Where the token of a page stands in the listing the page was read from, whatever its own query's token counted on. */
module PagingTokens {
  import opened Wrappers
  import opened SyncTables
  import opened Paging
  import opened PagingTheorems

  /** The rows from r on, and no others, are at the bound or behind it. */
  ghost predicate RestartsAt(s: seq<Bso>, sort: Sorting, bound: int, r: nat) {
    r <= |s| && forall i :: 0 <= i < |s| ==> (Within(sort, bound, Modified(s, i)) <==> r <= i)
  }

  lemma RestartExists(s: seq<Bso>, sort: Sorting, bound: int) returns (r: nat)
    requires Sorted(s, sort) && sort != Index
    ensures RestartsAt(s, sort, bound, r)
  {
    r := 0;
    while r < |s| && !Within(sort, bound, Modified(s, r))
      invariant r <= |s| && forall i :: 0 <= i < r ==> !Within(sort, bound, Modified(s, i))
    {
      r := r + 1;
    }
    forall i | r <= i < |s| ensures Within(sort, bound, Modified(s, i)) { SortedModified(s, sort, r, i); }
  }

  lemma ResumeRestarts(v: Rows, q: Query, r: nat)
    requires q.sort != Index && Bound(q).Some? && RestartsAt(Ordered(v, q.sort), q.sort, Bound(q).value, r)
    ensures Ordered(Resume(v, q, true), q.sort) == Ordered(v, q.sort)[r..]
  {
    var s := Ordered(v, q.sort);
    OrderedLists(v, q.sort);
    forall i | 0 <= i < |s| ensures s[i].id in Resume(v, q, true) <==> r <= i {
      assert s[i] in s && Modified(s, i) == v[s[i].id].modified;
    }
    SuffixListing(v, Resume(v, q, true), q.sort, r);
  }

  /** The page holds one stamp only, which is not the bound's, and so has the row passed over just before it. */
  ghost predicate Overlaps(s: seq<Bso>, q: Query, start: nat, limit: nat)
    requires limit > 0 && start + limit <= |s|
  {
    var last := Modified(s, start + limit - 1);
    Skip(q) > 0 && start > 0 && Bound(q) != Some(last) && Modified(s, start) == last && Modified(s, start - 1) == last
  }

  /** What the bound of a query leaves of the listing starts at r. */
  ghost predicate LeavesFrom(s: seq<Bso>, q: Query, r: nat) {
    if Bound(q).Some? then RestartsAt(s, q.sort, Bound(q).value, r) else r == 0
  }

  function TokenAfter(s: seq<Bso>, q: Query, start: nat, limit: nat): Offset
    requires start + limit <= |s|
  {
    NextOffset(q.sort, Skip(q), Bound(q), Stamps(s[start..start + limit]))
  }

  lemma TokenHasStamp(s: seq<Bso>, q: Query, start: nat, limit: nat)
    requires q.sort != Index && limit > 0 && start + limit <= |s|
    ensures TokenAfter(s, q, start, limit).timestamp.Some?
  {
  }

  /** How many rows at its stamp a page of rows in order ends with. */
  lemma TailOfPage(s: seq<Bso>, sort: Sorting, start: nat, limit: nat, first: nat)
    requires Sorted(s, sort) && sort != Index && limit > 0 && start + limit <= |s|
    requires RestartsAt(s, sort, Modified(s, start + limit - 1), first)
    ensures first < start + limit && forall i :: first <= i < start + limit ==> Modified(s, i) == Modified(s, start + limit - 1)
    ensures TailRun(Stamps(s[start..start + limit])) == if first <= start then limit else start + limit - first
  {
    var last, run := start + limit - 1, TailRun(Stamps(s[start..start + limit]));
    forall i | first <= i <= last ensures Modified(s, i) == Modified(s, last) { SortedModified(s, sort, i, last); }
    RunOfPage(s, start, limit);
    if first > 0 { assert Modified(s, first - 1) != Modified(s, last); }
  }

  function TokenSkip(s: seq<Bso>, q: Query, start: nat, limit: nat, first: nat): int
    requires limit > 0 && start + limit <= |s|
  {
    if first > start then start + limit - first
    else if Bound(q) == Some(Modified(s, start + limit - 1)) then limit + Skip(q)
    else limit
  }

  lemma TokenIs(s: seq<Bso>, q: Query, start: nat, limit: nat, first: nat)
    requires Sorted(s, q.sort) && q.sort != Index && limit > 0 && start + limit <= |s|
    requires Modified(s, start + limit - 1) % 10 == 0
    requires RestartsAt(s, q.sort, Modified(s, start + limit - 1), first)
    ensures first < start + limit && TokenSkip(s, q, start, limit, first) > 0
    ensures TokenAfter(s, q, start, limit)
            == Offset(Some(Modified(s, start + limit - 1)), TokenSkip(s, q, start, limit, first))
  {
    TailOfPage(s, q.sort, start, limit, first);
  }

  lemma StandsFrom(s: seq<Bso>, sort: Sorting, k: nat, first: nat, token: Offset, p: nat)
    requires Sorted(s, sort) && sort != Index && k < |s| && RestartsAt(s, sort, Modified(s, k), first)
    requires token.timestamp == Some(Modified(s, k)) && 0 < token.offset && first + token.offset == p <= k + 1
    ensures StandsAt(s, false, Some(token), p)
  {
    var skip := token.offset;
    forall i | first <= i < first + skip ensures Modified(s, i) == Modified(s, k) { SortedModified(s, sort, i, k); }
    if first > 0 { assert !Within(sort, Modified(s, k), Modified(s, first - 1)); }
  }

  /** The token counts from where its stamp's rows begin: right after its page, but for pages that overlap. */
  lemma TokenStandsIn(s: seq<Bso>, q: Query, r: nat, start: nat, limit: nat) returns (p: nat)
    requires Sorted(s, q.sort) && q.sort != Index && limit > 0 && LeavesFrom(s, q, r) && start == r + Skip(q)
    requires start + limit <= |s| && Modified(s, start + limit - 1) % 10 == 0
    ensures StandsAt(s, false, Some(TokenAfter(s, q, start, limit)), p)
    ensures p <= start + limit && (p < start + limit <==> Overlaps(s, q, start, limit))
  {
    var first := RestartExists(s, q.sort, Modified(s, start + limit - 1));
    SkipEnds(s, q, r, start, limit, first);
    TokenStandsFrom(s, q, start, limit, first);
    p := first + TokenSkip(s, q, start, limit, first);
  }

  lemma TokenStandsFrom(s: seq<Bso>, q: Query, start: nat, limit: nat, first: nat)
    requires Sorted(s, q.sort) && q.sort != Index && limit > 0 && start + limit <= |s|
    requires Modified(s, start + limit - 1) % 10 == 0
    requires RestartsAt(s, q.sort, Modified(s, start + limit - 1), first)
    requires first + TokenSkip(s, q, start, limit, first) <= start + limit
    ensures 0 <= first + TokenSkip(s, q, start, limit, first)
    ensures StandsAt(s, false, Some(TokenAfter(s, q, start, limit)), first + TokenSkip(s, q, start, limit, first))
  {
    TokenIs(s, q, start, limit, first);
    StandsFrom(s, q.sort, start + limit - 1, first, TokenAfter(s, q, start, limit), first + TokenSkip(s, q, start, limit, first));
  }

  lemma SkipEnds(s: seq<Bso>, q: Query, r: nat, start: nat, limit: nat, first: nat)
    requires Sorted(s, q.sort) && q.sort != Index && limit > 0 && LeavesFrom(s, q, r) && start == r + Skip(q)
    requires start + limit <= |s| && RestartsAt(s, q.sort, Modified(s, start + limit - 1), first)
    ensures first + TokenSkip(s, q, start, limit, first) <= start + limit
    ensures first + TokenSkip(s, q, start, limit, first) < start + limit <==> Overlaps(s, q, start, limit)
  {
    var last := start + limit - 1;
    assert Within(q.sort, Modified(s, last), Modified(s, last));
    BoundIsPassed(s, q, r, last, first);
    SkipReaches(s, q, r, limit, first);
    OverlapsIfBefore(s, q, r, limit, first);
  }

  lemma SkipReaches(s: seq<Bso>, q: Query, r: nat, limit: nat, first: nat)
    requires limit > 0 && r + Skip(q) + limit <= |s| && r <= first < r + Skip(q) + limit
    requires Bound(q) == Some(Modified(s, r + Skip(q) + limit - 1)) ==> r == first
    ensures var start := r + Skip(q);
            var p := first + TokenSkip(s, q, start, limit, first);
            p <= start + limit
            && (p < start + limit <==> first < start && Bound(q) != Some(Modified(s, start + limit - 1)))
  {
  }

  lemma OverlapsIfBefore(s: seq<Bso>, q: Query, r: nat, limit: nat, first: nat)
    requires Sorted(s, q.sort) && q.sort != Index && limit > 0 && r + Skip(q) + limit <= |s|
    requires RestartsAt(s, q.sort, Modified(s, r + Skip(q) + limit - 1), first) && r <= first
    ensures Overlaps(s, q, r + Skip(q), limit)
            <==> first < r + Skip(q) && Bound(q) != Some(Modified(s, r + Skip(q) + limit - 1))
  {
    var start := r + Skip(q);
    var last := start + limit - 1;
    if first < start {
      SortedModified(s, q.sort, start - 1, last);
      SortedModified(s, q.sort, start, last);
      assert Within(q.sort, Modified(s, last), Modified(s, start - 1));
      assert Within(q.sort, Modified(s, last), Modified(s, start));
    } else if start > 0 && first > start - 1 {
      assert !Within(q.sort, Modified(s, last), Modified(s, start - 1));
    }
  }

  lemma BoundIsPassed(s: seq<Bso>, q: Query, r: nat, k: nat, first: nat)
    requires q.sort != Index && LeavesFrom(s, q, r) && first <= k < |s| && r <= k
    requires RestartsAt(s, q.sort, Modified(s, k), first)
    ensures r <= first && (Bound(q) == Some(Modified(s, k)) ==> r == first)
  {
    if Bound(q).Some? {
      assert Within(q.sort, Bound(q).value, Modified(s, k));
      assert Within(q.sort, Modified(s, k), Modified(s, first));
      if r < first { assert Within(q.sort, Bound(q).value, Modified(s, r)); }
    }
  }

  /** A token stands in one place only. */
  lemma StandsOnce(s: seq<Bso>, sort: Sorting, token: Offset, p: nat, p': nat)
    requires Sorted(s, sort) && sort != Index && token.timestamp.Some?
    requires StandsAt(s, false, Some(token), p) && StandsAt(s, false, Some(token), p')
    ensures p == p'
  {
    if p != p' {
      var low, high := if p < p' then p else p', if p < p' then p' else p;
      SortedModified(s, sort, low - token.offset, high - token.offset - 1);
      SortedModified(s, sort, high - token.offset - 1, high - token.offset);
    }
  }

  // ---- one page ----

  /** The page is the limit's worth of rows at start, which is where the bound and the skip of its query lead; more rows
      follow, and its token is the one that counts these rows. */
  ghost predicate IsCut(s: seq<Bso>, q: Query, start: nat, limit: nat, page: Page) {
    Skip(q) <= start && LeavesFrom(s, q, start - Skip(q)) && start + limit < |s|
    && page == Page(s[start..start + limit], Some(TokenAfter(s, q, start, limit)))
  }

  /** Whatever its query's token counted on, the token of a page stands right behind the page unless the page overlaps;
      then it stands before that, and rows of this page are served again. */
  lemma TokenStands(v: Rows, q: Query, limit: nat) returns (start: nat, p: nat)
    requires WholeHundredths(v) && q.limit == Some(limit) && limit > 0 && q.sort != Index
    requires PageOf(v, q, true).offset.Some?
    ensures var s, page := Ordered(v, q.sort), PageOf(v, q, true);
            IsCut(s, q, start, limit, page) && StandsAt(s, false, page.offset, p)
            && p <= start + limit && (p < start + limit <==> Overlaps(s, q, start, limit))
  {
    start := PageStarts(v, q, limit);
    OrderedLists(v, q.sort);
    StampsAreWhole(v, q.sort, start + limit - 1);
    p := TokenStandsIn(Ordered(v, q.sort), q, start - Skip(q), start, limit);
  }

  lemma StampsAreWhole(v: Rows, sort: Sorting, k: nat)
    requires WholeHundredths(v) && k < |Ordered(v, sort)|
    ensures Modified(Ordered(v, sort), k) % 10 == 0
  {
    OrderedLists(v, sort);
    assert Ordered(v, sort)[k] in Ordered(v, sort);
  }

  lemma PageStarts(v: Rows, q: Query, limit: nat) returns (start: nat)
    requires q.limit == Some(limit) && limit > 0 && q.sort != Index && PageOf(v, q, true).offset.Some?
    ensures IsCut(Ordered(v, q.sort), q, start, limit, PageOf(v, q, true))
  {
    var r := RestStarts(v, q);
    SliceOfPage(Ordered(v, q.sort), q, r, limit, Ordered(Resume(v, q, true), q.sort), PageOf(v, q, true));
    start := r + Skip(q);
  }

  lemma RestStarts(v: Rows, q: Query) returns (r: nat)
    requires q.sort != Index
    ensures LeavesFrom(Ordered(v, q.sort), q, r) && r <= |Ordered(v, q.sort)|
    ensures Ordered(Resume(v, q, true), q.sort) == Ordered(v, q.sort)[r..]
  {
    var s := Ordered(v, q.sort);
    if Bound(q).Some? {
      OrderedLists(v, q.sort);
      r := RestartExists(s, q.sort, Bound(q).value);
      ResumeRestarts(v, q, r);
    } else {
      r := 0;
      assert s[0..] == s;
    }
  }

  lemma SliceOfPage(s: seq<Bso>, q: Query, r: nat, limit: nat, rest: seq<Bso>, page: Page)
    requires q.limit == Some(limit) && limit > 0 && r <= |s| && LeavesFrom(s, q, r) && rest == s[r..]
    requires page == PageFrom(rest, q, true) && page.offset.Some?
    ensures IsCut(s, q, r + Skip(q), limit, page)
  {
    if |Slice(rest, Skip(q), limit + 1)| <= limit {
      NothingFollows(rest, q, true, limit);
    } else {
      CutAt(s, q, r, r + Skip(q), limit);
    }
  }

  lemma CutAt(s: seq<Bso>, q: Query, r: nat, start: nat, limit: nat)
    requires q.limit == Some(limit) && limit > 0 && start == r + Skip(q) && start + limit < |s|
    ensures PageFrom(s[r..], q, true) == Page(s[start..start + limit], Some(TokenAfter(s, q, start, limit)))
  {
    SliceOfSuffix(s, r, start, limit + 1);
    assert s[start..start + limit + 1][..limit] == s[start..start + limit];
    MoreFollows(s[r..], q, true, limit, s[start..start + limit]);
  }
}
