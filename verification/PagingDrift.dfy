/** Paging while other clients also update and delete: what a page passes over. */
module PagingDrift {
  import opened Wrappers
  import opened SyncTables
  import opened Paging
  import opened PagingTheorems
  import opened Sequences

  /** From v to w rows vanish, stay where they were, or come in newer than every row of v. */
  predicate Drifts(v: Rows, w: Rows) {
    forall id :: id in w ==> InPlace(v, w, id) || NewerThanAll(v, w[id])
  }

  predicate InPlace(v: Rows, w: Rows, id: string)
    requires id in w
  {
    id in v && w[id].modified == v[id].modified
  }

  predicate NewerThanAll(v: Rows, row: Row) {
    forall k :: k in v ==> row.modified > v[k].modified
  }

  function Newer(v: Rows, w: Rows): Rows {
    map id | id in w && NewerThanAll(v, w[id]) :: w[id]
  }

  predicate Still(b: Bso, w: Rows) {
    b.id in w && w[b.id].modified == b.row.modified
  }

  /** The rows of a listing that are still in place, as they are now. */
  function Kept(s: seq<Bso>, w: Rows): (r: seq<Bso>)
    ensures |r| <= |s|
  {
    if s == [] then []
    else Kept(s[..|s| - 1], w) + if Still(s[|s| - 1], w) then [Bso(s[|s| - 1].id, w[s[|s| - 1].id])] else []
  }

  lemma {:induction false} KeptMembers(s: seq<Bso>, w: Rows, b: Bso)
    ensures b in Kept(s, w) <==> b.id in w && b.row == w[b.id] && exists a :: a in s && a.id == b.id && Still(a, w)
  {
    if s != [] {
      KeptMembers(s[..|s| - 1], w, b);
      assert forall a :: a in s <==> a in s[..|s| - 1] || a == s[|s| - 1];
    }
  }

  lemma {:induction false} KeptSorted(s: seq<Bso>, w: Rows, sort: Sorting)
    requires Sorted(s, sort) && sort != Index
    ensures Sorted(Kept(s, w), sort)
  {
    if s != [] {
      var init, last := s[..|s| - 1], s[|s| - 1];
      KeptSorted(init, w, sort);
      forall b | b in Kept(init, w) && Still(last, w) ensures Before(sort, b, Bso(last.id, w[last.id])) {
        KeptMembers(init, w, b);
        var a :| a in init && a.id == b.id && Still(a, w);
        var i :| 0 <= i < |init| && init[i] == a;
        assert s[i] == a && Before(sort, s[i], s[|s| - 1]);
      }
    }
  }

  lemma {:induction false} KeptConcat(a: seq<Bso>, b: seq<Bso>, w: Rows)
    ensures Kept(a + b, w) == Kept(a, w) + Kept(b, w)
  {
    if b == [] {
      assert a + b == a;
    } else {
      assert (a + b)[..|a + b| - 1] == a + b[..|b| - 1];
      KeptConcat(a, b[..|b| - 1], w);
    }
  }

  /** Behind a timestamp token, from where its run of equal stamps starts. */
  lemma BehindTheBound(v: Rows, q: Query, p: nat, i: nat)
    requires q.sort != Index && Bound(q).Some? && StandsAt(Ordered(v, q.sort), false, q.offset, p)
    requires i < |Ordered(v, q.sort)|
    ensures Within(q.sort, Bound(q).value, Modified(Ordered(v, q.sort), i)) <==> p - Skip(q) <= i
  {
    var s, start := Ordered(v, q.sort), p - Skip(q);
    OrderedLists(v, q.sort);
    if i < start {
      SortedModified(s, q.sort, i, start - 1);
      SortedModified(s, q.sort, start - 1, start);
    } else {
      SortedModified(s, q.sort, start, i);
    }
  }

  /** What a token leaves of the drifted rows: those of the old listing that are still in place, from the run of the bound
      on; and, oldest first, everything that came in. */
  function Comers(v: Rows, w: Rows, sort: Sorting): Rows {
    if sort == Oldest then Newer(v, w) else map[]
  }

  predicate RowIn(rows: Rows, b: Bso) {
    b.id in rows && b.row == rows[b.id]
  }

  lemma BoundIsARow(v: Rows, q: Query, p: nat)
    requires q.sort != Index && Bound(q).Some? && StandsAt(Ordered(v, q.sort), false, q.offset, p)
    ensures exists k :: k in v && v[k].modified == Bound(q).value
  {
    var s := Ordered(v, q.sort);
    OrderedLists(v, q.sort);
    assert Modified(s, p - 1) == Bound(q).value;
    assert s[p - 1] in s;
  }

  /** A row in place is behind the bound exactly if the listing has it from the bound's run on. */
  lemma InPlaceBehind(v: Rows, q: Query, p: nat, id: string)
    requires q.sort != Index && Bound(q).Some? && StandsAt(Ordered(v, q.sort), false, q.offset, p) && id in v
    ensures Within(q.sort, Bound(q).value, v[id].modified) <==> Bso(id, v[id]) in Ordered(v, q.sort)[p - Skip(q)..]
  {
    var s, start, a := Ordered(v, q.sort), p - Skip(q), Bso(id, v[id]);
    OrderedLists(v, q.sort);
    var i :| 0 <= i < |s| && s[i] == a;
    BehindTheBound(v, q, p, i);
    if start <= i { assert s[start..][i - start] == a; }
    if a in s[start..] {
      var j :| 0 <= j < |s[start..]| && s[start..][j] == a;
      BehindTheBound(v, q, p, start + j);
    }
  }

  lemma KeptInPlace(v: Rows, w: Rows, sort: Sorting, start: nat, b: Bso)
    requires start <= |Ordered(v, sort)|
    ensures b in Kept(Ordered(v, sort)[start..], w)
            <==> b.id in w && b.row == w[b.id] && InPlace(v, w, b.id) && Bso(b.id, v[b.id]) in Ordered(v, sort)[start..]
  {
    var part := Ordered(v, sort)[start..];
    OrderedLists(v, sort);
    KeptMembers(part, w, b);
    forall a | a in part ensures a.id in v && a.row == v[a.id] { assert a in Ordered(v, sort); }
  }

  lemma LeftBehind(v: Rows, w: Rows, q: Query, p: nat, b: Bso)
    requires Drifts(v, w) && q.sort != Index && Bound(q).Some? && StandsAt(Ordered(v, q.sort), false, q.offset, p)
    ensures RowIn(Resume(w, q, true), b)
            <==> b in Kept(Ordered(v, q.sort)[p - Skip(q)..], w) || RowIn(Comers(v, w, q.sort), b)
  {
    KeptInPlace(v, w, q.sort, p - Skip(q), b);
    BoundIsARow(v, q, p);
    if b.id in w && InPlace(v, w, b.id) { InPlaceBehind(v, q, p, b.id); }
  }

  lemma KeptThenComers(v: Rows, w: Rows, sort: Sorting, part: seq<Bso>, kept: seq<Bso>, tail: seq<Bso>)
    requires sort != Index && Sorted(part, sort) && (forall x :: x in part ==> x in Ordered(v, sort))
    requires kept == Kept(part, w) && tail == Ordered(Comers(v, w, sort), sort)
    ensures Sorted(kept + tail, sort)
  {
    KeptSorted(part, w, sort);
    OrderedLists(Comers(v, w, sort), sort);
    forall a, b | a in kept && b in tail ensures Before(sort, a, b) { KeptBeforeComers(v, w, sort, part, a, b); }
    SortedConcat(kept, tail, sort);
  }

  lemma SortedConcat(a: seq<Bso>, b: seq<Bso>, sort: Sorting)
    requires Sorted(a, sort) && Sorted(b, sort) && forall x, y :: x in a && y in b ==> Before(sort, x, y)
    ensures Sorted(a + b, sort)
  {
  }

  lemma DriftedListing(v: Rows, w: Rows, q: Query, p: nat)
    requires Drifts(v, w) && q.sort != Index && Bound(q).Some? && StandsAt(Ordered(v, q.sort), false, q.offset, p)
    ensures Ordered(Resume(w, q, true), q.sort)
            == Kept(Ordered(v, q.sort)[p - Skip(q)..], w) + Ordered(Comers(v, w, q.sort), q.sort)
  {
    var part := Ordered(v, q.sort)[p - Skip(q)..];
    var kept, tail, all := Kept(part, w), Ordered(Comers(v, w, q.sort), q.sort), Ordered(Resume(w, q, true), q.sort);
    PartIsSorted(v, q.sort, p - Skip(q));
    KeptThenComers(v, w, q.sort, part, kept, tail);
    OrderedLists(Comers(v, w, q.sort), q.sort);
    OrderedLists(Resume(w, q, true), q.sort);
    forall b: Bso ensures b in all <==> b in kept + tail {
      LeftBehind(v, w, q, p, b);
    }
    ListingUnique(all, kept + tail, q.sort);
  }

  lemma PartIsSorted(v: Rows, sort: Sorting, start: nat)
    requires start <= |Ordered(v, sort)|
    ensures Sorted(Ordered(v, sort)[start..], sort) && forall x :: x in Ordered(v, sort)[start..] ==> x in Ordered(v, sort)
  {
    OrderedLists(v, sort);
  }

  lemma KeptBeforeComers(v: Rows, w: Rows, sort: Sorting, part: seq<Bso>, a: Bso, b: Bso)
    requires sort != Index && a in Kept(part, w) && (forall x :: x in part ==> x in Ordered(v, sort))
    requires b in Ordered(Comers(v, w, sort), sort)
    ensures Before(sort, a, b)
  {
    OrderedLists(v, sort);
    OrderedLists(Comers(v, w, sort), sort);
    KeptMembers(part, w, a);
    var x :| x in part && x.id == a.id && Still(x, w);
    assert x in Ordered(v, sort);
  }

  lemma SliceOfConcat(a: seq<Bso>, b: seq<Bso>, k: nat, n: nat)
    requires |a| <= k
    ensures Slice(a + b, k, n) == Slice(b, k - |a|, n)
  {
    if k <= |a + b| {
      assert (a + b)[k..] == b[k - |a|..];
      if |a + b| - k > n { assert (a + b)[k..k + n] == b[k - |a|..k - |a| + n]; }
    }
  }

  /** The rows a token counts on that are still in place. */
  function Counted(s: seq<Bso>, p: nat, skip: nat, w: Rows): (r: seq<Bso>)
    requires skip <= p <= |s|
    ensures |r| <= skip
  {
    Kept(s[p - skip..p], w)
  }

  /** How many are not. */
  function Lost(s: seq<Bso>, p: nat, skip: nat, w: Rows): nat
    requires skip <= p <= |s|
  {
    skip - |Counted(s, p, skip, w)|
  }

  /** One row more than asked for is fetched, and dropped again. */
  lemma PageIsSlice(listing: seq<Bso>, q: Query, full: bool, limit: nat)
    requires q.limit == Some(limit) && limit > 0
    ensures PageFrom(listing, q, full).items == Slice(listing, Skip(q), limit)
  {
    var k := Skip(q);
    if |listing| > k + limit { assert listing[k..k + limit + 1][..limit] == listing[k..k + limit]; }
  }

  /** The rows that are due after the first p: those of the old listing still in place, then what came in. */
  ghost function Due(v: Rows, w: Rows, sort: Sorting, p: nat): seq<Bso>
    requires p <= |Ordered(v, sort)|
  {
    Kept(Ordered(v, sort)[p..], w) + Ordered(Comers(v, w, sort), sort)
  }

  lemma SplitListing(v: Rows, w: Rows, q: Query, p: nat)
    requires Drifts(v, w) && q.sort != Index && Bound(q).Some? && StandsAt(Ordered(v, q.sort), false, q.offset, p)
    ensures Ordered(Resume(w, q, true), q.sort)
            == Counted(Ordered(v, q.sort), p, Skip(q), w) + Due(v, w, q.sort, p)
  {
    DriftedListing(v, w, q, p);
    KeptAndComers(Ordered(v, q.sort), p - Skip(q), p, w, Ordered(Comers(v, w, q.sort), q.sort));
  }

  lemma KeptAndComers(s: seq<Bso>, start: nat, p: nat, w: Rows, comers: seq<Bso>)
    requires start <= p <= |s|
    ensures Kept(s[start..], w) + comers == Kept(s[start..p], w) + (Kept(s[p..], w) + comers)
  {
    SplitKept(s, start, p, w);
    ConcatIsAssociative(Kept(s[start..p], w), Kept(s[p..], w), comers);
  }

  lemma SplitKept(s: seq<Bso>, start: nat, p: nat, w: Rows)
    requires start <= p <= |s|
    ensures Kept(s[start..], w) == Kept(s[start..p], w) + Kept(s[p..], w)
  {
    SplitAt(s, start, p);
    KeptConcat(s[start..p], s[p..], w);
  }

  /** The next page, whatever was updated or deleted meanwhile: of the rows that are due it passes over exactly as many
      as rows the token counts on are no longer in place, and then goes on in order. */
  lemma PagePassesOver(v: Rows, w: Rows, q: Query, limit: nat, p: nat)
    requires Drifts(v, w) && q.sort != Index && q.limit == Some(limit) && limit > 0
    requires Bound(q).Some? && StandsAt(Ordered(v, q.sort), false, q.offset, p)
    ensures PageOf(w, q, true).items == Slice(Due(v, w, q.sort, p), Lost(Ordered(v, q.sort), p, Skip(q), w), limit)
  {
    SplitListing(v, w, q, p);
    PageOfSplit(w, q, limit, Ordered(v, q.sort), p, Due(v, w, q.sort, p));
  }

  lemma PageOfSplit(w: Rows, q: Query, limit: nat, s: seq<Bso>, p: nat, due: seq<Bso>)
    requires q.limit == Some(limit) && limit > 0 && Skip(q) <= p <= |s|
    requires Ordered(Resume(w, q, true), q.sort) == Counted(s, p, Skip(q), w) + due
    ensures PageOf(w, q, true).items == Slice(due, Lost(s, p, Skip(q), w), limit)
  {
    ItemsOfSplit(Ordered(Resume(w, q, true), q.sort), Counted(s, p, Skip(q), w), due, q, limit);
  }

  lemma ItemsOfSplit(listing: seq<Bso>, counted: seq<Bso>, due: seq<Bso>, q: Query, limit: nat)
    requires q.limit == Some(limit) && limit > 0 && listing == counted + due && |counted| <= Skip(q)
    ensures PageFrom(listing, q, true).items == Slice(due, Skip(q) - |counted|, limit)
  {
    PageIsSlice(listing, q, true, limit);
    SliceOfConcat(counted, due, Skip(q), limit);
  }

  lemma PassingOverMisses(counted: seq<Bso>, due: seq<Bso>, sort: Sorting, lost: nat, limit: nat)
    requires Sorted(counted + due, sort) && limit > 0
    ensures Slice(due, lost, limit) == Slice(due, 0, limit) <==> lost == 0 || due == []
  {
    if lost > 0 && due != [] && Slice(due, lost, limit) != [] {
      var all, k := counted + due, |counted|;
      assert all[k] == due[0] && all[k + lost] == due[lost];
      BeforeAsymmetric(sort, all[k], all[k + lost]);
      assert Slice(due, lost, limit)[0] == due[lost] && Slice(due, 0, limit)[0] == due[0];
    }
  }

  /** So no row that is due is missed if and only if everything the token counts on is in place, or nothing is due. */
  lemma NothingIsMissed(v: Rows, w: Rows, q: Query, limit: nat, p: nat)
    requires Drifts(v, w) && q.sort != Index && q.limit == Some(limit) && limit > 0
    requires Bound(q).Some? && StandsAt(Ordered(v, q.sort), false, q.offset, p)
    ensures PageOf(w, q, true).items == Slice(Due(v, w, q.sort, p), 0, limit)
            <==> Lost(Ordered(v, q.sort), p, Skip(q), w) == 0 || Due(v, w, q.sort, p) == []
  {
    PagePassesOver(v, w, q, limit, p);
    SplitListing(v, w, q, p);
    OrderedLists(Resume(w, q, true), q.sort);
    PassingOverMisses(Counted(Ordered(v, q.sort), p, Skip(q), w), Due(v, w, q.sort, p), q.sort,
                      Lost(Ordered(v, q.sort), p, Skip(q), w), limit);
  }
}
