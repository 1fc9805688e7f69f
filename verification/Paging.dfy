/** The paginated collection read: which rows, in what order, and the token that continues it. */
module Paging {
  import opened Wrappers
  import opened SyncTables

  const DEFAULT_LIMIT: nat := 10_000

  /** `newest` is also what an absent sort means for records. */
  datatype Sorting = Newest | Oldest | Index

  /** `<timestamp>:<rows to skip>`, or a bare row count. */
  datatype Offset = Offset(timestamp: Option<int>, offset: nat)

  datatype Query = Query(
    newer: Option<int>, older: Option<int>, sort: Sorting, limit: Option<nat>,
    offset: Option<Offset>, ids: seq<string>)

  datatype Bso = Bso(id: string, row: Row)

  datatype Page = Page(items: seq<Bso>, offset: Option<Offset>)

  // ---- the total order of a listing ----

  /** Ids compare character by character, as SQLite compares text. */
  predicate IdLess(a: string, b: string) {
    if b == "" then false
    else if a == "" then true
    else a[0] < b[0] || (a[0] == b[0] && IdLess(a[1..], b[1..]))
  }

  lemma {:induction false} IdLessTotal(a: string, b: string)
    ensures a == b || IdLess(a, b) || IdLess(b, a)
  {
    if a != "" && b != "" && a[0] == b[0] {
      IdLessTotal(a[1..], b[1..]);
      assert a == [a[0]] + a[1..] && b == [b[0]] + b[1..];
    }
  }

  lemma {:induction false} IdLessAsymmetric(a: string, b: string)
    requires IdLess(a, b)
    ensures !IdLess(b, a) && a != b
  {
    if a != "" && a[0] == b[0] {
      IdLessAsymmetric(a[1..], b[1..]);
    }
  }

  lemma {:induction false} IdLessTransitive(a: string, b: string, c: string)
    requires IdLess(a, b) && IdLess(b, c)
    ensures IdLess(a, c)
  {
    if a != "" && a[0] == b[0] == c[0] {
      IdLessTransitive(a[1..], b[1..], c[1..]);
    }
  }

  /** The rank `sort=index` orders by; SQLite puts an absent sortindex below every present one. */
  predicate RankAbove(a: Option<int>, b: Option<int>) {
    a.Some? && (b.None? || a.value > b.value)
  }

  /** The ORDER BY clause. Ties under `index` are left open by SQL; the model fixes them by id. */
  predicate Before(sort: Sorting, a: Bso, b: Bso) {
    match sort
    case Newest => a.row.modified > b.row.modified || (a.row.modified == b.row.modified && IdLess(b.id, a.id))
    case Oldest => a.row.modified < b.row.modified || (a.row.modified == b.row.modified && IdLess(a.id, b.id))
    case Index => RankAbove(a.row.sortindex, b.row.sortindex)
                  || (a.row.sortindex == b.row.sortindex && IdLess(a.id, b.id))
  }

  lemma BeforeTotal(sort: Sorting, a: Bso, b: Bso)
    requires a.id != b.id
    ensures Before(sort, a, b) || Before(sort, b, a)
  {
    IdLessTotal(a.id, b.id);
  }

  lemma BeforeAsymmetric(sort: Sorting, a: Bso, b: Bso)
    requires Before(sort, a, b)
    ensures !Before(sort, b, a) && a != b
  {
    if IdLess(a.id, b.id) { IdLessAsymmetric(a.id, b.id); }
    if IdLess(b.id, a.id) { IdLessAsymmetric(b.id, a.id); }
  }

  lemma BeforeTransitive(sort: Sorting, a: Bso, b: Bso, c: Bso)
    requires Before(sort, a, b) && Before(sort, b, c)
    ensures Before(sort, a, c)
  {
    if IdLess(a.id, b.id) && IdLess(b.id, c.id) { IdLessTransitive(a.id, b.id, c.id); }
    if IdLess(b.id, a.id) && IdLess(c.id, b.id) { IdLessTransitive(c.id, b.id, a.id); }
  }

  // ---- listings ----

  ghost predicate Sorted(s: seq<Bso>, sort: Sorting) {
    forall i, j :: 0 <= i < j < |s| ==> Before(sort, s[i], s[j])
  }

  /** s holds exactly the rows of v. */
  ghost predicate Lists(s: seq<Bso>, v: Rows) {
    forall b: Bso :: b in s <==> b.id in v && b.row == v[b.id]
  }

  predicate IsFirst(v: Rows, sort: Sorting, id: string) {
    id in v && forall k :: k in v && k != id ==> Before(sort, Bso(id, v[id]), Bso(k, v[k]))
  }

  lemma FirstExists(v: Rows, sort: Sorting)
    requires v != map[]
    ensures exists id :: IsFirst(v, sort, id)
    decreases |v|
  {
    var k :| k in v;
    var rest := v - {k};
    assert v.Keys == {k} + rest.Keys;
    if rest == map[] {
      assert IsFirst(v, sort, k);
    } else {
      FirstExists(rest, sort);
      var f :| IsFirst(rest, sort, f);
      BeforeTotal(sort, Bso(f, v[f]), Bso(k, v[k]));
      if Before(sort, Bso(f, v[f]), Bso(k, v[k])) {
        assert IsFirst(v, sort, f);
      } else {
        forall j | j in v && j != k ensures Before(sort, Bso(k, v[k]), Bso(j, v[j])) {
          assert j in rest;
          if j != f { BeforeTransitive(sort, Bso(k, v[k]), Bso(f, v[f]), Bso(j, v[j])); }
        }
        assert IsFirst(v, sort, k);
      }
    }
  }

  ghost predicate IsListing(s: seq<Bso>, v: Rows, sort: Sorting) {
    Sorted(s, sort) && Lists(s, v) && |s| == |v|
  }

  lemma PrependFirst(v: Rows, sort: Sorting, id: string, tail: seq<Bso>)
    requires IsFirst(v, sort, id) && IsListing(tail, v - {id}, sort)
    requires |v - {id}| + 1 == |v|
    ensures IsListing([Bso(id, v[id])] + tail, v, sort)
  {
    var first := Bso(id, v[id]);
    forall b: Bso ensures b in [first] + tail <==> b.id in v && b.row == v[b.id] {
      assert b in [first] + tail <==> b == first || b in tail;
    }
    forall b | b in tail ensures Before(sort, first, b) { assert b.id in v - {id}; }
    FirstThenSorted(first, tail, sort);
  }

  lemma FirstThenSorted(first: Bso, tail: seq<Bso>, sort: Sorting)
    requires Sorted(tail, sort) && forall b :: b in tail ==> Before(sort, first, b)
    ensures Sorted([first] + tail, sort)
  {
    var s := [first] + tail;
    forall i, j | 0 <= i < j < |s| ensures Before(sort, s[i], s[j]) {
      assert s[j] == tail[j - 1] && tail[j - 1] in tail;
      if i > 0 { assert s[i] == tail[i - 1]; }
    }
  }

  lemma OneLess(v: Rows, id: string)
    requires id in v
    ensures |v - {id}| + 1 == |v|
  {
    assert v.Keys == {id} + (v - {id}).Keys;
  }

  lemma {:induction false} ListingExists(v: Rows, sort: Sorting)
    ensures exists s :: IsListing(s, v, sort)
    decreases |v|
  {
    if v == map[] {
      assert IsListing([], v, sort);
    } else {
      FirstExists(v, sort);
      var id :| IsFirst(v, sort, id);
      OneLess(v, id);
      ListingExists(v - {id}, sort);
      var tail :| IsListing(tail, v - {id}, sort);
      PrependFirst(v, sort, id, tail);
    }
  }

  /** What `ORDER BY` makes of a set of rows. */
  ghost function Ordered(v: Rows, sort: Sorting): seq<Bso> {
    ListingExists(v, sort);
    var s :| IsListing(s, v, sort);
    s
  }

  lemma OrderedLists(v: Rows, sort: Sorting)
    ensures IsListing(Ordered(v, sort), v, sort)
  {
    ListingExists(v, sort);
  }

  lemma NonEmptyHasMember(t: seq<Bso>)
    ensures t == [] || exists b :: b in t
  {
    assert t == [] || t[0] in t;
  }

  /** A sorted listing is unique. */
  lemma {:induction false} ListingUnique(s: seq<Bso>, t: seq<Bso>, sort: Sorting)
    requires Sorted(s, sort) && Sorted(t, sort)
    requires forall b: Bso :: b in s <==> b in t
    ensures s == t
  {
    if s == [] {
      NonEmptyHasMember(t);
    } else {
      assert s[0] in t;
      assert t[0] in s;
      if s[0] != t[0] {
        BeforeAsymmetric(sort, s[0], t[0]);
      }
      assert forall b :: b in s[1..] ==> Before(sort, s[0], b);
      assert forall b :: b in t[1..] ==> Before(sort, t[0], b);
      forall b: Bso ensures b in s[1..] <==> b in t[1..] {
        if b in s[1..] { assert b in s && b in t; BeforeAsymmetric(sort, s[0], b); }
        if b in t[1..] { assert b in t && b in s; BeforeAsymmetric(sort, t[0], b); }
      }
      ListingUnique(s[1..], t[1..], sort);
    }
  }

  lemma SuffixMembers(s: seq<Bso>, w: Rows, k: nat, b: Bso)
    requires k <= |s|
    requires forall i :: 0 <= i < |s| ==> (s[i].id in w <==> k <= i)
    requires forall i :: 0 <= i < |s| && s[i].id in w ==> w[s[i].id] == s[i].row
    requires b.id in w && b.row == w[b.id] ==> b in s
    ensures b in s[k..] <==> b.id in w && b.row == w[b.id]
  {
    if b in s[k..] {
      var i :| 0 <= i < |s| - k && s[k..][i] == b;
      assert s[k + i] == b;
    }
    if b.id in w && b.row == w[b.id] {
      var i :| 0 <= i < |s| && s[i] == b;
      assert s[k..][i - k] == b;
    }
  }

  /** A selection that the order visits last is a suffix of the listing. */
  lemma SuffixListing(v: Rows, w: Rows, sort: Sorting, k: nat)
    requires k <= |Ordered(v, sort)|
    requires forall id :: id in w ==> id in v && w[id] == v[id]
    requires forall i :: 0 <= i < |Ordered(v, sort)| ==> (Ordered(v, sort)[i].id in w <==> k <= i)
    ensures Ordered(w, sort) == Ordered(v, sort)[k..]
  {
    var s, t := Ordered(v, sort), Ordered(w, sort);
    OrderedLists(v, sort);
    OrderedLists(w, sort);
    forall i | 0 <= i < |s| && s[i].id in w ensures w[s[i].id] == s[i].row {
      assert s[i] in s;
    }
    forall b: Bso ensures b in s[k..] <==> b in t {
      SuffixMembers(s, w, k, b);
    }
    ListingUnique(t, s[k..], sort);
  }

  // ---- one read ----

  /** The rows a query asks for, before any offset. */
  function Visible(rows: Rows, now: int, q: Query): Rows {
    map id | id in rows
             && rows[id].expiry > now
             && (q.older.Some? ==> rows[id].modified < q.older.value)
             && (q.newer.Some? ==> rows[id].modified > q.newer.value)
             && (q.ids == [] || id in q.ids)
      :: rows[id]
  }

  /** On the far side of a token's timestamp, in the direction the sort runs. */
  predicate Within(sort: Sorting, bound: int, modified: int) {
    match sort
    case Newest => modified <= bound
    case Oldest => modified >= bound
    case Index => true
  }

  function Bound(q: Query): Option<int> {
    if q.offset.Some? then q.offset.value.timestamp else None
  }

  function Skip(q: Query): nat {
    if q.offset.Some? then q.offset.value.offset else 0
  }

  /** The rows left once a timestamp token has cut off what was already passed. */
  function Resume(v: Rows, q: Query, full: bool): Rows {
    if full && Bound(q).Some? then
      map id | id in v && Within(q.sort, Bound(q).value, v[id].modified) :: v[id]
    else v
  }

  /** `LIMIT n OFFSET skip`. */
  function Slice<T>(s: seq<T>, skip: nat, n: nat): seq<T> {
    if |s| <= skip then [] else if |s| - skip <= n then s[skip..] else s[skip..skip + n]
  }

  function Stamps(items: seq<Bso>): seq<int> {
    seq(|items|, i requires 0 <= i < |items| => items[i].row.modified)
  }

  /** How many values at the end of a page equal its last one. */
  function TailRun(modified: seq<int>): (k: nat)
    ensures k <= |modified|
    ensures modified != [] ==> k > 0
  {
    if modified == [] then 0
    else if |modified| == 1 || modified[|modified| - 2] != modified[|modified| - 1] then 1
    else 1 + TailRun(modified[..|modified| - 1])
  }

  lemma {:induction false} TailRunIsMaximal(modified: seq<int>)
    requires modified != []
    ensures forall j :: |modified| - TailRun(modified) <= j < |modified|
                        ==> modified[j] == modified[|modified| - 1]
    ensures TailRun(modified) < |modified|
            ==> modified[|modified| - TailRun(modified) - 1] != modified[|modified| - 1]
  {
    if |modified| > 1 && modified[|modified| - 2] == modified[|modified| - 1] {
      TailRunIsMaximal(modified[..|modified| - 1]);
    }
  }

  function NextOffset(sort: Sorting, prevOffset: nat, prevTimestamp: Option<int>, modified: seq<int>): Offset {
    if sort == Index then Offset(None, prevOffset + |modified|)
    else if modified == [] then Offset(None, prevOffset)
    else
      var bound := modified[|modified| - 1];
      var skip := TailRun(modified);
      Offset(Some(Quantize(bound)),
             if skip == |modified| && prevTimestamp == Some(bound) then skip + prevOffset else skip)
  }

  /** The counting loop of `encode_next_offset`. */
  method EncodeNextOffset(sort: Sorting, prevOffset: nat, prevTimestamp: Option<int>, modified: seq<int>)
    returns (token: Offset)
    ensures token == NextOffset(sort, prevOffset, prevTimestamp, modified)
  {
    if sort == Index {
      return Offset(None, prevOffset + |modified|);
    }
    if modified == [] {
      return Offset(None, prevOffset);
    }
    var bound := modified[|modified| - 1];
    var skip := 1;
    while skip < |modified| && modified[|modified| - 1 - skip] == bound
      invariant 1 <= skip <= |modified|
      invariant forall j :: |modified| - skip <= j < |modified| ==> modified[j] == bound
    {
      skip := skip + 1;
    }
    TailRunIsMaximal(modified);
    if skip == |modified| && prevTimestamp == Some(bound) {
      skip := skip + prevOffset;
    }
    token := Offset(Some(Quantize(bound)), skip);
  }

  /** The page a query gets out of the ordered rows its WHERE clause leaves. */
  function PageFrom(listing: seq<Bso>, q: Query, full: bool): Page {
    var limit := q.limit.GetOr(DEFAULT_LIMIT);
    // One row more than asked for tells whether there is a next page.
    var fetched := Slice(listing, Skip(q), if limit > 0 then limit + 1 else 0);
    if |fetched| > limit then
      var items := fetched[..|fetched| - 1];
      Page(items, Some(if full then NextOffset(q.sort, Skip(q), Bound(q), Stamps(items))
                       else Offset(None, limit + Skip(q))))
    else Page(fetched, if limit == 0 && full then Some(Offset(None, 0)) else None)
  }

  ghost function PageOf(v: Rows, q: Query, full: bool): Page {
    PageFrom(Ordered(Resume(v, q, full), q.sort), q, full)
  }

  ghost function GetBsos(rows: Rows, now: int, q: Query, full: bool): Page {
    PageOf(Visible(rows, now, q), q, full)
  }

  /** The cross-check of `parse_query`: a token outside the query's window is refused. */
  predicate TokenFits(q: Query) {
    q.sort != Index && Bound(q).Some? ==>
      (q.newer.Some? ==> q.newer.value <= Bound(q).value)
      && (q.newer.None? && q.older.Some? ==> Bound(q).value <= q.older.value)
  }
}
