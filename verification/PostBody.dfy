/** The body of a POST to a collection: which of its records are stored, and which are sent back. */
module PostBody {
  import opened Wrappers
  import opened SyncTables

  const MAX_POST_BYTES: nat := 2_621_440
  const MAX_POST_RECORDS: nat := 100
  const MAX_RECORD_PAYLOAD_BYTES: nat := 2_621_440
  const BSO_MAX_TTL: int := 999_999_999
  const MAX_SORTINDEX: int := 999_999_999
  const MIN_SORTINDEX: int := -999_999_999
  const KNOWN_FIELDS: set<string> := {"id", "sortindex", "payload", "ttl", "modified", "collection"}

  /** A JSON value, as far as a record looks into it; a number that is not written as an integer is `Other`. */
  datatype Json = Null | Bool(flag: bool) | Whole(number: int) | Text(text: string) | Object(fields: map<string, Json>) | Other

  datatype Reason = UnknownField | InvalidId | InvalidPayload | InvalidSortindex | InvalidTtl | RetryBytes | RetryBso
  datatype Error = InvalidWbo

  datatype PostedBsos = PostedBsos(valid: seq<Posted>, invalid: map<string, Reason>)

  // ---- one record ----

  predicate Printable(s: string) {
    forall i :: 0 <= i < |s| ==> ' ' <= s[i] <= '~'
  }

  /** `^[ -~]{1,64}$`, where `$` also stands before a last line feed. */
  predicate BsoId(s: string) {
    var body := if s != "" && s[|s| - 1] == '\n' then s[..|s| - 1] else s;
    1 <= |body| <= 64 && Printable(body)
  }

  /** `value.get(name)`: a missing field and a null one are the same. */
  function Get(fields: map<string, Json>, name: string): Json {
    if name in fields then fields[name] else Null
  }

  function ReadText(v: Json, reason: Reason): Result<Option<string>, Reason> {
    match v
    case Null => Ok(None)
    case Text(s) => Ok(Some(s))
    case _ => Err(reason)
  }

  function ReadWhole(v: Json, low: int, high: int, reason: Reason): Result<Option<int>, Reason> {
    match v
    case Null => Ok(None)
    case Whole(n) => if low <= n <= high then Ok(Some(n)) else Err(reason)
    case _ => Err(reason)
  }

  /** `_bso_from_object`, with the id required. */
  function Read(fields: map<string, Json>): Result<Posted, Reason> {
    if !(fields.Keys <= KNOWN_FIELDS) then Err(UnknownField)
    else if !(Get(fields, "id").Text? && BsoId(fields["id"].text)) then Err(InvalidId)
    else
      match ReadText(Get(fields, "payload"), InvalidPayload)
      case Err(e) => Err(e)
      case Ok(payload) =>
        match ReadWhole(Get(fields, "sortindex"), MIN_SORTINDEX, MAX_SORTINDEX, InvalidSortindex)
        case Err(e) => Err(e)
        case Ok(sortindex) =>
          match ReadWhole(Get(fields, "ttl"), 0, BSO_MAX_TTL, InvalidTtl)
          case Err(e) => Err(e)
          case Ok(ttl) => Ok(Posted(fields["id"].text, payload, sortindex, ttl))
  }

  /** Counted in characters, whatever the name of the limit. */
  function Size(p: Posted): nat {
    |p.payload.GetOr("")|
  }

  // ---- a whole body ----

  predicate Named(item: Json) {
    item.Object? && Get(item.fields, "id").Text?
  }

  function IdOf(item: Json): string
    requires Named(item)
  {
    item.fields["id"].text
  }

  ghost predicate AllNamed(items: seq<Json>) {
    forall i :: 0 <= i < |items| ==> Named(items[i])
  }

  /** Every item is an object with an id, and no two ids are the same. */
  ghost predicate Identified(items: seq<Json>) {
    AllNamed(items) && forall i, j :: 0 <= i < j < |items| ==> IdOf(items[i]) != IdOf(items[j])
  }

  ghost function Ids(items: seq<Json>): set<string>
    requires AllNamed(items)
  {
    set i | 0 <= i < |items| :: IdOf(items[i])
  }

  /** What a record adds to the running total, whether or not it is kept. */
  function Weight(item: Json): nat
    requires Named(item)
  {
    match Read(item.fields)
    case Ok(p) => Size(p)
    case Err(_) => 0
  }

  ghost function Total(items: seq<Json>, n: nat): nat
    requires AllNamed(items) && n <= |items|
  {
    if n == 0 then 0 else Total(items, n - 1) + Weight(items[n - 1])
  }

  /** Well formed, and within both byte limits. */
  ghost predicate Fits(items: seq<Json>, k: nat)
    requires AllNamed(items) && k < |items|
  {
    Read(items[k].fields).Ok?
    && Size(Read(items[k].fields).value) <= MAX_RECORD_PAYLOAD_BYTES
    && Total(items, k + 1) <= MAX_POST_BYTES
  }

  /** The records that fit among the first `n`, in posting order. */
  ghost function Fitting(items: seq<Json>, n: nat): (ps: seq<Posted>)
    requires AllNamed(items) && n <= |items|
    ensures |ps| <= n
  {
    if n == 0 then []
    else Fitting(items, n - 1) + if Fits(items, n - 1) then [Read(items[n - 1].fields).value] else []
  }

  /** Why item `k` is sent back when at most `room` records may stay, or nothing when it stays. */
  ghost function Refusal(items: seq<Json>, k: nat, room: nat): Option<Reason>
    requires AllNamed(items) && k < |items|
  {
    match Read(items[k].fields)
    case Err(e) => Some(e)
    case Ok(_) =>
      if !Fits(items, k) then Some(RetryBytes)
      else if |Fitting(items, k)| >= room then Some(RetryBso)
      else None
  }

  /** The refused of the first `n` items are in `invalid` with their reasons, and nothing else is. */
  ghost predicate Refused(items: seq<Json>, n: nat, room: nat, invalid: map<string, Reason>)
    requires AllNamed(items) && n <= |items|
  {
    (forall k :: 0 <= k < n ==> RefusedAt(items, k, room, invalid))
    && invalid.Keys <= Ids(items[..n])
  }

  ghost predicate RefusedAt(items: seq<Json>, k: nat, room: nat, invalid: map<string, Reason>)
    requires AllNamed(items) && k < |items|
  {
    Refusal(items, k, room) == if IdOf(items[k]) in invalid then Some(invalid[IdOf(items[k])]) else None
  }

  lemma {:induction false} FittingIsPrefix(items: seq<Json>, k: nat, n: nat)
    requires AllNamed(items) && k <= n <= |items|
    ensures Fitting(items, k) <= Fitting(items, n)
  {
    if k < n { FittingIsPrefix(items, k, n - 1); }
  }

  /** A record that fits keeps its place among those that do. */
  lemma FittingAt(items: seq<Json>, k: nat)
    requires AllNamed(items) && k < |items| && Fits(items, k)
    ensures |Fitting(items, k)| < |Fitting(items, |items|)|
    ensures Fitting(items, |items|)[|Fitting(items, k)|] == Read(items[k].fields).value
  {
    FittingIsPrefix(items, k + 1, |items|);
  }

  lemma {:induction false} FittingSource(items: seq<Json>, n: nat, j: nat) returns (k: nat)
    requires AllNamed(items) && n <= |items| && j < |Fitting(items, n)|
    ensures k < n && Fits(items, k) && |Fitting(items, k)| == j
  {
    if j < |Fitting(items, n - 1)| { k := FittingSource(items, n - 1, j); } else { k := n - 1; }
  }

  /** Giving up the last of the records that fit. */
  lemma LastIsDropped(items: seq<Json>, room: nat, invalid: map<string, Reason>)
    requires Identified(items) && room < |Fitting(items, |items|)| && Refused(items, |items|, room + 1, invalid)
    ensures Refused(items, |items|, room, invalid[Fitting(items, |items|)[room].id := RetryBso])
  {
    var k := FittingSource(items, |items|, room);
    FittingAt(items, k);
    var id := IdOf(items[k]);
    assert items[..|items|] == items;
    assert Fitting(items, |items|)[room].id == id && id in Ids(items);
    var out := invalid[id := RetryBso];
    forall l: nat | l < |items| ensures RefusedAt(items, l, room, out) {
      assert RefusedAt(items, l, room + 1, invalid);
      if l != k && Fits(items, l) { FittingAt(items, l); PlacesDiffer(items, l, k); }
    }
  }

  lemma PlacesDiffer(items: seq<Json>, k: nat, l: nat)
    requires AllNamed(items) && k < |items| && l < |items| && k != l && Fits(items, k) && Fits(items, l)
    ensures |Fitting(items, k)| != |Fitting(items, l)|
  {
    FittingIsPrefix(items, if k < l then k + 1 else l + 1, if k < l then l else k);
  }

  lemma RefusedGrows(items: seq<Json>, n: nat, room: nat, invalid: map<string, Reason>)
    requires Identified(items) && n < |items| && |items| <= room && Refused(items, n, room, invalid)
    ensures var id := IdOf(items[n]);
            var out := match Refusal(items, n, room) case Some(e) => invalid[id := e] case None => invalid;
            Refused(items, n + 1, room, out)
  {
    var id := IdOf(items[n]);
    var out := match Refusal(items, n, room) case Some(e) => invalid[id := e] case None => invalid;
    assert id !in Ids(items[..n]);
    forall k: nat | k < n + 1 ensures RefusedAt(items, k, room, out) {
      if k < n { assert RefusedAt(items, k, room, invalid); assert IdOf(items[k]) != id; }
    }
    assert Ids(items[..n]) + {id} <= Ids(items[..n + 1]) by {
      assert items[..n + 1][n] == items[n];
      forall i | 0 <= i < n ensures IdOf(items[..n][i]) in Ids(items[..n + 1]) { assert items[..n + 1][i] == items[..n][i]; }
    }
  }

  /** A prefix takes in one more item when that item is named and its id is new. */
  lemma IdentifiedGrows(items: seq<Json>, n: nat)
    requires n < |items| && Identified(items[..n])
    ensures Identified(items[..n + 1]) <==> Named(items[n]) && IdOf(items[n]) !in Ids(items[..n])
    ensures Identified(items[..n + 1]) ==> Ids(items[..n + 1]) == Ids(items[..n]) + {IdOf(items[n])}
  {
    var before, after := items[..n], items[..n + 1];
    assert after == before + [items[n]];
    if Identified(after) {
      forall i | 0 <= i < n ensures IdOf(before[i]) != IdOf(items[n]) { assert after[i] == before[i] && after[n] == items[n]; }
      forall id | id in Ids(before) + {IdOf(items[n])} ensures id in Ids(after) {
        if id in Ids(before) {
          var i :| 0 <= i < n && id == IdOf(before[i]);
          assert id == IdOf(after[i]);
        } else {
          assert id == IdOf(after[n]);
        }
      }
    }
  }

  lemma IdentifiedPrefix(items: seq<Json>, n: nat)
    requires n <= |items| && Identified(items)
    ensures Identified(items[..n])
  {
    forall i, j | 0 <= i < j < n ensures IdOf(items[..n][i]) != IdOf(items[..n][j]) {
      assert items[..n][i] == items[i] && items[..n][j] == items[j];
    }
  }

  /** What the loop holds after `n` items, if all turn out to have names of their own. */
  ghost predicate Sifted(items: seq<Json>, n: nat, valid: seq<Posted>, invalid: map<string, Reason>, total: nat)
    requires AllNamed(items) && n <= |items|
  {
    total == Total(items, n) && valid == Fitting(items, n) && Refused(items, n, |items|, invalid)
  }

  lemma SiftedGrows(items: seq<Json>, n: nat, valid: seq<Posted>, invalid: map<string, Reason>, total: nat)
    requires Identified(items) && n < |items| && Sifted(items, n, valid, invalid, total)
    ensures match Read(items[n].fields)
            case Err(reason) => Sifted(items, n + 1, valid, invalid[IdOf(items[n]) := reason], total)
            case Ok(p) =>
              if Size(p) > MAX_RECORD_PAYLOAD_BYTES || total + Size(p) > MAX_POST_BYTES
              then Sifted(items, n + 1, valid, invalid[p.id := RetryBytes], total + Size(p))
              else Sifted(items, n + 1, valid + [p], invalid, total + Size(p))
  {
    RefusedGrows(items, n, |items|, invalid);
  }

  /** The room does not matter as long as every record that fits has some. */
  lemma RefusedWithRoom(items: seq<Json>, room: nat, other: nat, invalid: map<string, Reason>)
    requires AllNamed(items) && Refused(items, |items|, room, invalid)
    requires |Fitting(items, |items|)| <= room && |Fitting(items, |items|)| <= other
    ensures Refused(items, |items|, other, invalid)
  {
    forall k: nat | k < |items| ensures RefusedAt(items, k, other, invalid) {
      assert RefusedAt(items, k, room, invalid);
      if Fits(items, k) { FittingAt(items, k); }
    }
  }

  /** The records that are stored: those that fit, up to the cap. */
  ghost function Kept(items: seq<Json>): seq<Posted>
    requires AllNamed(items)
  {
    var fitting := Fitting(items, |items|);
    fitting[..if |fitting| <= MAX_POST_RECORDS then |fitting| else MAX_POST_RECORDS]
  }

  /** `parse_bso_bodies`, from the list of items on. */
  method ParseBsoBodies(items: seq<Json>) returns (r: Result<PostedBsos, Error>)
    ensures r.Ok? <==> Identified(items)
    ensures r.Ok? ==> r.value.valid == Kept(items)
    ensures r.Ok? ==> Refused(items, |items|, MAX_POST_RECORDS, r.value.invalid)
  {
    var valid, invalid, seen := [], map[], {};
    var total: nat := 0;
    var i := 0;
    while i < |items|
      invariant 0 <= i <= |items| && Identified(items[..i]) && seen == Ids(items[..i])
      invariant Identified(items) ==> Sifted(items, i, valid, invalid, total)
    {
      var item := items[i];
      IdentifiedGrows(items, i);
      if Identified(items) {
        IdentifiedPrefix(items, i + 1);
        SiftedGrows(items, i, valid, invalid, total);
      }
      if !(item.Object? && Get(item.fields, "id").Text?) { return Err(InvalidWbo); }
      var id := item.fields["id"].text;
      if id in seen { return Err(InvalidWbo); }
      seen := seen + {id};
      match Read(item.fields) {
        case Err(reason) =>
          invalid := invalid[id := reason];
        case Ok(bso) =>
          total := total + Size(bso);
          if Size(bso) > MAX_RECORD_PAYLOAD_BYTES || total > MAX_POST_BYTES {
            invalid := invalid[bso.id := RetryBytes];
          } else {
            valid := valid + [bso];
          }
      }
      i := i + 1;
    }
    assert items[..i] == items;
    valid, invalid := DropOverflow(items, valid, invalid);
    r := Ok(PostedBsos(valid, invalid));
  }

  /** Anything past the record cap is deferred, from the end. */
  method DropOverflow(ghost items: seq<Json>, accepted: seq<Posted>, refused: map<string, Reason>)
    returns (valid: seq<Posted>, invalid: map<string, Reason>)
    requires Identified(items) && accepted == Fitting(items, |items|) && Refused(items, |items|, |items|, refused)
    ensures valid == Kept(items)
    ensures Refused(items, |items|, MAX_POST_RECORDS, invalid)
  {
    valid, invalid := accepted, refused;
    RefusedWithRoom(items, |items|, |valid|, invalid);
    while |valid| > MAX_POST_RECORDS
      invariant |valid| <= |accepted| && valid == accepted[..|valid|]
      invariant |valid| >= MAX_POST_RECORDS || valid == accepted
      invariant Refused(items, |items|, |valid|, invalid)
    {
      var dropped := valid[|valid| - 1];
      LastIsDropped(items, |valid| - 1, invalid);
      valid := valid[..|valid| - 1];
      invalid := invalid[dropped.id := RetryBso];
    }
    if |valid| < MAX_POST_RECORDS { RefusedWithRoom(items, |valid|, MAX_POST_RECORDS, invalid); }
  }

  // ---- what the partition promises ----

  ghost predicate Stored(items: seq<Json>, k: nat)
    requires AllNamed(items) && k < |items|
  {
    Refusal(items, k, MAX_POST_RECORDS).None?
  }

  function PayloadOf(ps: seq<Posted>): nat {
    if ps == [] then 0 else PayloadOf(ps[..|ps| - 1]) + Size(ps[|ps| - 1])
  }

  /** What fits weighs no more than everything posted, and no more than the limit. */
  lemma {:induction false} FittingPayload(items: seq<Json>, n: nat)
    requires AllNamed(items) && n <= |items|
    ensures PayloadOf(Fitting(items, n)) <= Total(items, n)
    ensures Fitting(items, n) != [] ==> PayloadOf(Fitting(items, n)) <= MAX_POST_BYTES
  {
    if n > 0 {
      FittingPayload(items, n - 1);
      OneMoreFitting(items, n);
    }
  }

  lemma OneMoreFitting(items: seq<Json>, n: nat)
    requires AllNamed(items) && 0 < n <= |items|
    ensures Fitting(items, n) == Fitting(items, n - 1)
            || (PayloadOf(Fitting(items, n)) == PayloadOf(Fitting(items, n - 1)) + Weight(items[n - 1])
                && Total(items, n) <= MAX_POST_BYTES)
  {
    if Fits(items, n - 1) {
      PayloadOfOneMore(Fitting(items, n - 1), Read(items[n - 1].fields).value);
    }
  }

  lemma PayloadOfOneMore(ps: seq<Posted>, p: Posted)
    ensures PayloadOf(ps + [p]) == PayloadOf(ps) + Size(p)
  {
    assert (ps + [p])[..|ps|] == ps;
  }

  /** The first records that fit are what fits of the first items. */
  lemma {:induction false} FittingPrefix(items: seq<Json>, n: nat, room: nat) returns (m: nat)
    requires AllNamed(items) && n <= |items| && room <= |Fitting(items, n)|
    ensures m <= n && Fitting(items, m) == Fitting(items, n)[..room]
  {
    if room == |Fitting(items, n)| {
      m := n;
    } else {
      m := FittingPrefix(items, n - 1, room);
      PrefixIsKept(Fitting(items, n - 1), Fitting(items, n), room);
    }
  }

  lemma PrefixIsKept(before: seq<Posted>, after: seq<Posted>, room: nat)
    requires before <= after && room <= |before|
    ensures after[..room] == before[..room]
  {
  }

  /** At most a hundred records are stored, and their payloads together are within the limit. */
  lemma LimitsAreKept(items: seq<Json>)
    requires AllNamed(items)
    ensures |Kept(items)| <= MAX_POST_RECORDS && PayloadOf(Kept(items)) <= MAX_POST_BYTES
  {
    var m := FittingPrefix(items, |items|, |Kept(items)|);
    FittingPayload(items, m);
  }

  /** An item that is not refused stands among the stored records, after those posted before it. */
  lemma StoredIsKept(items: seq<Json>, k: nat)
    requires AllNamed(items) && k < |items| && Stored(items, k)
    ensures |Fitting(items, k)| < |Kept(items)| && Kept(items)[|Fitting(items, k)|] == Read(items[k].fields).value
  {
    FittingAt(items, k);
  }

  /** And every stored record is an item that is not refused. */
  lemma KeptIsStored(items: seq<Json>, j: nat) returns (k: nat)
    requires AllNamed(items) && j < |Kept(items)|
    ensures k < |items| && Stored(items, k) && |Fitting(items, k)| == j && Kept(items)[j].id == IdOf(items[k])
  {
    k := FittingSource(items, |items|, j);
    FittingAt(items, k);
  }

  /** A posted id is among the stored records exactly when it has no entry among the failed ones. */
  lemma PostingIsPartitioned(items: seq<Json>, invalid: map<string, Reason>, id: string)
    requires Identified(items) && Refused(items, |items|, MAX_POST_RECORDS, invalid) && id in Ids(items)
    ensures id in invalid <==> !exists j :: 0 <= j < |Kept(items)| && Kept(items)[j].id == id
  {
    var k :| 0 <= k < |items| && IdOf(items[k]) == id;
    assert RefusedAt(items, k, MAX_POST_RECORDS, invalid);
    if Stored(items, k) {
      StoredIsKept(items, k);
    } else {
      forall j | 0 <= j < |Kept(items)| ensures Kept(items)[j].id != id { RefusedIsNotKept(items, k, j); }
    }
  }

  lemma RefusedIsNotKept(items: seq<Json>, k: nat, j: nat)
    requires Identified(items) && k < |items| && !Stored(items, k) && j < |Kept(items)|
    ensures Kept(items)[j].id != IdOf(items[k])
  {
    var l := KeptIsStored(items, j);
  }

  /** Posting order: of two stored records the one posted first stands first. */
  lemma OrderIsKept(items: seq<Json>, k: nat, l: nat)
    requires AllNamed(items) && k < l < |items| && Stored(items, k) && Stored(items, l)
    ensures |Fitting(items, k)| < |Fitting(items, l)|
  {
    FittingIsPrefix(items, k + 1, l);
  }

  /** The record cap defers from the end: once one record that fits is deferred by it, so is every later one. */
  lemma CapDefersTheEnd(items: seq<Json>, k: nat, l: nat)
    requires AllNamed(items) && k < l < |items| && Refusal(items, k, MAX_POST_RECORDS) == Some(RetryBso) && Fits(items, l)
    ensures Refusal(items, l, MAX_POST_RECORDS) == Some(RetryBso)
  {
    FittingIsPrefix(items, k, l);
  }

  lemma {:induction false} TotalGrows(items: seq<Json>, k: nat, n: nat)
    requires AllNamed(items) && k <= n <= |items|
    ensures Total(items, k) <= Total(items, n)
  {
    if k < n { TotalGrows(items, k, n - 1); }
  }

  /**
   * The bytes of a deferred record stay in the running total. So the records that fit are the well-formed ones before
   * a single point, and past it every well-formed record is told to retry, however small it is.
   */
  lemma BytesStopForGood(items: seq<Json>, k: nat, l: nat)
    requires AllNamed(items) && k <= l < |items| && Read(items[k].fields).Ok? && !Fits(items, k) && Read(items[l].fields).Ok?
    ensures Refusal(items, l, MAX_POST_RECORDS) == Some(RetryBytes)
  {
    TotalGrows(items, k + 1, l + 1);
  }
}
