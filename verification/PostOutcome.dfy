/** What becomes of each item of a POST body, in terms of its JSON fields. */
module PostOutcome {
  import opened Wrappers
  import opened SyncTables
  import opened PostBody

  // ---- one item ----

  predicate Absent(fields: map<string, Json>, name: string) {
    name !in fields || fields[name] == Null
  }

  predicate MayBeSent(name: string) {
    name == "id" || name == "payload" || name == "sortindex" || name == "ttl" || name == "modified" || name == "collection"
  }

  predicate PrintableUpTo(s: string, n: nat)
    requires n <= |s|
  {
    1 <= n <= 64 && forall i :: 0 <= i < n ==> 32 <= s[i] as int <= 126
  }

  /** One to 64 printable ASCII characters; a line feed may come after them. */
  predicate GoodId(s: string) {
    PrintableUpTo(s, |s|) || (s != "" && s[|s| - 1] == '\n' && PrintableUpTo(s, |s| - 1))
  }

  predicate IsText(fields: map<string, Json>, name: string) {
    name in fields && fields[name].Text?
  }

  predicate IsWhole(fields: map<string, Json>, name: string, low: int, high: int) {
    name in fields && fields[name].Whole? && low <= fields[name].number && fields[name].number <= high
  }

  function TextOf(fields: map<string, Json>, name: string): Option<string> {
    if IsText(fields, name) then Some(fields[name].text) else None
  }

  function WholeOf(fields: map<string, Json>, name: string): Option<int> {
    if name in fields && fields[name].Whole? then Some(fields[name].number) else None
  }

  ghost predicate HasUnknown(fields: map<string, Json>) {
    exists name :: name in fields && !MayBeSent(name)
  }

  /** An item that is refused for itself, and the first reason in order. */
  ghost function Malformed(fields: map<string, Json>): Option<Reason> {
    if HasUnknown(fields) then Some(UnknownField)
    else if !(IsText(fields, "id") && GoodId(fields["id"].text)) then Some(InvalidId)
    else if !Absent(fields, "payload") && !IsText(fields, "payload") then Some(InvalidPayload)
    else if !Absent(fields, "sortindex") && !IsWhole(fields, "sortindex", -999_999_999, 999_999_999) then Some(InvalidSortindex)
    else if !Absent(fields, "ttl") && !IsWhole(fields, "ttl", 0, 999_999_999) then Some(InvalidTtl)
    else None
  }

  /** The record an item stands for: the field of each name, and nothing for a field that is absent or null. */
  function RecordOf(fields: map<string, Json>): Posted
    requires IsText(fields, "id")
  {
    Posted(fields["id"].text, TextOf(fields, "payload"), WholeOf(fields, "sortindex"), WholeOf(fields, "ttl"))
  }

  lemma IdIsGood(s: string)
    ensures BsoId(s) <==> GoodId(s)
  {
    if s != "" && s[|s| - 1] == '\n' {
      var body := s[..|s| - 1];
      assert forall i :: 0 <= i < |body| ==> body[i] == s[i];
      assert !PrintableUpTo(s, |s|);
    }
  }

  lemma NamesAreKnown(fields: map<string, Json>)
    ensures fields.Keys <= KNOWN_FIELDS <==> !HasUnknown(fields)
  {
  }

  /** Reading an item gives its record, or the reason it is refused for. */
  lemma ReadIs(fields: map<string, Json>)
    ensures match Malformed(fields)
            case Some(reason) => Read(fields) == Err(reason)
            case None => Read(fields) == Ok(RecordOf(fields))
  {
    NamesAreKnown(fields);
    if IsText(fields, "id") { IdIsGood(fields["id"].text); }
  }

  // ---- a whole body ----

  /** The characters of its payload; an item that is malformed counts for nothing. */
  ghost function Bytes(item: Json): nat
    requires Named(item)
  {
    if Malformed(item.fields).None? && IsText(item.fields, "payload") then |item.fields["payload"].text| else 0
  }

  ghost function BytesOfFirst(items: seq<Json>, n: nat): nat
    requires AllNamed(items) && n <= |items|
  {
    if n == 0 then 0 else BytesOfFirst(items, n - 1) + Bytes(items[n - 1])
  }

  /** Well formed, not too long by itself, and not too much together with everything before it. */
  ghost predicate HasRoom(items: seq<Json>, k: nat)
    requires AllNamed(items) && k < |items|
  {
    Malformed(items[k].fields).None? && Bytes(items[k]) <= 2_621_440 && BytesOfFirst(items, k + 1) <= 2_621_440
  }

  /** The records of some of the items, in their order. */
  function Somes(records: seq<Option<Posted>>): seq<Posted> {
    if records == [] then []
    else
      Somes(records[..|records| - 1])
      + if records[|records| - 1].Some? then [records[|records| - 1].value] else []
  }

  /** Item by item, the record if there is room for it. */
  ghost function Roomy(items: seq<Json>): seq<Option<Posted>>
    requires AllNamed(items)
  {
    seq(|items|, k requires 0 <= k < |items| => if HasRoom(items, k) then Some(RecordOf(items[k].fields)) else None)
  }

  /** Why item k is sent back, or that it is stored: malformed, too many bytes, or a hundred before it. */
  ghost function Outcome(items: seq<Json>, k: nat): Option<Reason>
    requires AllNamed(items) && k < |items|
  {
    if Malformed(items[k].fields).Some? then Malformed(items[k].fields)
    else if !HasRoom(items, k) then Some(RetryBytes)
    else if |Somes(Roomy(items)[..k])| >= 100 then Some(RetryBso)
    else None
  }

  /** Item by item, the record if it is stored. */
  ghost function Stored(items: seq<Json>): seq<Option<Posted>>
    requires AllNamed(items)
  {
    seq(|items|, k requires 0 <= k < |items| => if Outcome(items, k).None? then Some(RecordOf(items[k].fields)) else None)
  }

  lemma {:induction false} TotalIs(items: seq<Json>, n: nat)
    requires AllNamed(items) && n <= |items|
    ensures Total(items, n) == BytesOfFirst(items, n)
  {
    if n > 0 {
      TotalIs(items, n - 1);
      WeightIs(items[n - 1]);
    }
  }

  lemma WeightIs(item: Json)
    requires Named(item)
    ensures Weight(item) == Bytes(item)
  {
    ReadIs(item.fields);
  }

  lemma FitsIs(items: seq<Json>, k: nat)
    requires AllNamed(items) && k < |items|
    ensures Fits(items, k) <==> HasRoom(items, k)
  {
    ReadIs(items[k].fields);
    WeightIs(items[k]);
    TotalIs(items, k + 1);
  }

  /** One more item, in terms of its fields. */
  lemma FittingStep(items: seq<Json>, n: nat)
    requires AllNamed(items) && n < |items|
    ensures Fitting(items, n + 1)
            == Fitting(items, n) + if Roomy(items)[n].Some? then [Roomy(items)[n].value] else []
  {
    FitsIs(items, n);
    ReadIs(items[n].fields);
  }

  lemma SomesStep(records: seq<Option<Posted>>, n: nat)
    requires n < |records|
    ensures Somes(records[..n + 1]) == Somes(records[..n]) + if records[n].Some? then [records[n].value] else []
  {
    assert records[..n + 1][..n] == records[..n];
  }

  lemma {:induction false} FittingIs(items: seq<Json>, n: nat)
    requires AllNamed(items) && n <= |items|
    ensures Fitting(items, n) == Somes(Roomy(items)[..n])
  {
    if n > 0 {
      FittingIs(items, n - 1);
      FittingStep(items, n - 1);
      SomesStep(Roomy(items), n - 1);
    }
  }

  function Capped(ps: seq<Posted>): seq<Posted> {
    if |ps| <= 100 then ps else ps[..100]
  }

  /** Of all there is room for, the first hundred. */
  lemma {:induction false} CapSomes(roomy: seq<Option<Posted>>, stored: seq<Option<Posted>>, n: nat)
    requires n <= |roomy| == |stored|
    requires forall k :: 0 <= k < |roomy| ==>
               stored[k] == if roomy[k].Some? && |Somes(roomy[..k])| < 100 then roomy[k] else None
    ensures Somes(stored[..n]) == Capped(Somes(roomy[..n]))
  {
    if n > 0 {
      CapSomes(roomy, stored, n - 1);
      SomesStep(roomy, n - 1);
      SomesStep(stored, n - 1);
    }
  }

  lemma OutcomeIs(items: seq<Json>, k: nat)
    requires AllNamed(items) && k < |items|
    ensures Refusal(items, k, MAX_POST_RECORDS) == Outcome(items, k)
  {
    ReadIs(items[k].fields);
    FitsIs(items, k);
    FittingIs(items, k);
  }

  lemma KeptIs(items: seq<Json>)
    requires AllNamed(items)
    ensures Kept(items) == Somes(Stored(items))
  {
    var roomy, stored := Roomy(items), Stored(items);
    forall k | 0 <= k < |items|
      ensures stored[k] == if roomy[k].Some? && |Somes(roomy[..k])| < 100 then roomy[k] else None
    {
      StoredAt(items, k);
    }
    CapSomes(roomy, stored, |items|);
    FittingIs(items, |items|);
    assert stored[..|items|] == stored;
  }

  lemma StoredAt(items: seq<Json>, k: nat)
    requires AllNamed(items) && k < |items|
    ensures Stored(items)[k] == if Roomy(items)[k].Some? && |Somes(Roomy(items)[..k])| < 100 then Roomy(items)[k] else None
  {
  }

  /** Of a body that is accepted, as its reading leaves it: the stored records are those of the items whose outcome is to be
      stored, field by field and in order; and an item's id is among the refused ones, with just that reason, otherwise. */
  lemma BodyIsAsStated(items: seq<Json>, body: PostedBsos)
    requires Identified(items) && body.valid == Kept(items) && Refused(items, |items|, MAX_POST_RECORDS, body.invalid)
    ensures body.valid == Somes(Stored(items))
    ensures forall k :: 0 <= k < |items| ==>
              Outcome(items, k) == if IdOf(items[k]) in body.invalid then Some(body.invalid[IdOf(items[k])]) else None
    ensures forall id :: id in body.invalid ==> exists k :: 0 <= k < |items| && IdOf(items[k]) == id
  {
    KeptIs(items);
    forall k: nat | k < |items|
      ensures Outcome(items, k) == if IdOf(items[k]) in body.invalid then Some(body.invalid[IdOf(items[k])]) else None
    {
      OutcomeIs(items, k);
      assert RefusedAt(items, k, MAX_POST_RECORDS, body.invalid);
    }
    assert items[..|items|] == items;
  }

  /** Whether a body is accepted at all: every item is an object with an id in text, and no two ids are the same. */
  lemma AcceptedBodies(items: seq<Json>)
    ensures Identified(items)
            <==> (forall k :: 0 <= k < |items| ==> items[k].Object? && IsText(items[k].fields, "id"))
                 && forall k, l :: 0 <= k < l < |items| ==> items[k].fields["id"] != items[l].fields["id"]
  {
  }
}
