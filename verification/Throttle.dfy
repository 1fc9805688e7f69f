/** The failure throttle: a sliding window per account in a bounded, insertion-ordered table. */
module Throttle {
  const MAX_ENTRIES: nat := 4096

  /** A dictionary of deques; `order` is its iteration order. */
  datatype Table = Table(order: seq<string>, deques: map<string, seq<real>>) {
    function Get(key: string): seq<real> {
      if key in deques then deques[key] else []
    }
  }

  // ---- operations on the table ----

  /** What is left of a deque once its expired front is popped. */
  function DropExpired(recent: seq<real>, horizon: real): seq<real> {
    if recent != [] && recent[0] <= horizon then DropExpired(recent[1..], horizon) else recent
  }

  function Without(order: seq<string>, key: string): seq<string> {
    if order == [] then []
    else Without(order[..|order| - 1], key) + if order[|order| - 1] == key then [] else [order[|order| - 1]]
  }

  function Remove(t: Table, key: string): Table {
    Table(Without(t.order, key), t.deques - {key})
  }

  /** `_prune`: an entry with nothing left in its window is deleted. */
  function Prune(t: Table, key: string, horizon: real): Table {
    if key !in t.deques then t
    else
      var recent := DropExpired(t.deques[key], horizon);
      if recent == [] then Remove(t, key) else t.(deques := t.deques[key := recent])
  }

  function PruneEach(t: Table, keys: seq<string>, horizon: real): Table {
    if keys == [] then t else Prune(PruneEach(t, keys[..|keys| - 1], horizon), keys[|keys| - 1], horizon)
  }

  /** The table without the first n keys of its iteration order. */
  function DropFront(t: Table, n: nat): Table
    requires n <= |t.order|
  {
    Table(t.order[n..], map k | k in t.deques && k !in t.order[..n] :: t.deques[k])
  }

  /** Entries go from the front until there is room for one more. */
  function PopOldest(t: Table): Table {
    if |t.order| < MAX_ENTRIES then t else DropFront(t, |t.order| - MAX_ENTRIES + 1)
  }

  /** `_evict`: expired entries first, then the oldest. */
  function Evict(t: Table, horizon: real): Table {
    if |t.order| < MAX_ENTRIES then t else PopOldest(PruneEach(t, t.order, horizon))
  }

  /** The table without the key that is about to be entered at the end: taken out, or room made. */
  function MakeRoom(t: Table, key: string, horizon: real): Table {
    if key in t.deques then Remove(t, key) else Evict(t, horizon)
  }

  function Enter(room: Table, key: string, recent: seq<real>): Table {
    Table(room.order + [key], room.deques[key := recent])
  }

  /** `record_failure`: the key moves to the end of the iteration order. */
  function Record(t: Table, key: string, now: real, window: real): Table {
    Enter(MakeRoom(t, key, now - window), key, DropExpired(t.Get(key), now - window) + [now])
  }

  /** Truncation towards zero. */
  function Trunc(x: real): int {
    if x >= 0.0 then x.Floor else -((-x).Floor)
  }

  /** Seconds a key must wait; its entry has been pruned. */
  function Wait(t: Table, key: string, now: real, limit: int, window: real): int {
    var recent := DropExpired(t.Get(key), now - window);
    if |recent| < limit then 0
    else if recent == [] then 1
    else
      var seconds := Trunc(recent[0] + window - now) + 1;
      if seconds > 1 then seconds else 1
  }

  // ---- the invariant of the table ----

  predicate NoDuplicates(order: seq<string>) {
    forall i, j :: 0 <= i < j < |order| ==> order[i] != order[j]
  }

  predicate Valid(t: Table) {
    NoDuplicates(t.order)
    && (forall i :: 0 <= i < |t.order| ==> t.order[i] in t.deques)
    && (forall k :: k in t.deques ==> k in t.order && t.deques[k] != [])
  }

  lemma {:induction false} WithoutMembers(order: seq<string>, key: string)
    ensures forall k :: k in Without(order, key) <==> k in order && k != key
    ensures NoDuplicates(order) ==> NoDuplicates(Without(order, key))
    ensures |Without(order, key)| <= |order|
  {
    if order != [] {
      var init, last := order[..|order| - 1], order[|order| - 1];
      WithoutMembers(init, key);
      assert order == init + [last];
      if NoDuplicates(order) {
        assert last !in init;
        assert last !in Without(init, key);
      }
    }
  }

  lemma RemoveKeepsValid(t: Table, key: string)
    requires Valid(t)
    ensures Valid(Remove(t, key)) && Remove(t, key).Get(key) == []
    ensures forall k :: k != key ==> Remove(t, key).Get(k) == t.Get(k)
    ensures |Remove(t, key).order| <= |t.order|
  {
    WithoutMembers(t.order, key);
    var r := Remove(t, key);
    forall i | 0 <= i < |r.order| ensures r.order[i] in r.deques { assert r.order[i] in r.order; }
  }

  lemma PruneKeepsValid(t: Table, key: string, horizon: real)
    requires Valid(t)
    ensures Valid(Prune(t, key, horizon)) && |Prune(t, key, horizon).order| <= |t.order|
    ensures forall k :: Prune(t, key, horizon).Get(k) == if k == key then DropExpired(t.Get(key), horizon) else t.Get(k)
  {
    RemoveKeepsValid(t, key);
  }

  lemma {:induction false} DropExpiredTwice(s: seq<real>, h: real, later: real)
    requires h <= later
    ensures DropExpired(DropExpired(s, h), later) == DropExpired(s, later)
  {
    if s != [] && s[0] <= h { DropExpiredTwice(s[1..], h, later); }
  }

  lemma {:induction false} DropExpiredAppend(s: seq<real>, t: real, h: real)
    ensures DropExpired(s + [t], h) == if DropExpired(s, h) == [] then DropExpired([t], h) else DropExpired(s, h) + [t]
  {
    if s == [] {
      assert s + [t] == [t];
    } else if s[0] <= h {
      assert (s + [t])[1..] == s[1..] + [t];
      DropExpiredAppend(s[1..], t, h);
    }
  }

  lemma {:induction false} PruneEachFacts(t: Table, keys: seq<string>, horizon: real)
    requires Valid(t)
    ensures Valid(PruneEach(t, keys, horizon)) && |PruneEach(t, keys, horizon).order| <= |t.order|
    ensures forall k :: PruneEach(t, keys, horizon).Get(k) == if k in keys then DropExpired(t.Get(k), horizon) else t.Get(k)
  {
    if keys != [] {
      var init, last := keys[..|keys| - 1], keys[|keys| - 1];
      assert keys == init + [last];
      PruneEachFacts(t, init, horizon);
      PruneKeepsValid(PruneEach(t, init, horizon), last, horizon);
      forall s: seq<real> { DropExpiredTwice(s, horizon, horizon); }
    }
  }

  lemma DropFrontKeepsValid(t: Table, n: nat)
    requires Valid(t) && n <= |t.order|
    ensures Valid(DropFront(t, n))
    ensures forall k :: k in DropFront(t, n).order ==> k in DropFront(t, n).deques
  {
    var r := DropFront(t, n);
    forall i, j | 0 <= i < n && 0 <= j < |r.order| ensures t.order[..n][i] != r.order[j] {
      assert r.order[j] == t.order[n + j];
    }
    forall k | k in r.deques ensures k in r.order {
      assert t.order == t.order[..n] + r.order;
      assert k in t.order;
    }
  }

  lemma PopOldestFacts(t: Table)
    requires Valid(t)
    ensures Valid(PopOldest(t)) && |PopOldest(t).order| < MAX_ENTRIES
    ensures forall k :: k in PopOldest(t).deques ==> k in t.deques && PopOldest(t).deques[k] == t.deques[k]
  {
    if |t.order| >= MAX_ENTRIES { DropFrontKeepsValid(t, |t.order| - MAX_ENTRIES + 1); }
  }
}
