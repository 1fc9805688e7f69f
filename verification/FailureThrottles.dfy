/** The throttle as its methods keep it: a dictionary of deques, updated in place. */
module FailureThrottles {
  import opened Sequences
  import opened Throttle

  /** `_drop_expired`: pops the front of a deque while it lies outside the window. */
  method PopExpired(recent: seq<real>, horizon: real) returns (left: seq<real>)
    ensures left == DropExpired(recent, horizon)
  {
    left := recent;
    while left != [] && left[0] <= horizon
      invariant DropExpired(left, horizon) == DropExpired(recent, horizon)
      decreases |left|
    {
      left := left[1..];
    }
  }

  class FailureThrottle {
    const limit: int
    const window: real
    /** The dictionary of deques, and the order it iterates in. */
    var order: seq<string>
    var deques: map<string, seq<real>>

    constructor (limit: int, window: real)
      ensures this.limit == limit && this.window == window && Contents() == Table([], map[]) && Throttle.Valid(Contents())
    {
      this.limit, this.window, order, deques := limit, window, [], map[];
    }

    function Contents(): Table
      reads this
    {
      Table(order, deques)
    }

    method Delete(key: string)
      modifies this
      ensures Contents() == Remove(old(Contents()), key)
    {
      order, deques := Without(order, key), deques - {key};
    }

    method PruneKey(key: string, now: real)
      modifies this
      ensures Contents() == Prune(old(Contents()), key, now - window)
    {
      if key !in deques { return; }
      var recent := PopExpired(deques[key], now - window);
      if recent == [] {
        Delete(key);
      } else {
        deques := deques[key := recent];
      }
    }

    method PruneAll(now: real)
      requires Throttle.Valid(Contents())
      modifies this
      ensures Contents() == PruneEach(old(Contents()), old(order), now - window)
    {
      ghost var t := Contents();
      var keys, i := order, 0;
      while i < |keys|
        invariant 0 <= i <= |keys| && Contents() == PruneEach(t, keys[..i], now - window)
      {
        assert keys[..i + 1][..i] == keys[..i];
        PruneKey(keys[i], now);
        i := i + 1;
      }
      assert keys[..i] == keys;
    }

    /** The entry first in iteration order goes. */
    method PopFirst()
      requires order != []
      modifies this
      ensures Contents() == WithoutFirst(old(Contents()))
    {
      var oldest := order[0];
      order, deques := order[1..], deques - {oldest};
    }

    method PopWhileFull()
      requires Throttle.Valid(Contents())
      modifies this
      ensures Contents() == PopOldest(old(Contents()))
    {
      ghost var t, n := Contents(), 0;
      DropNone(t);
      while |order| >= MAX_ENTRIES
        invariant 0 <= n <= |t.order| && Contents() == DropFront(t, n)
        invariant n == 0 || n <= |t.order| - MAX_ENTRIES + 1
        decreases |order|
      {
        DropOneMore(t, n);
        PopFirst();
        n := n + 1;
      }
      JustEnough(t, n);
    }

    /** Makes room for a new key: expired entries first, then the oldest. */
    method EvictOld(now: real)
      requires Throttle.Valid(Contents())
      modifies this
      ensures Contents() == Evict(old(Contents()), now - window)
    {
      if |order| < MAX_ENTRIES { return; }
      PruneEachFacts(Contents(), order, now - window);
      PruneAll(now);
      PopWhileFull();
    }

    /** Seconds this key must wait, or 0 if it may try again now. */
    method RetryAfter(key: string, now: real) returns (seconds: int)
      modifies this
      ensures limit <= 0 ==> seconds == 0 && Contents() == old(Contents())
      ensures limit > 0 ==> seconds == Wait(old(Contents()), key, now, limit, window)
                            && Contents() == Prune(old(Contents()), key, now - window)
    {
      if limit <= 0 { return 0; }
      PruneKey(key, now);
      if key !in deques || |deques[key]| < limit {
        return 0;
      }
      var recent := deques[key];
      seconds := Trunc(recent[0] + window - now) + 1;
      if seconds < 1 { seconds := 1; }
    }

    method RecordFailure(key: string, now: real)
      requires Throttle.Valid(Contents())
      modifies this
      ensures Contents() == if limit > 0 then Record(old(Contents()), key, now, window) else old(Contents())
    {
      if limit <= 0 { return; }
      var recent: seq<real> := [];
      if key !in deques {
        EvictOld(now);
      } else {
        recent := deques[key];
        Delete(key);
      }
      recent := PopExpired(recent, now - window);
      order, deques := order + [key], deques[key := recent + [now]];
    }

    method RecordSuccess(key: string)
      modifies this
      ensures limit > 0 ==> Contents() == Remove(old(Contents()), key)
      ensures limit <= 0 ==> Contents() == old(Contents())
    {
      if limit <= 0 { return; }
      Delete(key);
    }
  }

  function WithoutFirst(t: Table): Table
    requires t.order != []
  {
    Table(t.order[1..], t.deques - {t.order[0]})
  }

  lemma DropNone(t: Table)
    ensures DropFront(t, 0) == t
  {
    assert t.order[0..] == t.order;
  }

  lemma JustEnough(t: Table, n: nat)
    requires n <= |t.order| && |t.order| - n < MAX_ENTRIES && (n == 0 || n <= |t.order| - MAX_ENTRIES + 1)
    ensures DropFront(t, n) == PopOldest(t)
  {
    DropNone(t);
  }

  lemma DropOneMore(t: Table, n: nat)
    requires Throttle.Valid(t) && n < |t.order|
    ensures DropFront(t, n).order != [] && DropFront(t, n + 1) == WithoutFirst(DropFront(t, n))
  {
    OneMore(t.order, n);
  }
}
