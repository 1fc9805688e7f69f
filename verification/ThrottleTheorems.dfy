/** The throttle against a naive log of everything that happened. */
module ThrottleTheorems {
  import opened Throttle
  import opened Sequences

  /** A check, a failed password, or a correct one, at some reading of a clock that never runs back. */
  datatype Event = Check(key: string, at: real) | Fail(key: string, at: real) | Succeed(key: string, at: real)

  function Apply(t: Table, e: Event, window: real): Table {
    match e
    case Check(key, at) => Prune(t, key, at - window)
    case Fail(key, at) => Record(t, key, at, window)
    case Succeed(key, _) => Remove(t, key)
  }

  function Run(events: seq<Event>, window: real): Table {
    if events == [] then Table([], map[])
    else Apply(Run(events[..|events| - 1], window), events[|events| - 1], window)
  }

  predicate TimesRise(events: seq<Event>) {
    events == []
    || (TimesRise(events[..|events| - 1]) && AllBefore(events[..|events| - 1], events[|events| - 1].at))
  }

  predicate AllBefore(events: seq<Event>, now: real) {
    forall i :: 0 <= i < |events| ==> events[i].at <= now
  }

  // ---- the naive log ----

  /** Every failure of a key since its last success. */
  function Since(events: seq<Event>, key: string): seq<real> {
    if events == [] then []
    else
      var before, e := Since(events[..|events| - 1], key), events[|events| - 1];
      if e.key != key then before
      else
        match e
        case Check(_, _) => before
        case Fail(_, at) => before + [at]
        case Succeed(_, _) => []
  }

  /** How many of these lie inside the window. */
  function CountAfter(times: seq<real>, horizon: real): nat {
    if times == [] then 0
    else CountAfter(times[..|times| - 1], horizon) + if times[|times| - 1] > horizon then 1 else 0
  }

  function KeysOf(events: seq<Event>): set<string> {
    set i | 0 <= i < |events| :: events[i].key
  }

  function LiveKeys(events: seq<Event>, horizon: real): set<string> {
    set k | k in KeysOf(events) && DropExpired(Since(events, k), horizon) != []
  }

  /** Whenever a failure is recorded, the keys with a failure inside the window fit in the table. */
  predicate Fits(events: seq<Event>, window: real) {
    events == []
    || (Fits(events[..|events| - 1], window) && FitsNext(events[..|events| - 1], events[|events| - 1], window))
  }

  predicate FitsNext(events: seq<Event>, e: Event, window: real) {
    e.Fail? ==> |LiveKeys(events, e.at - window) + {e.key}| <= MAX_ENTRIES
  }

  predicate InOrder(times: seq<real>) {
    forall i, j :: 0 <= i < j < |times| ==> times[i] <= times[j]
  }

  lemma {:induction false} SinceSorted(events: seq<Event>, key: string, now: real)
    requires TimesRise(events) && AllBefore(events, now)
    ensures InOrder(Since(events, key)) && forall i :: 0 <= i < |Since(events, key)| ==> Since(events, key)[i] <= now
  {
    if events != [] {
      SinceSorted(events[..|events| - 1], key, events[|events| - 1].at);
    }
  }

  lemma {:induction false} CountDropFirst(times: seq<real>, horizon: real)
    requires times != []
    ensures CountAfter(times, horizon) == CountAfter(times[1..], horizon) + if times[0] > horizon then 1 else 0
  {
    if |times| > 1 {
      CountDropFirst(times[..|times| - 1], horizon);
      assert times[1..][..|times| - 2] == times[..|times| - 1][1..];
    }
  }

  /** On times in order, dropping the expired front is counting the rest. */
  lemma {:induction false} DropIsCount(times: seq<real>, horizon: real)
    requires InOrder(times)
    ensures |DropExpired(times, horizon)| == CountAfter(times, horizon)
  {
    if times != [] {
      CountDropFirst(times, horizon);
      DropIsCount(times[1..], horizon);
      if times[0] > horizon { AllAfter(times[1..], horizon); }
    }
  }

  lemma {:induction false} AllAfter(times: seq<real>, horizon: real)
    requires forall i :: 0 <= i < |times| ==> times[i] > horizon
    ensures CountAfter(times, horizon) == |times|
  {
    if times != [] { AllAfter(times[..|times| - 1], horizon); }
  }

  // ---- refinement ----

  function Shown(t: Table, key: string, horizon: real): seq<real> {
    DropExpired(t.Get(key), horizon)
  }

  function Logged(events: seq<Event>, key: string, horizon: real): seq<real> {
    DropExpired(Since(events, key), horizon)
  }

  /** From some horizon on, the table shows of each key what the log shows. */
  ghost predicate Refines(t: Table, events: seq<Event>, low: real) {
    forall key: string, h: real :: h >= low ==> Shown(t, key, h) == Logged(events, key, h)
  }

  lemma {:induction false} OrderSize(order: seq<string>)
    requires NoDuplicates(order)
    ensures |set k | k in order| == |order|
  {
    if order != [] {
      var init, last := order[..|order| - 1], order[|order| - 1];
      OrderSize(init);
      assert order == init + [last];
      assert (set k | k in order) == (set k | k in init) + {last};
    }
  }

  lemma SubsetSize(a: set<string>, b: set<string>)
    requires a <= b
    ensures |a| <= |b|
  {
    assert b == a + (b - a);
  }

  lemma {:induction false} SinceOfStranger(events: seq<Event>, key: string)
    requires key !in KeysOf(events)
    ensures Since(events, key) == []
  {
    if events != [] {
      var init := events[..|events| - 1];
      assert forall i :: 0 <= i < |init| ==> init[i] == events[i];
      SinceOfStranger(init, key);
    }
  }

  /** If the live keys leave room, eviction loses nothing that is still inside the window. */
  lemma EvictKeepsLive(t: Table, events: seq<Event>, horizon: real)
    requires Valid(t) && Refines(t, events, horizon) && |LiveKeys(events, horizon)| < MAX_ENTRIES
    ensures forall k :: Evict(t, horizon).Get(k) == t.Get(k) || Evict(t, horizon).Get(k) == Shown(t, k, horizon)
  {
    if |t.order| >= MAX_ENTRIES {
      var pruned := PruneEach(t, t.order, horizon);
      PruneEachFacts(t, t.order, horizon);
      var kept := set k | k in pruned.order;
      forall k | k in kept ensures k in LiveKeys(events, horizon) {
        assert pruned.Get(k) != [];
        DropExpiredTwice(t.Get(k), horizon, horizon);
        assert Shown(t, k, horizon) == Logged(events, k, horizon);
        if k !in KeysOf(events) { SinceOfStranger(events, k); }
      }
      OrderSize(pruned.order);
      SubsetSize(kept, LiveKeys(events, horizon));
      PopOldestFacts(pruned);
    }
  }

  lemma EvictKeepsValid(t: Table, horizon: real)
    requires Valid(t)
    ensures Valid(Evict(t, horizon)) && |Evict(t, horizon).order| < MAX_ENTRIES
    ensures forall k :: k in Evict(t, horizon).deques ==> k in t.deques
  {
    if |t.order| >= MAX_ENTRIES {
      PruneEachFacts(t, t.order, horizon);
      var pruned := PruneEach(t, t.order, horizon);
      PopOldestFacts(pruned);
      forall k | k in pruned.deques ensures k in t.deques { assert pruned.Get(k) != []; }
    }
  }

  lemma {:induction false} RemovedIsShorter(order: seq<string>, key: string)
    requires key in order
    ensures |Without(order, key)| < |order|
  {
    WithoutMembers(order[..|order| - 1], key);
    if order[|order| - 1] != key { RemovedIsShorter(order[..|order| - 1], key); }
  }

  lemma RoomFacts(t: Table, key: string, horizon: real)
    requires Valid(t) && |t.order| <= MAX_ENTRIES
    ensures var room := MakeRoom(t, key, horizon);
            Valid(room) && |room.order| < MAX_ENTRIES && key !in room.order && key !in room.deques
  {
    if key in t.deques {
      RemoveKeepsValid(t, key);
      RemovedIsShorter(t.order, key);
      WithoutMembers(t.order, key);
    } else {
      EvictKeepsValid(t, horizon);
    }
  }

  lemma EnterFacts(room: Table, key: string, recent: seq<real>)
    requires Valid(room) && key !in room.order && recent != []
    ensures Valid(Enter(room, key, recent)) && |Enter(room, key, recent).order| == |room.order| + 1
    ensures forall k :: Enter(room, key, recent).Get(k) == if k == key then recent else room.Get(k)
  {
    var u := Enter(room, key, recent);
    forall i, j | 0 <= i < j < |u.order| ensures u.order[i] != u.order[j] {
      assert u.order[i] in room.order;
    }
  }

  lemma RecordKeepsValid(t: Table, key: string, at: real, window: real)
    requires Valid(t) && |t.order| <= MAX_ENTRIES
    ensures Valid(Record(t, key, at, window)) && |Record(t, key, at, window).order| <= MAX_ENTRIES
  {
    RoomFacts(t, key, at - window);
    EnterFacts(MakeRoom(t, key, at - window), key, DropExpired(t.Get(key), at - window) + [at]);
  }

  lemma ApplyKeepsValid(t: Table, e: Event, window: real)
    requires Valid(t) && |t.order| <= MAX_ENTRIES
    ensures Valid(Apply(t, e, window)) && |Apply(t, e, window).order| <= MAX_ENTRIES
  {
    match e
    case Check(key, at) => PruneKeepsValid(t, key, at - window);
    case Fail(key, at) => RecordKeepsValid(t, key, at, window);
    case Succeed(key, _) => RemoveKeepsValid(t, key);
  }

  /** The table stays well formed and never holds more than 4096 keys. */
  lemma {:induction false} RunKeepsValid(events: seq<Event>, window: real)
    ensures Valid(Run(events, window)) && |Run(events, window).order| <= 4096
  {
    if events != [] {
      RunKeepsValid(events[..|events| - 1], window);
      ApplyKeepsValid(Run(events[..|events| - 1], window), events[|events| - 1], window);
    }
  }

  /** What entering a failure leaves to be seen, of the table and of the log alike. */
  lemma AppendShown(a: seq<real>, b: seq<real>, at: real, horizon: real, h: real)
    requires h >= horizon && DropExpired(a, h) == DropExpired(b, h)
    ensures DropExpired(DropExpired(a, horizon) + [at], h) == DropExpired(b + [at], h)
  {
    DropExpiredTwice(a, horizon, h);
    DropExpiredAppend(DropExpired(a, horizon), at, h);
    DropExpiredAppend(b, at, h);
  }

  lemma RoomShown(t: Table, events: seq<Event>, key: string, horizon: real, k: string, h: real)
    requires Valid(t) && |t.order| <= MAX_ENTRIES && Refines(t, events, horizon) && h >= horizon && k != key
    requires |LiveKeys(events, horizon) + {key}| <= MAX_ENTRIES
    ensures Shown(MakeRoom(t, key, horizon), k, h) == Shown(t, k, h)
  {
    DropExpiredTwice(t.Get(k), horizon, h);
    if key in t.deques {
      RemoveKeepsValid(t, key);
    } else {
      assert Shown(t, key, horizon) == Logged(events, key, horizon);
      assert key !in LiveKeys(events, horizon);
      EvictKeepsLive(t, events, horizon);
    }
  }

  lemma RecordRefines(t: Table, events: seq<Event>, key: string, at: real, window: real)
    requires Valid(t) && |t.order| <= MAX_ENTRIES && Refines(t, events, at - window)
    requires |LiveKeys(events, at - window) + {key}| <= MAX_ENTRIES
    ensures Refines(Record(t, key, at, window), events + [Fail(key, at)], at - window)
  {
    var after, u := events + [Fail(key, at)], Record(t, key, at, window);
    forall k: string, h: real | h >= at - window ensures Shown(u, k, h) == Logged(after, k, h) {
      RecordShown(t, events, key, at, at - window, k, h);
    }
  }

  lemma RecordShown(t: Table, events: seq<Event>, key: string, at: real, horizon: real, k: string, h: real)
    requires Valid(t) && |t.order| <= MAX_ENTRIES && Refines(t, events, horizon) && h >= horizon
    requires |LiveKeys(events, horizon) + {key}| <= MAX_ENTRIES
    ensures var u := Enter(MakeRoom(t, key, horizon), key, DropExpired(t.Get(key), horizon) + [at]);
            Shown(u, k, h) == Logged(events + [Fail(key, at)], k, h)
  {
    var after := events + [Fail(key, at)];
    assert after[..|after| - 1] == events;
    RoomFacts(t, key, horizon);
    EnterFacts(MakeRoom(t, key, horizon), key, DropExpired(t.Get(key), horizon) + [at]);
    assert Shown(t, k, h) == Logged(events, k, h);
    if k == key {
      AppendShown(t.Get(k), Since(events, k), at, horizon, h);
    } else {
      RoomShown(t, events, key, horizon, k, h);
    }
  }

  lemma ApplyRefines(t: Table, events: seq<Event>, e: Event, window: real)
    requires Valid(t) && |t.order| <= MAX_ENTRIES && Refines(t, events, e.at - window) && FitsNext(events, e, window)
    ensures Refines(Apply(t, e, window), events + [e], e.at - window)
  {
    match e
    case Fail(key, at) => RecordRefines(t, events, key, at, window);
    case Check(key, at) => CheckRefines(t, events, key, at, window);
    case Succeed(key, at) => SucceedRefines(t, events, key, at, at - window);
  }

  lemma CheckRefines(t: Table, events: seq<Event>, key: string, at: real, window: real)
    requires Valid(t) && Refines(t, events, at - window)
    ensures Refines(Prune(t, key, at - window), events + [Check(key, at)], at - window)
  {
    var after, u := events + [Check(key, at)], Prune(t, key, at - window);
    assert after[..|after| - 1] == events;
    PruneKeepsValid(t, key, at - window);
    forall k: string, h: real | h >= at - window ensures Shown(u, k, h) == Logged(after, k, h) {
      DropExpiredTwice(t.Get(k), at - window, h);
      assert Shown(t, k, h) == Logged(events, k, h);
    }
  }

  lemma SucceedRefines(t: Table, events: seq<Event>, key: string, at: real, horizon: real)
    requires Valid(t) && Refines(t, events, horizon)
    ensures Refines(Remove(t, key), events + [Succeed(key, at)], horizon)
  {
    var after, u := events + [Succeed(key, at)], Remove(t, key);
    assert after[..|after| - 1] == events;
    RemoveKeepsValid(t, key);
    forall k: string, h: real | h >= horizon ensures Shown(u, k, h) == Logged(after, k, h) {
      assert Shown(t, k, h) == Logged(events, k, h);
    }
  }

  lemma {:induction false} RunRefines(events: seq<Event>, window: real, now: real)
    requires TimesRise(events) && AllBefore(events, now) && Fits(events, window)
    ensures Refines(Run(events, window), events, now - window)
  {
    if events != [] {
      var init, last := events[..|events| - 1], events[|events| - 1];
      RunRefines(init, window, last.at);
      RunKeepsValid(init, window);
      InitAndLast(events);
      EventRefines(Run(init, window), init, last, window, now);
    }
  }

  lemma EventRefines(t: Table, events: seq<Event>, e: Event, window: real, now: real)
    requires Valid(t) && |t.order| <= MAX_ENTRIES && Refines(t, events, e.at - window) && FitsNext(events, e, window)
    requires e.at <= now
    ensures Refines(Apply(t, e, window), events + [e], now - window)
  {
    ApplyRefines(t, events, e, window);
  }

  /** Fewer than `limit` failures of the key since its last success lie inside the window. */
  predicate MayRetry(events: seq<Event>, key: string, now: real, limit: int, window: real) {
    CountAfter(Since(events, key), now - window) < limit
  }

  lemma WaitRefines(t: Table, events: seq<Event>, key: string, now: real, limit: int, window: real)
    requires Refines(t, events, now - window) && InOrder(Since(events, key)) && limit > 0
    ensures Wait(t, key, now, limit, window) == 0 <==> MayRetry(events, key, now, limit, window)
  {
    assert Shown(t, key, now - window) == Logged(events, key, now - window);
    DropIsCount(Since(events, key), now - window);
    WaitIsZero(t, key, now, limit, window);
  }

  /** While the live keys fit in the table, the check passes a key exactly if the log lets it try again. */
  lemma RetryAfterIsExact(events: seq<Event>, key: string, now: real, limit: int, window: real)
    requires TimesRise(events) && AllBefore(events, now) && Fits(events, window) && limit > 0
    ensures Wait(Run(events, window), key, now, limit, window) == 0 <==> MayRetry(events, key, now, limit, window)
  {
    RunRefines(events, window, now);
    SinceSorted(events, key, now);
    WaitRefines(Run(events, window), events, key, now, limit, window);
  }

  lemma WaitIsZero(t: Table, key: string, now: real, limit: int, window: real)
    requires limit > 0
    ensures Wait(t, key, now, limit, window) == 0 <==> |Shown(t, key, now - window)| < limit
  {
  }

  // ---- the wait is right ----

  lemma {:induction false} DropShrinks(s: seq<real>, h: real)
    ensures |DropExpired(s, h)| <= |s|
    ensures s != [] && s[0] <= h ==> |DropExpired(s, h)| < |s|
    ensures DropExpired(s, h) != [] ==> DropExpired(s, h)[0] > h
  {
    if s != [] && s[0] <= h { DropShrinks(s[1..], h); }
  }

  /** Each failure was recorded after a check that passed. */
  predicate EachChecked(events: seq<Event>, limit: int, window: real) {
    events == []
    || (var init, e := events[..|events| - 1], events[|events| - 1];
        EachChecked(init, limit, window)
        && (e.Fail? ==> Wait(Run(init, window), e.key, e.at, limit, window) == 0))
  }

  predicate DequesWithin(t: Table, limit: int) {
    forall k :: k in t.deques ==> |t.deques[k]| <= limit
  }

  lemma EvictKeepsWithin(t: Table, horizon: real, limit: int)
    requires Valid(t) && DequesWithin(t, limit)
    ensures DequesWithin(Evict(t, horizon), limit)
  {
    if |t.order| >= MAX_ENTRIES {
      PruneEachFacts(t, t.order, horizon);
      var pruned := PruneEach(t, t.order, horizon);
      forall k | k in pruned.deques ensures |pruned.deques[k]| <= limit {
        assert pruned.Get(k) == pruned.deques[k] != [];
        DropShrinks(t.Get(k), horizon);
      }
      PopOldestFacts(pruned);
    }
  }

  lemma ApplyKeepsWithin(t: Table, e: Event, limit: int, window: real)
    requires Valid(t) && |t.order| <= MAX_ENTRIES && limit > 0 && DequesWithin(t, limit)
    requires e.Fail? ==> Wait(t, e.key, e.at, limit, window) == 0
    ensures DequesWithin(Apply(t, e, window), limit)
  {
    DropShrinks(t.Get(e.key), e.at - window);
    match e
    case Check(key, at) =>
    case Fail(key, at) =>
      WaitIsZero(t, key, at, limit, window);
      EvictKeepsWithin(t, at - window, limit);
    case Succeed(key, _) =>
  }

  /** Then no deque ever holds more than `limit` times. */
  lemma {:induction false} DequesNeverExceedLimit(events: seq<Event>, limit: int, window: real)
    requires limit > 0 && EachChecked(events, limit, window)
    ensures DequesWithin(Run(events, window), limit)
  {
    if events != [] {
      var init := events[..|events| - 1];
      DequesNeverExceedLimit(init, limit, window);
      RunKeepsValid(init, window);
      ApplyKeepsWithin(Run(init, window), events[|events| - 1], limit, window);
    }
  }

  /** The limit-th youngest. */
  function Youngest(s: seq<real>, limit: int): real
    requires 0 < limit <= |s|
  {
    s[|s| - limit]
  }

  lemma {:induction false} DropsBelow(s: seq<real>, h: real, limit: int)
    requires InOrder(s) && 0 < limit <= |s|
    ensures |DropExpired(s, h)| < limit <==> Youngest(s, limit) <= h
  {
    if s[0] <= h {
      if limit < |s| { DropsBelow(s[1..], h, limit); } else { DropShrinks(s, h); }
    }
  }

  lemma {:induction false} DropKeepsInOrder(s: seq<real>, h: real)
    requires InOrder(s)
    ensures InOrder(DropExpired(s, h))
  {
    if s != [] && s[0] <= h { DropKeepsInOrder(s[1..], h); }
  }

  /** Every deque is in time order, with nothing after now. */
  predicate InTime(times: seq<real>, now: real) {
    InOrder(times) && forall i :: 0 <= i < |times| ==> times[i] <= now
  }

  predicate AllInTime(t: Table, now: real) {
    forall k :: k in t.deques ==> InTime(t.deques[k], now)
  }

  lemma {:induction false} DropKeepsInTime(s: seq<real>, h: real, now: real)
    requires InTime(s, now)
    ensures InTime(DropExpired(s, h), now)
  {
    if s != [] && s[0] <= h { DropKeepsInTime(s[1..], h, now); }
  }

  lemma EvictKeepsInTime(t: Table, horizon: real, now: real)
    requires Valid(t) && AllInTime(t, now)
    ensures AllInTime(Evict(t, horizon), now)
  {
    if |t.order| >= MAX_ENTRIES {
      PruneEachFacts(t, t.order, horizon);
      var pruned := PruneEach(t, t.order, horizon);
      forall k | k in pruned.deques ensures InTime(pruned.deques[k], now) {
        assert pruned.Get(k) == pruned.deques[k] != [];
        DropKeepsInTime(t.Get(k), horizon, now);
      }
      PopOldestFacts(pruned);
    }
  }

  lemma ApplyKeepsInTime(t: Table, e: Event, window: real)
    requires Valid(t) && |t.order| <= MAX_ENTRIES && AllInTime(t, e.at)
    ensures AllInTime(Apply(t, e, window), e.at)
  {
    DropKeepsInTime(t.Get(e.key), e.at - window, e.at);
    if e.Fail? { EvictKeepsInTime(t, e.at - window, e.at); }
  }

  lemma {:induction false} RunKeepsInTime(events: seq<Event>, window: real, now: real)
    requires TimesRise(events) && AllBefore(events, now)
    ensures AllInTime(Run(events, window), now)
  {
    if events != [] {
      var init, e := events[..|events| - 1], events[|events| - 1];
      RunKeepsInTime(init, window, e.at);
      RunKeepsValid(init, window);
      ApplyKeepsInTime(Run(init, window), e, window);
    }
  }

  /** A throttled key passes a later check if and only if the limit-th youngest of its failures has left the window. */
  lemma WaitIsExact(t: Table, key: string, now: real, later: real, limit: int, window: real)
    requires Valid(t) && InOrder(t.Get(key)) && limit > 0
    requires Wait(t, key, now, limit, window) > 0
    ensures var recent := Shown(t, key, now - window);
            limit <= |recent|
            && (Wait(Prune(t, key, now - window), key, later, limit, window) == 0
                <==> Youngest(recent, limit) <= later - window)
  {
    WaitIsZero(t, key, now, limit, window);
    WaitIsZero(Prune(t, key, now - window), key, later, limit, window);
    ShownLater(t, key, now - window, later - window, limit);
  }

  lemma ShownLater(t: Table, key: string, horizon: real, later: real, limit: int)
    requires Valid(t) && InOrder(t.Get(key)) && 0 < limit <= |Shown(t, key, horizon)|
    ensures |Shown(Prune(t, key, horizon), key, later)| < limit <==> Youngest(Shown(t, key, horizon), limit) <= later
  {
    PruneKeepsValid(t, key, horizon);
    DropKeepsInOrder(t.Get(key), horizon);
    DropsBelow(Shown(t, key, horizon), later, limit);
  }

  /** What a key is told is the time its oldest failure takes: one whole second less never is enough, and waiting as long
      as told is if and only if the limit-th youngest failure leaves by then too; for exactly `limit` failures it does. */
  lemma WaitIsRight(t: Table, key: string, now: real, later: real, limit: int, window: real)
    requires Valid(t) && InOrder(t.Get(key)) && limit > 0 && now <= later
    requires Wait(t, key, now, limit, window) > 0
    ensures var recent := Shown(t, key, now - window);
            var w, checked := Wait(t, key, now, limit, window), Prune(t, key, now - window);
            limit <= |recent|
            && (later < now + (w - 1) as real ==> Wait(checked, key, later, limit, window) > 0)
            && (Wait(checked, key, now + w as real, limit, window) == 0
                <==> Youngest(recent, limit) <= now + w as real - window)
            && (|recent| == limit && later >= now + w as real ==> Wait(checked, key, later, limit, window) == 0)
  {
    var w := Wait(t, key, now, limit, window);
    WaitIsExact(t, key, now, later, limit, window);
    WaitIsExact(t, key, now, now + w as real, limit, window);
    WaitSpansOldest(t, key, now, limit, window);
    DropKeepsInOrder(t.Get(key), now - window);
  }

  lemma WaitSpansOldest(t: Table, key: string, now: real, limit: int, window: real)
    requires limit > 0 && Wait(t, key, now, limit, window) > 0
    ensures var recent, w := Shown(t, key, now - window), Wait(t, key, now, limit, window);
            recent != [] && now + (w - 1) as real <= recent[0] + window < now + w as real
  {
    DropShrinks(t.Get(key), now - window);
    var x := DropExpired(t.Get(key), now - window)[0] + window - now;
    assert x > 0.0 && Trunc(x) == x.Floor;
  }

  lemma RunOneMore(events: seq<Event>, e: Event, window: real)
    ensures Run(events + [e], window) == Apply(Run(events, window), e, window)
  {
    assert (events + [e])[..|events|] == events;
  }

  const NO_ONE: Table := Table([], map[])
  const TWICE: Table := Table(["k"], map["k" := [1.0, 11.0]])

  /** Two checks that pass at once, and two failures after them. */
  const PASSED: seq<Event> := [] + [Check("k", 0.0)] + [Check("k", 0.0)]
  const RACE: seq<Event> := PASSED + [Fail("k", 1.0)] + [Fail("k", 11.0)]

  lemma PassedLeavesNothing()
    ensures Run(PASSED, 60.0) == NO_ONE
  {
    RunOneMore([], Check("k", 0.0), 60.0);
    RunOneMore([] + [Check("k", 0.0)], Check("k", 0.0), 60.0);
  }

  lemma RaceLeavesTwo()
    ensures Run(RACE, 60.0) == TWICE
  {
    PassedLeavesNothing();
    RunOneMore(PASSED, Fail("k", 1.0), 60.0);
    RunOneMore(PASSED + [Fail("k", 1.0)], Fail("k", 11.0), 60.0);
    var once := Table(["k"], map["k" := [1.0]]);
    assert DropExpired(NO_ONE.Get("k"), 1.0 - 60.0) + [1.0] == [1.0];
    assert MakeRoom(NO_ONE, "k", 1.0 - 60.0) == NO_ONE;
    assert Record(NO_ONE, "k", 1.0, 60.0) == once;
    assert DropExpired(once.Get("k"), 11.0 - 60.0) + [11.0] == [1.0, 11.0];
    assert ["k"][..0] == [] && Without(["k"], "k") == [];
    assert MakeRoom(once, "k", 11.0 - 60.0) == NO_ONE;
    assert Record(once, "k", 11.0, 60.0) == TWICE;
  }

  /** With a limit of one the key is then told to wait 51 seconds, for the older failure, and is refused after them. */
  lemma ToldWaitFallsShort()
    ensures Wait(Run(PASSED, 60.0), "k", 0.0, 1, 60.0) == 0
    ensures Wait(Run(RACE, 60.0), "k", 11.0, 1, 60.0) == 51
    ensures Wait(Prune(Run(RACE, 60.0), "k", 11.0 - 60.0), "k", 11.0 + 51.0, 1, 60.0) > 0
  {
    PassedLeavesNothing();
    RaceLeavesTwo();
    assert DropExpired([1.0, 11.0], 11.0 - 60.0) == [1.0, 11.0];
    assert Prune(TWICE, "k", 11.0 - 60.0) == TWICE;
    assert [1.0, 11.0][1..] == [11.0];
    assert DropExpired([1.0, 11.0], 62.0 - 60.0) == [11.0];
  }

  // ---- who is evicted ----

  function LastOf(deques: map<string, seq<real>>, key: string): real {
    if key in deques && deques[key] != [] then deques[key][|deques[key]| - 1] else 0.0
  }

  /** The iteration order is the order of most recent failures. */
  predicate SortedByLast(order: seq<string>, deques: map<string, seq<real>>) {
    forall i, j :: 0 <= i < j < |order| ==> LastOf(deques, order[i]) <= LastOf(deques, order[j])
  }

  predicate LastBefore(t: Table, now: real) {
    forall k :: k in t.deques ==> LastOf(t.deques, k) <= now
  }

  lemma {:induction false} WithoutSorted(order: seq<string>, key: string, deques: map<string, seq<real>>)
    requires SortedByLast(order, deques)
    ensures SortedByLast(Without(order, key), deques)
  {
    if order != [] {
      var init, last := order[..|order| - 1], order[|order| - 1];
      WithoutSorted(init, key, deques);
      WithoutMembers(init, key);
      forall i | 0 <= i < |Without(init, key)|
        ensures LastOf(deques, Without(init, key)[i]) <= LastOf(deques, last)
      {
        assert Without(init, key)[i] in init;
        var j :| 0 <= j < |init| && init[j] == Without(init, key)[i];
        assert order[j] == init[j];
      }
    }
  }

  lemma SameLastsSorted(order: seq<string>, a: map<string, seq<real>>, b: map<string, seq<real>>)
    requires SortedByLast(order, a) && forall i :: 0 <= i < |order| ==> LastOf(a, order[i]) == LastOf(b, order[i])
    ensures SortedByLast(order, b)
  {
  }

  lemma {:induction false} DropKeepsLast(s: seq<real>, h: real)
    ensures DropExpired(s, h) != [] ==> s != [] && DropExpired(s, h)[|DropExpired(s, h)| - 1] == s[|s| - 1]
  {
    if s != [] && s[0] <= h { DropKeepsLast(s[1..], h); }
  }

  /** Valid, and in order of most recent failure, none after now. */
  predicate Ordered(t: Table, now: real) {
    Valid(t) && SortedByLast(t.order, t.deques) && LastBefore(t, now)
  }

  lemma RemoveKeepsOrdered(t: Table, key: string, now: real)
    requires Ordered(t, now)
    ensures Ordered(Remove(t, key), now)
  {
    RemoveKeepsValid(t, key);
    WithoutSorted(t.order, key, t.deques);
    WithoutKeepsLasts(t, key);
    SameLastsSorted(Remove(t, key).order, t.deques, Remove(t, key).deques);
  }

  lemma WithoutKeepsLasts(t: Table, key: string)
    ensures var r := Remove(t, key);
            (forall i :: 0 <= i < |r.order| ==> LastOf(t.deques, r.order[i]) == LastOf(r.deques, r.order[i]))
            && forall k :: k in r.deques ==> k in t.deques && LastOf(r.deques, k) == LastOf(t.deques, k)
  {
    WithoutMembers(t.order, key);
    forall i | 0 <= i < |Without(t.order, key)| ensures Without(t.order, key)[i] != key {
      assert Without(t.order, key)[i] in Without(t.order, key);
    }
  }

  lemma PruneKeepsOrdered(t: Table, key: string, horizon: real, now: real)
    requires Ordered(t, now)
    ensures Ordered(Prune(t, key, horizon), now)
    ensures forall k :: k in Prune(t, key, horizon).deques ==>
              k in t.deques && LastOf(Prune(t, key, horizon).deques, k) == LastOf(t.deques, k)
  {
    if key in t.deques {
      var recent := DropExpired(t.deques[key], horizon);
      if recent == [] {
        RemoveKeepsOrdered(t, key, now);
        WithoutKeepsLasts(t, key);
      } else {
        PruneKeepsValid(t, key, horizon);
        DropKeepsLast(t.deques[key], horizon);
        SameLastsSorted(t.order, t.deques, t.deques[key := recent]);
      }
    }
  }

  lemma {:induction false} PruneEachKeepsOrdered(t: Table, keys: seq<string>, horizon: real, now: real)
    requires Ordered(t, now)
    ensures Ordered(PruneEach(t, keys, horizon), now)
    ensures forall k :: k in PruneEach(t, keys, horizon).deques ==>
              k in t.deques && LastOf(PruneEach(t, keys, horizon).deques, k) == LastOf(t.deques, k)
  {
    if keys != [] {
      PruneEachKeepsOrdered(t, keys[..|keys| - 1], horizon, now);
      PruneKeepsOrdered(PruneEach(t, keys[..|keys| - 1], horizon), keys[|keys| - 1], horizon, now);
    }
  }

  lemma SuffixSorted(order: seq<string>, a: map<string, seq<real>>, cut: nat, b: map<string, seq<real>>)
    requires cut <= |order| && SortedByLast(order, a)
    requires forall k :: k in order[cut..] ==> LastOf(a, k) == LastOf(b, k)
    ensures SortedByLast(order[cut..], b)
  {
    var s := order[cut..];
    forall i, j | 0 <= i < j < |s| ensures LastOf(b, s[i]) <= LastOf(b, s[j]) {
      assert s[i] == order[cut + i] && s[j] == order[cut + j];
      assert s[i] in s && s[j] in s;
    }
  }

  lemma FrontKeepsLasts(t: Table, n: nat)
    requires Valid(t) && n <= |t.order|
    ensures var p := DropFront(t, n);
            p.order == t.order[n..] && (forall k :: k in p.order ==> k in p.deques)
            && forall k :: k in p.deques ==> k in t.deques && LastOf(t.deques, k) == LastOf(p.deques, k)
  {
    DropFrontKeepsValid(t, n);
  }

  lemma DropFrontKeepsOrdered(t: Table, n: nat, now: real)
    requires Ordered(t, now) && n <= |t.order|
    ensures Ordered(DropFront(t, n), now)
  {
    DropFrontKeepsValid(t, n);
    FrontKeepsLasts(t, n);
    SuffixSorted(t.order, t.deques, n, DropFront(t, n).deques);
  }

  lemma PopOldestKeepsOrdered(t: Table, now: real)
    requires Ordered(t, now)
    ensures Ordered(PopOldest(t), now)
  {
    var n := |t.order| - MAX_ENTRIES + 1;
    if n > 0 { DropFrontKeepsOrdered(t, n, now); }
  }

  lemma EvictKeepsOrdered(t: Table, horizon: real, now: real)
    requires Ordered(t, now)
    ensures Ordered(Evict(t, horizon), now)
  {
    if |t.order| >= MAX_ENTRIES {
      PruneEachKeepsOrdered(t, t.order, horizon, now);
      PopOldestKeepsOrdered(PruneEach(t, t.order, horizon), now);
    }
  }

  lemma LastIsLatest(order: seq<string>, key: string, deques: map<string, seq<real>>)
    requires SortedByLast(order, deques)
    requires forall i :: 0 <= i < |order| ==> LastOf(deques, order[i]) <= LastOf(deques, key)
    ensures SortedByLast(order + [key], deques)
  {
  }

  lemma EnterKeepsOrdered(room: Table, key: string, recent: seq<real>, now: real)
    requires Ordered(room, now) && key !in room.order && key !in room.deques
    requires recent != [] && recent[|recent| - 1] == now
    ensures Ordered(Enter(room, key, recent), now)
  {
    EnterFacts(room, key, recent);
    var u := Enter(room, key, recent);
    assert LastOf(u.deques, key) == now;
    forall i | 0 <= i < |room.order|
      ensures u.order[i] == room.order[i] && LastOf(u.deques, room.order[i]) == LastOf(room.deques, room.order[i]) <= now
    {
      assert room.order[i] in room.order;
    }
    LastIsLatest(room.order, key, u.deques);
  }

  lemma RoomKeepsOrdered(t: Table, key: string, horizon: real, now: real)
    requires Ordered(t, now) && |t.order| <= MAX_ENTRIES
    ensures var room := MakeRoom(t, key, horizon);
            Ordered(room, now) && key !in room.order && key !in room.deques
  {
    RoomFacts(t, key, horizon);
    if key in t.deques { RemoveKeepsOrdered(t, key, now); } else { EvictKeepsOrdered(t, horizon, now); }
  }

  lemma RecordKeepsOrdered(t: Table, key: string, at: real, window: real)
    requires Ordered(t, at) && |t.order| <= MAX_ENTRIES
    ensures Ordered(Record(t, key, at, window), at)
  {
    RoomKeepsOrdered(t, key, at - window, at);
    EnterKeepsOrdered(MakeRoom(t, key, at - window), key, DropExpired(t.Get(key), at - window) + [at], at);
  }

  lemma ApplyKeepsOrdered(t: Table, e: Event, window: real)
    requires Ordered(t, e.at) && |t.order| <= MAX_ENTRIES
    ensures Ordered(Apply(t, e, window), e.at)
  {
    match e
    case Check(key, at) => PruneKeepsOrdered(t, key, at - window, at);
    case Fail(key, at) => RecordKeepsOrdered(t, key, at, window);
    case Succeed(key, at) => RemoveKeepsOrdered(t, key, at);
  }

  lemma OrderedLater(t: Table, now: real, later: real)
    requires Ordered(t, now) && now <= later
    ensures Ordered(t, later)
  {
  }

  lemma {:induction false} RunKeepsOrdered(events: seq<Event>, window: real, now: real)
    requires TimesRise(events) && AllBefore(events, now)
    ensures Ordered(Run(events, window), now)
  {
    if events != [] {
      var init, e := events[..|events| - 1], events[|events| - 1];
      RunKeepsOrdered(init, window, e.at);
      RunKeepsValid(init, window);
      ApplyKeepsOrdered(Run(init, window), e, window);
      OrderedLater(Run(events, window), e.at, now);
    }
  }

  lemma DropsTheFront(t: Table, n: nat, now: real, gone: string, stays: string)
    requires Ordered(t, now) && n <= |t.order|
    requires gone in t.deques && gone !in DropFront(t, n).deques && stays in DropFront(t, n).deques
    ensures stays in t.deques && LastOf(t.deques, gone) <= LastOf(t.deques, stays)
  {
    DropFrontKeepsValid(t, n);
    var i :| 0 <= i < n && t.order[..n][i] == gone;
    var j :| 0 <= j < |t.order| - n && t.order[n..][j] == stays;
    assert LastOf(t.deques, t.order[i]) <= LastOf(t.deques, t.order[n + j]);
  }

  /** A key that still has a failure inside the window is evicted only if no key that stays had its
      most recent failure earlier. */
  lemma EvictionIsOldestFirst(events: seq<Event>, window: real, now: real, gone: string, stays: string)
    requires TimesRise(events) && AllBefore(events, now)
    requires Shown(Run(events, window), gone, now - window) != []
    requires gone !in Evict(Run(events, window), now - window).deques
    requires stays in Evict(Run(events, window), now - window).deques
    ensures var t := Run(events, window);
            stays in t.deques && LastOf(t.deques, gone) <= LastOf(t.deques, stays)
  {
    RunKeepsOrdered(events, window, now);
    OldestGoFirst(Run(events, window), now - window, now, gone, stays);
  }

  lemma OldestGoFirst(t: Table, horizon: real, now: real, gone: string, stays: string)
    requires Ordered(t, now) && Shown(t, gone, horizon) != []
    requires gone !in Evict(t, horizon).deques && stays in Evict(t, horizon).deques
    ensures stays in t.deques && LastOf(t.deques, gone) <= LastOf(t.deques, stays)
  {
    if |t.order| >= MAX_ENTRIES {
      var pruned := PruneEach(t, t.order, horizon);
      PruneEachKeepsOrdered(t, t.order, horizon, now);
      PruneEachFacts(t, t.order, horizon);
      assert gone in t.order;
      assert pruned.Get(gone) == Shown(t, gone, horizon);
      if |pruned.order| >= MAX_ENTRIES {
        DropsTheFront(pruned, |pruned.order| - MAX_ENTRIES + 1, now, gone, stays);
      }
    }
  }
}
