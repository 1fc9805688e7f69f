/** What every run of token requests keeps, wherever requests are cut short. */
module TokenserverTheorems {
  import opened Wrappers
  import opened Tokenserver

  // ---- how statements change the table ----

  /** Identity and key of every row stay; rows are only added at the end. */
  predicate KeepsRows(rows: seq<SyncUser>, after: seq<SyncUser>) {
    |rows| <= |after|
    && forall i :: 0 <= i < |rows| ==>
         after[i].uid == rows[i].uid && after[i].clientState == rows[i].clientState
         && after[i].createdAt == rows[i].createdAt
         && (rows[i].replacedAt.Some? ==> after[i].replacedAt == rows[i].replacedAt)
  }

  lemma {:induction false} ApplyAllConcat(rows: seq<SyncUser>, a: seq<Statement>, b: seq<Statement>)
    ensures ApplyAll(rows, a + b) == ApplyAll(ApplyAll(rows, a), b)
  {
    if b == [] {
      assert a + b == a;
    } else {
      assert (a + b)[..|a + b| - 1] == a + b[..|b| - 1];
      ApplyAllConcat(rows, a, b[..|b| - 1]);
    }
  }

  lemma {:induction false} RepairsOnlyReplace(rows: seq<SyncUser>, current: SyncUser)
    ensures forall s :: s in Repairs(rows, current) ==> s.Replace? && s.at == current.createdAt && s.uid != current.uid
    ensures forall u :: u in rows && u.uid != current.uid && u.replacedAt.None? ==>
              Replace(u.uid, current.createdAt) in Repairs(rows, current)
  {
    if rows != [] {
      RepairsOnlyReplace(rows[..|rows| - 1], current);
      assert rows == rows[..|rows| - 1] + [rows[|rows| - 1]];
    }
  }

  /** Rows retired by some of the replacements: those whose uid is named, if they were not already. */
  predicate RetiredBy(rows: seq<SyncUser>, after: seq<SyncUser>, ss: seq<Statement>, at: int) {
    |after| == |rows|
    && forall i :: 0 <= i < |rows| ==>
         after[i] == if Replace(rows[i].uid, at) in ss then Retire(rows[i], at) else rows[i]
  }

  lemma {:induction false} ReplacesRetire(rows: seq<SyncUser>, ss: seq<Statement>, at: int)
    requires forall s :: s in ss ==> s.Replace? && s.at == at
    ensures RetiredBy(rows, ApplyAll(rows, ss), ss, at)
  {
    if ss != [] {
      var init, last := ss[..|ss| - 1], ss[|ss| - 1];
      assert ss == init + [last];
      assert last in ss;
      assert forall s :: s in init ==> s in ss;
      ReplacesRetire(rows, init, at);
    }
  }

  // ---- distinct client states ----

  predicate UidsClimb(rows: seq<SyncUser>) {
    forall i, j :: 0 <= i < j < |rows| ==> rows[i].uid < rows[j].uid
  }

  predicate StatesDistinct(rows: seq<SyncUser>) {
    forall i, j :: 0 <= i < j < |rows| ==> rows[i].clientState != rows[j].clientState
  }

  /** What one request, cut short anywhere, may have done: retired rows other than the current one;
      then possibly moved the current row forward, or added one with a new client state. */
  ghost predicate StepEffect(rows: seq<SyncUser>, after: seq<SyncUser>, e: Event) {
    KeepsRows(rows, after)
    && (|after| == |rows|
        || (|after| == |rows| + 1
            && after[|rows|].uid == e.uid && after[|rows|].createdAt == e.now && after[|rows|].replacedAt.None?
            && forall i :: 0 <= i < |rows| ==> rows[i].clientState != after[|rows|].clientState))
  }

  lemma FirstRequestPasses(auth: AuthData, now: int, uid: int)
    ensures Validate(auth, FirstUser(auth, now, uid), {}).None?
    ensures forall next: int :: Advance(auth, FirstUser(auth, now, uid), now, next) == []
  {
  }

  lemma AcceptedStateIsNew(rows: seq<SyncUser>, auth: AuthData)
    requires rows != []
    requires var user := rows[CurrentIndex(rows)];
             Validate(auth, user, Retired(rows, user)).None? && auth.clientState != user.clientState
    ensures forall i :: 0 <= i < |rows| ==> rows[i].clientState != auth.clientState
  {
    var user := rows[CurrentIndex(rows)];
    forall i | 0 <= i < |rows| ensures rows[i].clientState != auth.clientState {
      if rows[i].clientState != user.clientState { assert rows[i].clientState in Retired(rows, user); }
    }
  }

  function RequestRepairs(rows: seq<SyncUser>): seq<Statement>
    requires rows != []
  {
    Repairs(QueryOrder(rows), rows[CurrentIndex(rows)])
  }

  /** What an accepted request does after the repairs; a refused one does nothing. */
  function RequestAdvance(rows: seq<SyncUser>, e: Event): seq<Statement>
    requires rows != []
  {
    var user := rows[CurrentIndex(rows)];
    if Validate(e.auth, user, Retired(rows, user)).None? then Advance(e.auth, user, e.now, e.uid) else []
  }

  lemma PrefixSplits(a: seq<Statement>, b: seq<Statement>, n: nat)
    ensures Prefix(a + b, n) == Prefix(a, n) + if n <= |a| then [] else Prefix(b, n - |a|)
  {
  }

  /** The statements a request executed: some of its repairs, then, if it finished those, some of
      what it does after them. */
  lemma StepSplits(rows: seq<SyncUser>, e: Event) returns (repairs: seq<Statement>, rest: seq<Statement>)
    requires rows != []
    ensures repairs <= RequestRepairs(rows) && rest <= RequestAdvance(rows, e)
    ensures Step(rows, e) == ApplyAll(ApplyAll(rows, repairs), rest)
  {
    var all, advance := RequestRepairs(rows), RequestAdvance(rows, e);
    assert PlanRequest(rows, e.auth, e.accountExists, e.now, e.uid).statements == all + advance;
    repairs, rest := Prefix(all, e.executed), if e.executed <= |all| then [] else Prefix(advance, e.executed - |all|);
    PrefixSplits(all, advance, e.executed);
    ApplyAllConcat(rows, repairs, rest);
  }

  lemma FullStep(rows: seq<SyncUser>, e: Event)
    requires rows != [] && e.executed >= |PlanRequest(rows, e.auth, e.accountExists, e.now, e.uid).statements|
    ensures Step(rows, e) == ApplyAll(ApplyAll(rows, RequestRepairs(rows)), RequestAdvance(rows, e))
  {
    var all, advance := RequestRepairs(rows), RequestAdvance(rows, e);
    assert PlanRequest(rows, e.auth, e.accountExists, e.now, e.uid).statements == all + advance;
    ApplyAllConcat(rows, all, advance);
  }

  lemma RepairsKeepRows(rows: seq<SyncUser>, repairs: seq<Statement>)
    requires rows != [] && repairs <= RequestRepairs(rows)
    ensures var current := rows[CurrentIndex(rows)];
            RetiredBy(rows, ApplyAll(rows, repairs), repairs, current.createdAt)
            && KeepsRows(rows, ApplyAll(rows, repairs))
            && forall i :: 0 <= i < |rows| && rows[i].uid == current.uid ==> ApplyAll(rows, repairs)[i] == rows[i]
  {
    var current := rows[CurrentIndex(rows)];
    RepairsOnlyReplace(QueryOrder(rows), current);
    forall s | s in repairs ensures s in RequestRepairs(rows) {
    }
    ReplacesRetire(rows, repairs, current.createdAt);
  }

  lemma ApplyTwo(rows: seq<SyncUser>, ss: seq<Statement>)
    requires |ss| <= 2
    ensures ApplyAll(rows, ss) == if ss == [] then rows
                                  else if |ss| == 1 then ApplyTo(rows, ss[0])
                                  else ApplyTo(ApplyTo(rows, ss[0]), ss[1])
  {
    if |ss| > 0 { assert ss[..|ss| - 1] == if |ss| == 1 then [] else [ss[0]]; }
    if |ss| == 2 { assert [ss[0]][..0] == []; }
  }

  lemma AdvanceIsLocal(rows: seq<SyncUser>, repaired: seq<SyncUser>, e: Event, rest: seq<Statement>)
    requires rows != [] && UidsAbove(rows, e.uid) && KeepsRows(rows, repaired) && |repaired| == |rows|
    requires rest <= RequestAdvance(rows, e)
    ensures StepEffect(rows, ApplyAll(repaired, rest), e)
  {
    ApplyTwo(repaired, rest);
    if rest != [] && e.auth.clientState != rows[CurrentIndex(rows)].clientState {
      AcceptedStateIsNew(rows, e.auth);
      RotationIsLocal(rows, repaired, e, rest[0].user);
    }
  }

  /** Inserting a row with a new state, and retiring the others or not. */
  lemma RotationIsLocal(rows: seq<SyncUser>, repaired: seq<SyncUser>, e: Event, user: SyncUser)
    requires KeepsRows(rows, repaired) && |repaired| == |rows| && UidsAbove(rows, e.uid)
    requires user.uid == e.uid && user.createdAt == e.now && user.replacedAt.None?
    requires forall i :: 0 <= i < |rows| ==> rows[i].clientState != user.clientState
    ensures StepEffect(rows, ApplyTo(repaired, Insert(user)), e)
    ensures StepEffect(rows, ApplyTo(ApplyTo(repaired, Insert(user)), ReplaceOthers(e.uid, e.now)), e)
  {
  }

  lemma StepIsLocal(rows: seq<SyncUser>, e: Event)
    requires UidsAbove(rows, e.uid)
    ensures StepEffect(rows, Step(rows, e), e)
  {
    if rows == [] {
      FirstRequestPasses(e.auth, e.now, e.uid);
      var statements := PlanRequest(rows, e.auth, e.accountExists, e.now, e.uid).statements;
      assert statements == [] || statements == [Insert(FirstUser(e.auth, e.now, e.uid))];
      ApplyTwo(rows, Prefix(statements, e.executed));
    } else {
      var repairs, rest := StepSplits(rows, e);
      RepairsKeepRows(rows, repairs);
      AdvanceIsLocal(rows, ApplyAll(rows, repairs), e, rest);
    }
  }

  // ---- runs ----

  /** AUTOINCREMENT, over a run: whatever uid a request would allocate is above those of the rows it meets. Rows are never
      deleted, and a request that inserts nothing leaves the uid to the next one. */
  predicate UidsAreNew(rows: seq<SyncUser>, events: seq<Event>) {
    events == []
    || (var init, last := events[..|events| - 1], events[|events| - 1];
        UidsAreNew(rows, init) && UidsAbove(Run(rows, init), last.uid))
  }

  /** No two rows hold the same client state, and uids follow the order of insertion. */
  predicate Distinct(rows: seq<SyncUser>) {
    UidsClimb(rows) && StatesDistinct(rows)
  }

  lemma StepKeepsDistinct(rows: seq<SyncUser>, e: Event)
    requires Distinct(rows) && UidsAbove(rows, e.uid)
    ensures Distinct(Step(rows, e)) && UidsAbove(Step(rows, e), e.uid + 1)
  {
    StepIsLocal(rows, e);
    EffectKeepsStates(rows, Step(rows, e), e);
    EffectKeepsUids(rows, Step(rows, e), e);
  }

  lemma EffectKeepsStates(rows: seq<SyncUser>, after: seq<SyncUser>, e: Event)
    requires StatesDistinct(rows) && StepEffect(rows, after, e)
    ensures StatesDistinct(after)
  {
  }

  lemma EffectKeepsUids(rows: seq<SyncUser>, after: seq<SyncUser>, e: Event)
    requires UidsClimb(rows) && UidsAbove(rows, e.uid) && StepEffect(rows, after, e)
    ensures UidsClimb(after) && UidsAbove(after, e.uid + 1)
  {
  }

  /** Over every run, wherever requests are cut short and whatever the clock says. */
  lemma {:induction false} RunKeepsDistinct(rows: seq<SyncUser>, events: seq<Event>)
    requires Distinct(rows) && UidsAreNew(rows, events)
    ensures Distinct(Run(rows, events))
  {
    if events != [] {
      var init, last := events[..|events| - 1], events[|events| - 1];
      RunKeepsDistinct(rows, init);
      StepKeepsDistinct(Run(rows, init), last);
    }
  }

  // ---- which row is current ----

  function Current(rows: seq<SyncUser>): SyncUser
    requires rows != []
  {
    rows[CurrentIndex(rows)]
  }

  /** What the query order looks at. */
  predicate SameOrder(a: SyncUser, b: SyncUser) {
    a.uid == b.uid && a.createdAt == b.createdAt && a.generation == b.generation
  }

  /** The current row comes before every other. */
  lemma {:induction false} CurrentPrecedes(rows: seq<SyncUser>, i: nat)
    requires rows != [] && UidsClimb(rows) && i < |rows| && i != CurrentIndex(rows)
    ensures Precedes(Current(rows), rows[i])
  {
    if |rows| > 1 {
      var init := rows[..|rows| - 1];
      assert forall j :: 0 <= j < |init| ==> init[j] == rows[j];
      assert rows[|rows| - 1].uid > init[CurrentIndex(init)].uid;
      if i < |init| && i != CurrentIndex(init) { CurrentPrecedes(init, i); }
    }
  }

  /** And only the current row does. */
  lemma FirstIsCurrent(rows: seq<SyncUser>, i: nat)
    requires UidsClimb(rows) && i < |rows|
    requires forall j :: 0 <= j < |rows| && j != i ==> Precedes(rows[i], rows[j])
    ensures CurrentIndex(rows) == i
  {
    if CurrentIndex(rows) != i { CurrentPrecedes(rows, i); }
  }

  /** Retiring rows, or moving the current one forward, leaves the current row where it is. */
  lemma StaysCurrent(rows: seq<SyncUser>, after: seq<SyncUser>)
    requires rows != [] && UidsClimb(rows) && |after| == |rows|
    requires forall i :: 0 <= i < |rows| && i != CurrentIndex(rows) ==> SameOrder(rows[i], after[i])
    requires SameOrder(Current(rows), after[CurrentIndex(rows)].(generation := Current(rows).generation))
    requires Current(rows).generation <= after[CurrentIndex(rows)].generation
    ensures CurrentIndex(after) == CurrentIndex(rows)
  {
    var k := CurrentIndex(rows);
    forall i, j | 0 <= i < j < |after| ensures after[i].uid < after[j].uid {
      assert after[i].uid == rows[i].uid && after[j].uid == rows[j].uid;
    }
    forall i | 0 <= i < |after| && i != k ensures Precedes(after[k], after[i]) { CurrentPrecedes(rows, i); }
    FirstIsCurrent(after, k);
  }

  predicate SameButRetired(rows: seq<SyncUser>, after: seq<SyncUser>) {
    |after| == |rows| && forall i :: 0 <= i < |rows| ==> after[i].(replacedAt := None) == rows[i].(replacedAt := None)
  }

  lemma RetiringKeepsCurrent(rows: seq<SyncUser>, after: seq<SyncUser>)
    requires rows != [] && UidsClimb(rows) && SameButRetired(rows, after)
    ensures CurrentIndex(after) == CurrentIndex(rows)
  {
    forall i | 0 <= i < |rows| ensures SameOrder(rows[i], after[i]) {
      assert after[i].(replacedAt := None) == rows[i].(replacedAt := None);
    }
    StaysCurrent(rows, after);
  }

  /** Neither value moves back, and a reported keysChangedAt never disappears. */
  predicate NotBehind(user: SyncUser, generation: int, keys: Option<int>) {
    user.generation <= generation
    && (user.keysChangedAt.Some? ==> keys.Some? && user.keysChangedAt.value <= keys.value)
  }

  lemma AcceptedIsNotBehind(auth: AuthData, user: SyncUser, retired: set<string>)
    requires Validate(auth, user, retired).None?
    ensures NotBehind(user, NextGeneration(auth, user), NextKeysChangedAt(auth, user))
  {
  }

  predicate Accepts(rows: seq<SyncUser>, auth: AuthData)
    requires rows != []
  {
    Validate(auth, Current(rows), Retired(rows, Current(rows))).None?
  }

  /** An accepted request for a new client state. */
  predicate Rotates(rows: seq<SyncUser>, auth: AuthData)
    requires rows != []
  {
    Accepts(rows, auth) && auth.clientState != Current(rows).clientState
  }

  /** The row it adds. */
  function Replacement(rows: seq<SyncUser>, auth: AuthData, now: int, uid: int): SyncUser
    requires rows != []
  {
    var user := Current(rows);
    SyncUser(uid, auth.clientState, NextGeneration(auth, user), NextKeysChangedAt(auth, user), now, None)
  }

  /** Whether that row sorts first: its generation rose, or the clock has not fallen behind. */
  predicate TakesOver(rows: seq<SyncUser>, auth: AuthData, now: int)
    requires rows != []
  {
    NextGeneration(auth, Current(rows)) > Current(rows).generation || now >= Current(rows).createdAt
  }

  /** The row a rotation adds becomes the current one exactly if its generation rose or the clock has
      not fallen behind the creation of the row it replaces. */
  lemma RotationTakesOver(rows: seq<SyncUser>, auth: AuthData, now: int, uid: int)
    requires rows != [] && UidsAbove(rows, uid) && Rotates(rows, auth)
    ensures CurrentIndex(rows + [Replacement(rows, auth, now, uid)])
            == if TakesOver(rows, auth, now) then |rows| else CurrentIndex(rows)
    ensures auth.generation.Some? ==> TakesOver(rows, auth, now)
  {
    assert (rows + [Replacement(rows, auth, now, uid)])[..|rows|] == rows;
    AcceptedIsNotBehind(auth, Current(rows), Retired(rows, Current(rows)));
  }

  // ---- one request, in terms of the current row ----

  /** The table after some or all of the repairs. */
  lemma RepairsKeepOrder(rows: seq<SyncUser>, repairs: seq<Statement>)
    requires rows != [] && UidsClimb(rows) && repairs <= RequestRepairs(rows)
    ensures var repaired := ApplyAll(rows, repairs);
            SameButRetired(rows, repaired) && CurrentIndex(repaired) == CurrentIndex(rows)
            && Current(repaired) == Current(rows)
  {
    RepairsKeepRows(rows, repairs);
    var repaired := ApplyAll(rows, repairs);
    forall i | 0 <= i < |rows| ensures repaired[i].(replacedAt := None) == rows[i].(replacedAt := None) {
      assert repaired[i] == Retire(rows[i], Current(rows).createdAt) || repaired[i] == rows[i];
    }
    RetiringKeepsCurrent(rows, repaired);
  }

  /** What a request leaves in the order, cut short anywhere: rows keep their place and their data, retirement aside, but
      for the current row, which may have moved forward; or there is one new row, at the end. */
  predicate Moved(rows: seq<SyncUser>, after: seq<SyncUser>, e: Event)
    requires rows != []
  {
    && (forall i :: 0 <= i < |rows| && i < |after| && i != CurrentIndex(rows) ==>
          after[i].(replacedAt := None) == rows[i].(replacedAt := None))
    && (|after| == |rows| ==> after != [] && CurrentIndex(after) == CurrentIndex(rows)
                              && (SameValues(Current(after), Current(rows)) || Advanced(rows, Current(after), e.auth)))
    && (|after| != |rows| ==> |after| == |rows| + 1 && Rotates(rows, e.auth)
                              && after[CurrentIndex(rows)].(replacedAt := None) == Current(rows).(replacedAt := None)
                              && after[|rows|] == Replacement(rows, e.auth, e.now, e.uid)
                              && CurrentIndex(after) == if TakesOver(rows, e.auth, e.now) then |rows| else CurrentIndex(rows))
  }

  predicate SameValues(a: SyncUser, b: SyncUser) {
    a.generation == b.generation && a.keysChangedAt == b.keysChangedAt && a.clientState == b.clientState
  }

  predicate Advanced(rows: seq<SyncUser>, user: SyncUser, auth: AuthData)
    requires rows != []
  {
    Accepts(rows, auth) && user.generation == NextGeneration(auth, Current(rows))
    && user.keysChangedAt == NextKeysChangedAt(auth, Current(rows))
    && user.clientState == auth.clientState == Current(rows).clientState
  }

  lemma RotationRetires(rows: seq<SyncUser>, repaired: seq<SyncUser>, e: Event, rest: seq<Statement>)
    requires rows != [] && UidsAbove(rows, e.uid) && Rotates(rows, e.auth) && SameButRetired(rows, repaired)
    requires rest != [] && rest <= Advance(e.auth, Current(rows), e.now, e.uid)
    ensures var row := Replacement(rows, e.auth, e.now, e.uid);
            SameButRetired(rows + [row], ApplyAll(repaired, rest)) && ApplyAll(repaired, rest)[|rows|] == row
  {
    ApplyTwo(repaired, rest);
    var row := Replacement(rows, e.auth, e.now, e.uid);
    forall i | 0 <= i < |rows|
      ensures ApplyAll(repaired, rest)[i].(replacedAt := None) == rows[i].(replacedAt := None)
    {
      assert repaired[i].(replacedAt := None) == rows[i].(replacedAt := None);
    }
  }

  lemma RotationMoves(rows: seq<SyncUser>, repaired: seq<SyncUser>, e: Event, rest: seq<Statement>)
    requires rows != [] && UidsClimb(rows) && UidsAbove(rows, e.uid) && Rotates(rows, e.auth)
    requires SameButRetired(rows, repaired) && rest != [] && rest <= Advance(e.auth, Current(rows), e.now, e.uid)
    ensures Moved(rows, ApplyAll(repaired, rest), e)
  {
    var plain, after := rows + [Replacement(rows, e.auth, e.now, e.uid)], ApplyAll(repaired, rest);
    RotationRetires(rows, repaired, e, rest);
    RotationTakesOver(rows, e.auth, e.now, e.uid);
    RetiringKeepsCurrent(plain, after);
    forall i | 0 <= i < |rows| ensures after[i].(replacedAt := None) == rows[i].(replacedAt := None) {
      assert plain[i] == rows[i];
    }
  }

  lemma UpdateMoves(rows: seq<SyncUser>, repaired: seq<SyncUser>, e: Event, rest: seq<Statement>)
    requires rows != [] && UidsClimb(rows) && Accepts(rows, e.auth) && !Rotates(rows, e.auth)
    requires SameButRetired(rows, repaired) && rest <= Advance(e.auth, Current(rows), e.now, e.uid)
    ensures Moved(rows, ApplyAll(repaired, rest), e)
  {
    ApplyTwo(repaired, rest);
    var after, k := ApplyAll(repaired, rest), CurrentIndex(rows);
    AcceptedIsNotBehind(e.auth, Current(rows), Retired(rows, Current(rows)));
    assert repaired[k].(replacedAt := None) == rows[k].(replacedAt := None);
    forall i | 0 <= i < |rows| && i != k ensures after[i].(replacedAt := None) == rows[i].(replacedAt := None) {
      assert repaired[i].(replacedAt := None) == rows[i].(replacedAt := None);
      assert rows[i].uid != rows[k].uid;
    }
    forall i | 0 <= i < |rows| && i != k ensures SameOrder(rows[i], after[i]) {
      assert after[i].(replacedAt := None) == rows[i].(replacedAt := None);
    }
    StaysCurrent(rows, after);
  }

  lemma StepMoves(rows: seq<SyncUser>, e: Event)
    requires rows != [] && UidsClimb(rows) && UidsAbove(rows, e.uid)
    ensures Moved(rows, Step(rows, e), e)
  {
    var repairs, rest := StepSplits(rows, e);
    RepairsKeepOrder(rows, repairs);
    var repaired := ApplyAll(rows, repairs);
    if rest == [] {
      assert ApplyAll(repaired, rest) == repaired;
    } else if Rotates(rows, e.auth) {
      RotationMoves(rows, repaired, e, rest);
    } else {
      UpdateMoves(rows, repaired, e, rest);
    }
  }

  // ---- runs, whatever the clock says ----

  /** Client states stay where they are, a row that is not current never becomes current, and the current row is not
      behind the one before. */
  predicate Continues(rows: seq<SyncUser>, after: seq<SyncUser>) {
    |rows| <= |after|
    && (forall i :: 0 <= i < |rows| ==> after[i].clientState == rows[i].clientState)
    && (rows != [] ==>
          (CurrentIndex(after) == CurrentIndex(rows) || CurrentIndex(after) >= |rows|)
          && NotBehind(Current(rows), Current(after).generation, Current(after).keysChangedAt))
  }

  lemma ContinuesTransitive(a: seq<SyncUser>, b: seq<SyncUser>, c: seq<SyncUser>)
    requires Continues(a, b) && Continues(b, c)
    ensures Continues(a, c)
  {
  }

  lemma StepContinues(rows: seq<SyncUser>, e: Event)
    requires UidsClimb(rows) && UidsAbove(rows, e.uid)
    ensures Continues(rows, Step(rows, e))
  {
    StepIsLocal(rows, e);
    if rows != [] {
      StepMoves(rows, e);
      if Accepts(rows, e.auth) { AcceptedIsNotBehind(e.auth, Current(rows), Retired(rows, Current(rows))); }
    }
  }

  lemma {:induction false} RunContinues(rows: seq<SyncUser>, events: seq<Event>)
    requires Distinct(rows) && UidsAreNew(rows, events)
    ensures Continues(rows, Run(rows, events))
  {
    if events != [] {
      var init, last := events[..|events| - 1], events[|events| - 1];
      RunContinues(rows, init);
      RunKeepsDistinct(rows, init);
      StepContinues(Run(rows, init), last);
      ContinuesTransitive(rows, Run(rows, init), Run(rows, events));
    }
  }

  /** Along every run the current row's generation and keysChangedAt never move back, and a reported
      keysChangedAt never becomes absent. */
  lemma CurrentNeverMovesBack(rows: seq<SyncUser>, events: seq<Event>)
    requires rows != [] && Distinct(rows) && UidsAreNew(rows, events)
    ensures Run(rows, events) != []
            && NotBehind(Current(rows), Current(Run(rows, events)).generation, Current(Run(rows, events)).keysChangedAt)
  {
    RunContinues(rows, events);
  }

  /** A client state that is not the current one, because it was replaced or its row was about to be when the process died,
      is refused from then on, through every later run. */
  lemma ReplacedStateIsRefused(
      rows: seq<SyncUser>, events: seq<Event>, i: nat, auth: AuthData, accountExists: bool, now: int, uid: int)
    requires Distinct(rows) && UidsAreNew(rows, events)
    requires i < |rows| && i != CurrentIndex(rows) && auth.clientState == rows[i].clientState
    ensures PlanRequest(Run(rows, events), auth, accountExists, now, uid).verdict.Err?
  {
    RunContinues(rows, events);
    RunKeepsDistinct(rows, events);
    StaleIsRefused(Run(rows, events), i, auth, accountExists, now, uid);
  }

  lemma StaleIsRefused(rows: seq<SyncUser>, i: nat, auth: AuthData, accountExists: bool, now: int, uid: int)
    requires StatesDistinct(rows) && i < |rows| && i != CurrentIndex(rows) && auth.clientState == rows[i].clientState
    ensures PlanRequest(rows, auth, accountExists, now, uid).verdict.Err?
  {
    assert rows[i].clientState in Retired(rows, Current(rows));
  }

  // ---- what a rotation decides ----

  /** A request that reports just what a row stores. */
  function OwnValues(user: SyncUser): AuthData {
    AuthData(user.clientState, None, user.keysChangedAt)
  }

  /** Whether or not the process died before it retired the others: once a rotation has inserted its row, the same request
      is accepted again exactly if that row took over, and the replaced client state exactly if it did not. */
  lemma RotationDecides(rows: seq<SyncUser>, e: Event, accountExists: bool, now: int, uid: int)
    requires rows != [] && Distinct(rows) && UidsAbove(rows, e.uid) && |Step(rows, e)| > |rows|
    ensures var after, took := Step(rows, e), TakesOver(rows, e.auth, e.now);
            (PlanRequest(after, e.auth, accountExists, now, uid).verdict == Ok(e.uid) <==> took)
            && (PlanRequest(after, e.auth, accountExists, now, uid).verdict.Ok? <==> took)
            && (PlanRequest(after, OwnValues(Current(rows)), accountExists, now, uid).verdict.Ok? <==> !took)
            && (took ==> forall auth: AuthData :: auth.clientState == Current(rows).clientState ==>
                           PlanRequest(after, auth, accountExists, now, uid).verdict.Err?)
  {
    StepMoves(rows, e);
    StepKeepsDistinct(rows, e);
    var after, k := Step(rows, e), CurrentIndex(rows);
    assert after[k].clientState == Current(rows).clientState;
    if TakesOver(rows, e.auth, e.now) {
      RepeatPasses(rows, e.auth, e.now, e.uid, Retired(after, Current(after)));
      forall auth: AuthData | auth.clientState == Current(rows).clientState
        ensures PlanRequest(after, auth, accountExists, now, uid).verdict.Err?
      {
        StaleIsRefused(after, k, auth, accountExists, now, uid);
      }
    } else {
      StaleIsRefused(after, |rows|, e.auth, accountExists, now, uid);
    }
  }

  lemma RepeatPasses(rows: seq<SyncUser>, auth: AuthData, now: int, uid: int, retired: set<string>)
    requires rows != [] && Rotates(rows, auth) && auth.clientState !in retired
    ensures Validate(auth, Replacement(rows, auth, now, uid), retired).None?
  {
  }

  /** Two keys under one generation, the second reported at a clock that has fallen behind. */
  const FIRST_SIGHT: Event := Event(AuthData("a", Some(50), Some(3)), true, 100, 1, 1)
  const LATE_ROTATION: Event := Event(AuthData("b", None, Some(4)), true, 90, 2, 3)

  lemma FirstSightRows(e: Event)
    requires e.accountExists && e.executed >= 1
    ensures Run([], [e]) == [FirstUser(e.auth, e.now, e.uid)]
  {
    FirstRequestPasses(e.auth, e.now, e.uid);
    var statements := PlanRequest([], e.auth, true, e.now, e.uid).statements;
    assert statements == [Insert(FirstUser(e.auth, e.now, e.uid))];
    ApplyTwo([], statements);
    assert [e][..0] == [];
  }

  /** What the condition is for, as a run: otherwise the key just accepted is refused as stale, and the one it
      replaced is accepted again. */
  lemma BackwardClockRevivesOldKey()
    ensures var rows := Run([], [FIRST_SIGHT]);
            PlanRequest(rows, LATE_ROTATION.auth, true, LATE_ROTATION.now, 2).verdict == Ok(2)
            && PlanRequest(Step(rows, LATE_ROTATION), LATE_ROTATION.auth, true, 200, 3).verdict.Err?
            && PlanRequest(Step(rows, LATE_ROTATION), AuthData("a", None, Some(3)), true, 200, 3).verdict.Ok?
  {
    FirstSightRows(FIRST_SIGHT);
    var rows := Run([], [FIRST_SIGHT]);
    assert Rotates(rows, LATE_ROTATION.auth);
    CompletedRotationInserts(rows, LATE_ROTATION);
    RotationDecides(rows, LATE_ROTATION, true, 200, 3);
  }

  // ---- which rows are left unretired ----

  /** The repair retires every row but the current one, and leaves that one as it is. */
  lemma RepairIsExact(rows: seq<SyncUser>)
    requires rows != [] && UidsClimb(rows)
    ensures var repaired := ApplyAll(rows, RequestRepairs(rows));
            |repaired| == |rows|
            && forall i :: 0 <= i < |rows| ==>
                 repaired[i] == if i == CurrentIndex(rows) then rows[i] else Retire(rows[i], Current(rows).createdAt)
  {
    QueryOrderFacts(rows);
    RepairsOnlyReplace(QueryOrder(rows), Current(rows));
    RepairsKeepRows(rows, RequestRepairs(rows));
    forall i | 0 <= i < |rows| && i != CurrentIndex(rows)
      ensures ApplyAll(rows, RequestRepairs(rows))[i] == Retire(rows[i], Current(rows).createdAt)
    {
      assert rows[i].uid != Current(rows).uid && rows[i] in QueryOrder(rows);
    }
  }

  /** So after the repair a row is unretired if and only if it is the current one and was not retired before. */
  lemma RepairLeavesOneLive(rows: seq<SyncUser>, i: nat)
    requires rows != [] && UidsClimb(rows) && i < |rows|
    ensures |ApplyAll(rows, RequestRepairs(rows))| == |rows|
    ensures ApplyAll(rows, RequestRepairs(rows))[i].replacedAt.None?
            <==> i == CurrentIndex(rows) && Current(rows).replacedAt.None?
  {
    RepairIsExact(rows);
  }

  /** Exactly the current row is unretired. */
  predicate OneLive(rows: seq<SyncUser>) {
    rows != [] && forall i :: 0 <= i < |rows| ==> (rows[i].replacedAt.None? <==> i == CurrentIndex(rows))
  }

  /** The whole plan was executed. */
  predicate Completes(rows: seq<SyncUser>, e: Event) {
    e.executed >= |PlanRequest(rows, e.auth, e.accountExists, e.now, e.uid).statements|
  }

  /** Unless they insert, the statements after the repairs retire nothing. */
  lemma UpdateRetiresNothing(rows: seq<SyncUser>, auth: AuthData, user: SyncUser, now: int, uid: int, rest: seq<Statement>)
    requires rest <= Advance(auth, user, now, uid)
    ensures var after := ApplyAll(rows, rest);
            |after| == |rows| ==> forall i :: 0 <= i < |rows| ==> after[i].replacedAt == rows[i].replacedAt
    ensures auth.clientState == user.clientState ==> |ApplyAll(rows, rest)| == |rows|
  {
    ApplyTwo(rows, rest);
  }

  /** An insert and what follows it leave only the new row unretired. */
  lemma RotationRetiresAll(rows: seq<SyncUser>, auth: AuthData, user: SyncUser, now: int, uid: int)
    requires auth.clientState != user.clientState && UidsAbove(rows, uid)
    ensures var after := ApplyAll(rows, Advance(auth, user, now, uid));
            |after| == |rows| + 1
            && forall i :: 0 <= i <= |rows| ==> (after[i].replacedAt.None? <==> i == |rows|)
  {
    ApplyTwo(rows, Advance(auth, user, now, uid));
  }

  lemma SameButRetiredUids(rows: seq<SyncUser>, after: seq<SyncUser>, uid: int)
    requires SameButRetired(rows, after) && UidsAbove(rows, uid)
    ensures UidsAbove(after, uid)
  {
    forall i | 0 <= i < |after| ensures after[i].uid < uid {
      assert after[i].(replacedAt := None) == rows[i].(replacedAt := None);
    }
  }

  lemma CompletedRotationInserts(rows: seq<SyncUser>, e: Event)
    requires rows != [] && UidsClimb(rows) && UidsAbove(rows, e.uid) && Rotates(rows, e.auth) && Completes(rows, e)
    ensures |Step(rows, e)| == |rows| + 1
    ensures forall i :: 0 <= i <= |rows| ==> (Step(rows, e)[i].replacedAt.None? <==> i == |rows|)
  {
    var repaired := ApplyAll(rows, RequestRepairs(rows));
    FullStep(rows, e);
    RepairsKeepOrder(rows, RequestRepairs(rows));
    SameButRetiredUids(rows, repaired, e.uid);
    RotationRetiresAll(repaired, e.auth, Current(rows), e.now, e.uid);
  }

  lemma CompletedUpdateKeepsLive(rows: seq<SyncUser>, e: Event, i: nat)
    requires rows != [] && UidsClimb(rows) && !Rotates(rows, e.auth) && Completes(rows, e) && i < |rows|
    ensures |Step(rows, e)| == |rows|
    ensures Step(rows, e)[i].replacedAt.None? <==> i == CurrentIndex(rows) && Current(rows).replacedAt.None?
  {
    var repaired := ApplyAll(rows, RequestRepairs(rows));
    FullStep(rows, e);
    RepairLeavesOneLive(rows, i);
    if Accepts(rows, e.auth) {
      UpdateRetiresNothing(repaired, e.auth, Current(rows), e.now, e.uid, RequestAdvance(rows, e));
    }
  }

  /** A request that is not cut short ends with the current row as the only unretired one if and only if its rotation took
      over, or, without a rotation, the current row was not retired already. */
  lemma CompletedRequestLeavesOneLive(rows: seq<SyncUser>, e: Event)
    requires rows != [] && Distinct(rows) && UidsAbove(rows, e.uid) && Completes(rows, e)
    ensures OneLive(Step(rows, e))
            <==> if Rotates(rows, e.auth) then TakesOver(rows, e.auth, e.now) else Current(rows).replacedAt.None?
  {
    var after := Step(rows, e);
    StepMoves(rows, e);
    if Rotates(rows, e.auth) {
      CompletedRotationInserts(rows, e);
      assert after[|rows|].replacedAt.None?;
    } else {
      forall i | 0 <= i < |rows|
        ensures after[i].replacedAt.None? <==> i == CurrentIndex(rows) && Current(rows).replacedAt.None?
      {
        CompletedUpdateKeepsLive(rows, e, i);
      }
      CompletedUpdateKeepsLive(rows, e, CurrentIndex(rows));
    }
  }

  // ---- when the clock does not run backwards ----

  predicate ClocksRise(clock: int, events: seq<Event>) {
    forall i :: 0 <= i < |events| ==>
      clock <= events[i].now && forall j :: i < j < |events| ==> events[i].now <= events[j].now
  }

  function LastClock(clock: int, events: seq<Event>): int {
    if events == [] then clock else events[|events| - 1].now
  }

  lemma ClocksRiseInit(clock: int, events: seq<Event>)
    requires events != [] && ClocksRise(clock, events)
    ensures var init, last := events[..|events| - 1], events[|events| - 1];
            ClocksRise(clock, init) && LastClock(clock, init) <= last.now
  {
    var init := events[..|events| - 1];
    if init != [] { assert init[|init| - 1] == events[|init| - 1]; }
  }

  /** The newest row is the current one, and it is not retired. */
  predicate Healthy(rows: seq<SyncUser>, clock: int) {
    Distinct(rows) && CreatedBy(rows, clock)
    && (rows != [] ==> CurrentIndex(rows) == |rows| - 1 && Current(rows).replacedAt.None?)
  }

  lemma StepKeepsHealthy(rows: seq<SyncUser>, clock: int, e: Event)
    requires Healthy(rows, clock) && UidsAbove(rows, e.uid) && clock <= e.now
    ensures Healthy(Step(rows, e), e.now)
  {
    StepIsLocal(rows, e);
    StepKeepsDistinct(rows, e);
    if rows == [] { FirstRowIsLive(e); } else { LastStaysCurrent(rows, clock, e); }
  }

  lemma FirstRowIsLive(e: Event)
    ensures var after := Step([], e);
            after == [] || (|after| == 1 && CurrentIndex(after) == 0 && Current(after).replacedAt.None?)
  {
    FirstRequestPasses(e.auth, e.now, e.uid);
    ApplyTwo([], Prefix(PlanRequest([], e.auth, e.accountExists, e.now, e.uid).statements, e.executed));
  }

  lemma LastStaysCurrent(rows: seq<SyncUser>, clock: int, e: Event)
    requires rows != [] && Healthy(rows, clock) && UidsAbove(rows, e.uid) && clock <= e.now
    ensures var after := Step(rows, e);
            after != [] && CurrentIndex(after) == |after| - 1 && Current(after).replacedAt.None?
  {
    StepMoves(rows, e);
    if |Step(rows, e)| == |rows| { CurrentStaysLive(rows, e); }
  }

  /** No statement of a request retires the row that was current, unless it is to be replaced. */
  lemma CurrentStaysLive(rows: seq<SyncUser>, e: Event)
    requires rows != [] && UidsClimb(rows) && |Step(rows, e)| == |rows|
    ensures Step(rows, e)[CurrentIndex(rows)].replacedAt == Current(rows).replacedAt
  {
    var repairs, rest := StepSplits(rows, e);
    RepairsKeepOrder(rows, repairs);
    if rest != [] {
      UpdateRetiresNothing(ApplyAll(rows, repairs), e.auth, Current(rows), e.now, e.uid, rest);
    }
  }

  /** With a forward clock the newest row is always the current and unretired one. */
  lemma {:induction false} RunKeepsHealthy(rows: seq<SyncUser>, clock: int, events: seq<Event>)
    requires Healthy(rows, clock) && UidsAreNew(rows, events) && ClocksRise(clock, events)
    ensures Healthy(Run(rows, events), LastClock(clock, events))
  {
    if events != [] {
      var init, last := events[..|events| - 1], events[|events| - 1];
      ClocksRiseInit(clock, events);
      RunKeepsHealthy(rows, clock, init);
      StepKeepsHealthy(Run(rows, init), LastClock(clock, init), last);
    }
  }

  /** And every completed request ends with that row as the only unretired one. */
  lemma ForwardClockLeavesOneLive(rows: seq<SyncUser>, clock: int, e: Event)
    requires rows != [] && Healthy(rows, clock) && UidsAbove(rows, e.uid) && clock <= e.now && Completes(rows, e)
    ensures OneLive(Step(rows, e))
  {
    CompletedRequestLeavesOneLive(rows, e);
  }

  // ---- keysChangedAt against generation ----

  predicate KeysWithin(generation: int, keys: Option<int>) {
    keys.Some? ==> keys.value <= generation
  }

  /** An accepted request keeps keysChangedAt within generation, except exactly when the account had
      never reported a keysChangedAt and this first one outruns the generation reported with it. */
  lemma KeysStayWithinGeneration(auth: AuthData, user: SyncUser, retired: set<string>)
    requires Validate(auth, user, retired).None? && KeysWithin(user.generation, user.keysChangedAt)
    ensures KeysWithin(NextGeneration(auth, user), NextKeysChangedAt(auth, user))
            <==> !(user.keysChangedAt.None? && Lt(auth.generation, auth.keysChangedAt))
  {
  }

  /** The exception as a run: an account seen without a keysChangedAt, then reporting its first. */
  const WITHOUT_KEYS: Event := Event(AuthData("a", Some(5), None), true, 100, 1, 1)
  const FIRST_REPORT: Event := Event(AuthData("a", Some(6), Some(10)), true, 200, 2, 1)

  lemma FirstReportOutruns()
    ensures var rows := Run([], [WITHOUT_KEYS]);
            rows != [] && KeysWithin(Current(rows).generation, Current(rows).keysChangedAt)
            && PlanRequest(rows, FIRST_REPORT.auth, true, 200, 2).verdict.Ok?
            && Step(rows, FIRST_REPORT) != []
            && !KeysWithin(Current(Step(rows, FIRST_REPORT)).generation, Current(Step(rows, FIRST_REPORT)).keysChangedAt)
  {
    FirstSightRows(WITHOUT_KEYS);
    var rows := Run([], [WITHOUT_KEYS]);
    assert QueryOrder(rows) == [rows[0]] by { assert rows[..0] == []; }
    assert Repairs(QueryOrder(rows), rows[0]) == [];
    var statements := [Update(1, 6, Some(10))];
    assert PlanRequest(rows, FIRST_REPORT.auth, true, 200, 2).statements == statements;
    ApplyTwo(rows, statements);
  }

  /** On first sight nothing is checked: the row stores whatever it is given. */
  lemma FirstSightStoresWhatItIsGiven(auth: AuthData, now: int, uid: int)
    ensures Validate(auth, FirstUser(auth, now, uid), {}).None?
    ensures KeysWithin(FirstUser(auth, now, uid).generation, FirstUser(auth, now, uid).keysChangedAt)
            <==> auth.keysChangedAt.None? || auth.keysChangedAt.value <= auth.generation.GetOr(0)
  {
    FirstRequestPasses(auth, now, uid);
  }

  /** The current row has a keysChangedAt, and it is within its generation. */
  predicate ReportedWithin(rows: seq<SyncUser>) {
    rows != [] && Current(rows).keysChangedAt.Some? && KeysWithin(Current(rows).generation, Current(rows).keysChangedAt)
  }

  lemma StepKeepsKeysWithin(rows: seq<SyncUser>, e: Event)
    requires UidsClimb(rows) && UidsAbove(rows, e.uid) && ReportedWithin(rows)
    ensures ReportedWithin(Step(rows, e))
  {
    StepMoves(rows, e);
    if Accepts(rows, e.auth) {
      KeysStayWithinGeneration(e.auth, Current(rows), Retired(rows, Current(rows)));
    }
  }

  /** Once the current row has a keysChangedAt within its generation, every later current row does. */
  lemma {:induction false} KeysStayWithinAlongRuns(rows: seq<SyncUser>, events: seq<Event>)
    requires Distinct(rows) && UidsAreNew(rows, events) && ReportedWithin(rows)
    ensures ReportedWithin(Run(rows, events))
  {
    if events != [] {
      var init, last := events[..|events| - 1], events[|events| - 1];
      KeysStayWithinAlongRuns(rows, init);
      RunKeepsDistinct(rows, init);
      StepKeepsKeysWithin(Run(rows, init), last);
    }
  }
}
