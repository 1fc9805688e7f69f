/** Which requests are accepted, what of them is stored, and what the stored values then refuse. */
module TokenserverValues {
  import opened Wrappers
  import opened Tokenserver
  import opened TokenserverTheorems

  // ---- acceptance ----

  /** The client state is the current one, or one the account has never had; and it is not withdrawn. */
  predicate StateAllowed(rows: seq<SyncUser>, auth: AuthData)
    requires rows != []
  {
    var state := Current(rows).clientState;
    (auth.clientState == "" ==> state == "")
    && (auth.clientState != state ==> forall i :: 0 <= i < |rows| ==> rows[i].clientState != auth.clientState)
  }

  /** A reported value is compared with the stored one, if there is one: it must rise, or at least not fall. */
  predicate Follows(reported: Option<int>, stored: Option<int>, rises: bool) {
    reported.Some? && stored.Some? ==> if rises then reported.value > stored.value else reported.value >= stored.value
  }

  /** A keysChangedAt raised above the stored one does not outrun a generation reported with it. */
  predicate WithinReported(user: SyncUser, auth: AuthData) {
    auth.generation.Some? && auth.keysChangedAt.Some? && user.keysChangedAt.Some?
    ==> auth.keysChangedAt.value <= user.keysChangedAt.value || auth.keysChangedAt.value <= auth.generation.value
  }

  /** No keysChangedAt is reported only where none, or zero, is stored. */
  predicate NotWithdrawn(user: SyncUser, auth: AuthData) {
    auth.keysChangedAt.None? ==> user.keysChangedAt.None? || user.keysChangedAt.value == 0
  }

  /** A request is accepted if and only if it meets these rules; a new client state makes both values rise, if reported. */
  lemma AcceptedIff(rows: seq<SyncUser>, auth: AuthData, accountExists: bool, now: int, uid: int)
    requires rows != []
    ensures var user := Current(rows);
            var rotates := auth.clientState != user.clientState;
            PlanRequest(rows, auth, accountExists, now, uid).verdict.Ok?
            <==> StateAllowed(rows, auth) && NotWithdrawn(user, auth) && WithinReported(user, auth)
                 && Follows(auth.generation, Some(user.generation), rotates)
                 && Follows(auth.keysChangedAt, user.keysChangedAt, rotates)
  {
    RetiredStates(rows, auth.clientState);
  }

  lemma RetiredStates(rows: seq<SyncUser>, state: string)
    requires rows != []
    ensures state in Retired(rows, Current(rows))
            <==> state != Current(rows).clientState && exists i :: 0 <= i < |rows| && rows[i].clientState == state
  {
  }

  /** And otherwise is told why: a keysChangedAt that outruns comes first, then the client state, then what fell. */
  lemma RefusedFor(rows: seq<SyncUser>, auth: AuthData, accountExists: bool, now: int, uid: int)
    requires rows != [] && PlanRequest(rows, auth, accountExists, now, uid).verdict.Err?
    ensures var user := Current(rows);
            var rotates := auth.clientState != user.clientState;
            PlanRequest(rows, auth, accountExists, now, uid).verdict.error
            == if !WithinReported(user, auth) then InvalidKeysChangedAt
               else if !StateAllowed(rows, auth) then InvalidClientState
               else if rotates && !(Follows(auth.generation, Some(user.generation), true)
                                    && Follows(auth.keysChangedAt, user.keysChangedAt, true)) then InvalidClientState
               else if !Follows(auth.generation, Some(user.generation), false) then InvalidGeneration
               else InvalidKeysChangedAt
  {
    RetiredStates(rows, auth.clientState);
  }

  /** A new client state need not come with a rise: nothing is compared with a value that is not reported. */
  lemma RotationWithoutRise()
    ensures PlanRequest([SyncUser(1, "a", 5, None, 100, None)], AuthData("b", None, None), true, 200, 2).verdict == Ok(2)
  {
    var rows := [SyncUser(1, "a", 5, None, 100, None)];
    AcceptedIff(rows, AuthData("b", None, None), true, 200, 2);
  }

  // ---- what is stored ----

  /** What an accepted request leaves of the values before it. */
  predicate StoredFrom(before: SyncUser, auth: AuthData, after: SyncUser) {
    after.clientState == auth.clientState
    && (match auth.keysChangedAt
        case Some(reported) => after.keysChangedAt == Some(reported)
        case None => after.keysChangedAt == before.keysChangedAt)
    && (match auth.generation
        case Some(reported) => after.generation == reported
        case None =>
          // A newer key stands in for the generation that was not reported, if it is ahead of the stored one.
          if auth.keysChangedAt.Some? && auth.keysChangedAt.value > before.generation
             && (before.keysChangedAt.None? || auth.keysChangedAt.value > before.keysChangedAt.value)
          then after.generation == auth.keysChangedAt.value
          else after.generation == before.generation)
  }

  /** The row that an accepted request makes or keeps current stores what the request reported, and its uid is the answer. */
  lemma AcceptedIsStored(rows: seq<SyncUser>, e: Event)
    requires rows != [] && Distinct(rows) && UidsAbove(rows, e.uid) && Completes(rows, e)
    requires PlanRequest(rows, e.auth, e.accountExists, e.now, e.uid).verdict.Ok?
    ensures Step(rows, e) != []
    ensures Current(Step(rows, e)).clientState == e.auth.clientState ==>
              StoredFrom(Current(rows), e.auth, Current(Step(rows, e)))
              && PlanRequest(rows, e.auth, e.accountExists, e.now, e.uid).verdict == Ok(Current(Step(rows, e)).uid)
    ensures e.auth.clientState == Current(rows).clientState ==> Current(Step(rows, e)).clientState == e.auth.clientState
  {
    StepMoves(rows, e);
    StepIsLocal(rows, e);
    if e.auth.clientState == Current(rows).clientState {
      UpdateStores(rows, e);
    } else {
      CompletedRotationInserts(rows, e);
    }
  }

  lemma UpdateStores(rows: seq<SyncUser>, e: Event)
    requires rows != [] && Distinct(rows) && UidsAbove(rows, e.uid) && Completes(rows, e) && Accepts(rows, e.auth)
    requires e.auth.clientState == Current(rows).clientState
    ensures |Step(rows, e)| == |rows| && CurrentIndex(Step(rows, e)) == CurrentIndex(rows)
    ensures StoredFrom(Current(rows), e.auth, Current(Step(rows, e))) && Current(Step(rows, e)).uid == Current(rows).uid
  {
    StepMoves(rows, e);
    FullStep(rows, e);
    RepairsKeepOrder(rows, RequestRepairs(rows));
    UpdateApplies(ApplyAll(rows, RequestRepairs(rows)), CurrentIndex(rows), e);
    AcceptedKeeps(rows, e.auth);
  }

  lemma UpdateApplies(rows: seq<SyncUser>, k: nat, e: Event)
    requires k < |rows| && e.auth.clientState == rows[k].clientState
    ensures var after := ApplyAll(rows, Advance(e.auth, rows[k], e.now, e.uid));
            |after| == |rows| && after[k] == rows[k].(generation := NextGeneration(e.auth, rows[k]),
                                                      keysChangedAt := NextKeysChangedAt(e.auth, rows[k]))
  {
    ApplyTwo(rows, Advance(e.auth, rows[k], e.now, e.uid));
  }

  lemma AcceptedKeeps(rows: seq<SyncUser>, auth: AuthData)
    requires rows != [] && Accepts(rows, auth)
    ensures auth.keysChangedAt.None? ==> NextKeysChangedAt(auth, Current(rows)) == Current(rows).keysChangedAt
  {
  }

  /** A completed rotation retires the current row now, and every other one that was left over at the current one's creation;
      earlier retirements stay. */
  lemma RotationRetires(rows: seq<SyncUser>, e: Event, i: nat)
    requires rows != [] && Distinct(rows) && UidsAbove(rows, e.uid) && Completes(rows, e) && i < |rows|
    requires PlanRequest(rows, e.auth, e.accountExists, e.now, e.uid).verdict.Ok?
    requires e.auth.clientState != Current(rows).clientState
    ensures |Step(rows, e)| == |rows| + 1 && Step(rows, e)[|rows|].replacedAt.None?
    ensures Step(rows, e)[i].replacedAt
            == if rows[i].replacedAt.Some? then rows[i].replacedAt
               else if i == CurrentIndex(rows) then Some(e.now)
               else Some(Current(rows).createdAt)
  {
    var repaired := ApplyAll(rows, RequestRepairs(rows));
    FullStep(rows, e);
    RepairIsExact(rows);
    RepairsKeepOrder(rows, RequestRepairs(rows));
    RotationApplies(repaired, Current(rows), e, i);
    SameUid(rows, repaired, i);
  }

  lemma SameUid(rows: seq<SyncUser>, after: seq<SyncUser>, i: nat)
    requires SameButRetired(rows, after) && i < |rows|
    ensures after[i].uid == rows[i].uid
  {
    assert after[i].(replacedAt := None) == rows[i].(replacedAt := None);
  }

  lemma RotationApplies(rows: seq<SyncUser>, user: SyncUser, e: Event, i: nat)
    requires e.auth.clientState != user.clientState && i < |rows|
    ensures var after := ApplyAll(rows, Advance(e.auth, user, e.now, e.uid));
            |after| == |rows| + 1 && after[|rows|].uid == e.uid && after[|rows|].replacedAt.None?
            && (rows[i].uid != e.uid ==> after[i] == Retire(rows[i], e.now))
  {
    ApplyTwo(rows, Advance(e.auth, user, e.now, e.uid));
  }

  /** On first sight the one row stores just what the request reported; a generation that was not reported counts as zero. */
  lemma FirstIsStored(e: Event)
    requires e.accountExists && e.executed >= 1
    ensures |Step([], e)| == 1
    ensures var row := Step([], e)[0];
            row.uid == e.uid && row.clientState == e.auth.clientState && row.keysChangedAt == e.auth.keysChangedAt
            && row.generation == (match e.auth.generation case Some(reported) => reported case None => 0)
            && row.createdAt == e.now && row.replacedAt.None?
    ensures PlanRequest([], e.auth, true, e.now, e.uid).verdict == Ok(e.uid)
  {
    FirstRequestPasses(e.auth, e.now, e.uid);
    var statements := PlanRequest([], e.auth, true, e.now, e.uid).statements;
    assert statements == [Insert(FirstUser(e.auth, e.now, e.uid))];
    ApplyTwo([], statements);
  }

  /** Without an account nothing is stored, and the credentials are refused. */
  lemma NoAccountNoRow(e: Event)
    requires !e.accountExists
    ensures Step([], e) == [] && PlanRequest([], e.auth, false, e.now, e.uid).verdict == Err(InvalidCredentials)
  {
    ApplyTwo([], []);
  }

  // ---- what the stored values refuse ----

  /** A request reports less than another one did. */
  predicate ReportsLess(auth: AuthData, than: AuthData) {
    (auth.generation.Some? && than.generation.Some? && auth.generation.value < than.generation.value)
    || (auth.keysChangedAt.Some? && than.keysChangedAt.Some? && auth.keysChangedAt.value < than.keysChangedAt.value)
  }

  lemma LessIsRefused(rows: seq<SyncUser>, auth: AuthData, accountExists: bool, now: int, uid: int)
    requires rows != []
    requires (auth.generation.Some? && auth.generation.value < Current(rows).generation)
             || (auth.keysChangedAt.Some? && Current(rows).keysChangedAt.Some?
                 && auth.keysChangedAt.value < Current(rows).keysChangedAt.value)
    ensures PlanRequest(rows, auth, accountExists, now, uid).verdict.Err?
  {
    AcceptedIff(rows, auth, accountExists, now, uid);
  }

  /** Once a request was accepted and its row is the current one, no request that reports a smaller generation or a smaller
      keysChangedAt is accepted any more, through every later run on any clock. */
  lemma OlderIsRefused(
      rows: seq<SyncUser>, e: Event, events: seq<Event>, auth: AuthData, accountExists: bool, now: int, uid: int)
    requires rows != [] && Distinct(rows) && UidsAbove(rows, e.uid) && Completes(rows, e)
    requires PlanRequest(rows, e.auth, e.accountExists, e.now, e.uid).verdict.Ok?
    requires Step(rows, e) != [] && Current(Step(rows, e)).clientState == e.auth.clientState
    requires UidsAreNew(Step(rows, e), events) && ReportsLess(auth, e.auth)
    ensures PlanRequest(Run(Step(rows, e), events), auth, accountExists, now, uid).verdict.Err?
  {
    var after := Step(rows, e);
    AcceptedIsStored(rows, e);
    StepKeepsDistinct(rows, e);
    CurrentNeverMovesBack(after, events);
    LessIsRefused(Run(after, events), auth, accountExists, now, uid);
  }
}
