/** The tokenserver's user records: validation, key rotation, and repair after a crash. */
module Tokenserver {
  import opened Wrappers

  /** One row of `sync_users`; the current row has no `replacedAt`. */
  datatype SyncUser = SyncUser(
    uid: int, clientState: string, generation: int, keysChangedAt: Option<int>,
    createdAt: int, replacedAt: Option<int>)

  /** What the request claims. A zero generation or keysChangedAt has become None on the way in. */
  datatype AuthData = AuthData(clientState: string, generation: Option<int>, keysChangedAt: Option<int>)

  datatype Error = InvalidCredentials | InvalidKeysChangedAt | InvalidClientState | InvalidGeneration

  /** One autocommitted statement. */
  datatype Statement =
    | Insert(user: SyncUser)
    | Update(uid: int, generation: int, keysChangedAt: Option<int>)
    | Replace(uid: int, at: int)
    | ReplaceOthers(keep: int, at: int)

  // ---- the table ----

  /** `ORDER BY generation DESC, created_at DESC, uid DESC`. */
  predicate Precedes(a: SyncUser, b: SyncUser) {
    a.generation > b.generation
    || (a.generation == b.generation && (a.createdAt > b.createdAt || (a.createdAt == b.createdAt && a.uid > b.uid)))
  }

  function Retire(u: SyncUser, at: int): SyncUser {
    if u.replacedAt.None? then u.(replacedAt := Some(at)) else u
  }

  function ApplyTo(rows: seq<SyncUser>, s: Statement): (after: seq<SyncUser>)
    ensures |after| == |rows| + if s.Insert? then 1 else 0
  {
    match s
    case Insert(user) => rows + [user]
    case Update(uid, generation, keys) =>
      seq(|rows|, i requires 0 <= i < |rows| =>
        if rows[i].uid == uid then rows[i].(generation := generation, keysChangedAt := keys) else rows[i])
    case Replace(uid, at) =>
      seq(|rows|, i requires 0 <= i < |rows| => if rows[i].uid == uid then Retire(rows[i], at) else rows[i])
    case ReplaceOthers(keep, at) =>
      seq(|rows|, i requires 0 <= i < |rows| => if rows[i].uid != keep then Retire(rows[i], at) else rows[i])
  }

  function ApplyAll(rows: seq<SyncUser>, ss: seq<Statement>): seq<SyncUser> {
    if ss == [] then rows else ApplyTo(ApplyAll(rows, ss[..|ss| - 1]), ss[|ss| - 1])
  }

  /** The index of the first row in query order. */
  function CurrentIndex(rows: seq<SyncUser>): (i: nat)
    requires rows != []
    ensures i < |rows|
  {
    if |rows| == 1 then 0
    else
      var i := CurrentIndex(rows[..|rows| - 1]);
      if Precedes(rows[|rows| - 1], rows[i]) then |rows| - 1 else i
  }

  /** The rows as the query returns them. */
  function QueryOrder(rows: seq<SyncUser>): (sorted: seq<SyncUser>)
    ensures |sorted| == |rows|
  {
    if rows == [] then []
    else InsertSorted(rows[|rows| - 1], QueryOrder(rows[..|rows| - 1]))
  }

  function InsertSorted(u: SyncUser, sorted: seq<SyncUser>): (r: seq<SyncUser>)
    ensures |r| == |sorted| + 1
  {
    if sorted == [] || Precedes(u, sorted[0]) then [u] + sorted
    else [sorted[0]] + InsertSorted(u, sorted[1..])
  }

  lemma {:induction false} InsertedMembers(u: SyncUser, sorted: seq<SyncUser>)
    ensures forall v :: v in InsertSorted(u, sorted) <==> v == u || v in sorted
  {
    if sorted != [] && !Precedes(u, sorted[0]) {
      InsertedMembers(u, sorted[1..]);
      assert sorted == [sorted[0]] + sorted[1..];
    }
  }

  /** The query returns every row, and the current one first. */
  lemma {:induction false} QueryOrderFacts(rows: seq<SyncUser>)
    ensures forall v :: v in QueryOrder(rows) <==> v in rows
    ensures rows != [] ==> QueryOrder(rows)[0] == rows[CurrentIndex(rows)]
  {
    if rows != [] {
      var init, last := rows[..|rows| - 1], rows[|rows| - 1];
      QueryOrderFacts(init);
      InsertedMembers(last, QueryOrder(init));
      assert rows == init + [last];
    }
  }

  // ---- decisions ----

  predicate Gt(a: Option<int>, b: Option<int>) { a.Some? && b.Some? && a.value > b.value }
  predicate Lt(a: Option<int>, b: Option<int>) { a.Some? && b.Some? && a.value < b.value }
  predicate Le(a: Option<int>, b: Option<int>) { a.Some? && b.Some? && a.value <= b.value }

  /** `_validate`, in the order it runs. */
  function Validate(auth: AuthData, user: SyncUser, retired: set<string>): Option<Error> {
    var changed, generation := auth.clientState != user.clientState, Some(user.generation);
    if Gt(auth.keysChangedAt, user.keysChangedAt) && Lt(auth.generation, auth.keysChangedAt) then Some(InvalidKeysChangedAt)
    else if user.clientState != "" && auth.clientState == "" then Some(InvalidClientState)
    else if auth.clientState in retired then Some(InvalidClientState)
    else if changed && Le(auth.generation, generation) then Some(InvalidClientState)
    else if changed && Le(auth.keysChangedAt, user.keysChangedAt) then Some(InvalidClientState)
    else if Gt(generation, auth.generation) then Some(InvalidGeneration)
    else if Gt(user.keysChangedAt, auth.keysChangedAt) then Some(InvalidKeysChangedAt)
    else if auth.keysChangedAt.None? && user.keysChangedAt.Some? && user.keysChangedAt.value != 0 then Some(InvalidKeysChangedAt)
    else None
  }

  function NextKeysChangedAt(auth: AuthData, user: SyncUser): Option<int> {
    if auth.keysChangedAt.Some? then auth.keysChangedAt
    else if user.keysChangedAt.None? then None
    else Some(0)
  }

  function NextGeneration(auth: AuthData, user: SyncUser): int {
    if auth.generation.Some? then auth.generation.value
    else if auth.keysChangedAt.Some? && auth.keysChangedAt.value > user.generation
            && (user.keysChangedAt.None? || auth.keysChangedAt.value > user.keysChangedAt.value)
    then auth.keysChangedAt.value
    else user.generation
  }

  // ---- one request as the statements it executes ----

  function FirstUser(auth: AuthData, now: int, uid: int): SyncUser {
    SyncUser(uid, auth.clientState, auth.generation.GetOr(0), auth.keysChangedAt, now, None)
  }

  /** The repair of `_current_user`, row by row: every other row not retired yet is retired now. */
  function Repairs(rows: seq<SyncUser>, current: SyncUser): seq<Statement> {
    if rows == [] then []
    else
      var u := rows[|rows| - 1];
      Repairs(rows[..|rows| - 1], current)
      + if u.uid != current.uid && u.replacedAt.None? then [Replace(u.uid, current.createdAt)] else []
  }

  function Retired(rows: seq<SyncUser>, current: SyncUser): set<string> {
    set i | 0 <= i < |rows| && rows[i].clientState != current.clientState :: rows[i].clientState
  }

  /** `_apply`: rotate to a new row, move the current one forward, or leave it. */
  function Advance(auth: AuthData, user: SyncUser, now: int, uid: int): seq<Statement> {
    var keys, generation := NextKeysChangedAt(auth, user), NextGeneration(auth, user);
    if auth.clientState != user.clientState then
      [Insert(SyncUser(uid, auth.clientState, generation, keys, now, None)), ReplaceOthers(uid, now)]
    else if generation != user.generation || keys != user.keysChangedAt then [Update(user.uid, generation, keys)]
    else []
  }

  datatype Plan = Plan(statements: seq<Statement>, verdict: Result<int, Error>)

  /** All a request will execute, and its answer: the uid it issues a credential for, or an error. */
  function PlanRequest(rows: seq<SyncUser>, auth: AuthData, accountExists: bool, now: int, uid: int): Plan {
    if rows == [] then
      if !accountExists then Plan([], Err(InvalidCredentials))
      else
        var user := FirstUser(auth, now, uid);
        match Validate(auth, user, {})
        case Some(e) => Plan([Insert(user)], Err(e))
        case None => Plan([Insert(user)] + Advance(auth, user, now, uid + 1), Ok(uid))
    else
      var user := rows[CurrentIndex(rows)];
      var repairs := Repairs(QueryOrder(rows), user);
      match Validate(auth, user, Retired(rows, user))
      case Some(e) => Plan(repairs, Err(e))
      case None => Plan(repairs + Advance(auth, user, now, uid), Ok(if auth.clientState != user.clientState then uid else user.uid))
  }

  // ---- runs ----

  /** A request, with the clock it reads, the uid the database would allocate next, and how many of
      its statements are executed: all of them, or fewer when the process dies on the way. */
  datatype Event = Event(auth: AuthData, accountExists: bool, now: int, uid: int, executed: nat)

  function Prefix<T>(s: seq<T>, n: nat): seq<T> {
    if n < |s| then s[..n] else s
  }

  function Step(rows: seq<SyncUser>, e: Event): seq<SyncUser> {
    ApplyAll(rows, Prefix(PlanRequest(rows, e.auth, e.accountExists, e.now, e.uid).statements, e.executed))
  }

  function Run(rows: seq<SyncUser>, events: seq<Event>): seq<SyncUser> {
    if events == [] then rows else Step(Run(rows, events[..|events| - 1]), events[|events| - 1])
  }

  /** AUTOINCREMENT hands out larger and larger uids. */
  predicate UidsAbove(rows: seq<SyncUser>, uid: int) {
    forall i :: 0 <= i < |rows| ==> rows[i].uid < uid
  }

  /** The clock has not run backwards past any row's creation. */
  predicate CreatedBy(rows: seq<SyncUser>, now: int) {
    forall i :: 0 <= i < |rows| ==> rows[i].createdAt <= now
  }
}
