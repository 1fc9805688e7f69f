/** The tokenserver route over its table: rows created, updated and retired in place. */
module SyncUsers {
  import opened Wrappers
  import opened Tokenserver
  import opened TokenserverTheorems

  class SyncUserTable {
    /** One account's rows, in the order they were inserted. */
    var rows: seq<SyncUser>

    constructor ()
      ensures rows == []
    {
      rows := [];
    }

    method CreateSyncUser(user: SyncUser)
      modifies this
      ensures rows == ApplyTo(old(rows), Insert(user))
    {
      rows := rows + [user];
    }

    method UpdateSyncUser(uid: int, generation: int, keysChangedAt: Option<int>)
      modifies this
      ensures rows == ApplyTo(old(rows), Update(uid, generation, keysChangedAt))
    {
      var i := 0;
      while i < |rows|
        invariant 0 <= i <= |rows| == |old(rows)|
        invariant forall j :: 0 <= j < |rows| ==>
          rows[j] == if j < i then ApplyTo(old(rows), Update(uid, generation, keysChangedAt))[j] else old(rows)[j]
      {
        if rows[i].uid == uid {
          rows := rows[i := rows[i].(generation := generation, keysChangedAt := keysChangedAt)];
        }
        i := i + 1;
      }
    }

    method ReplaceSyncUser(uid: int, at: int)
      modifies this
      ensures rows == ApplyTo(old(rows), Replace(uid, at))
    {
      var i := 0;
      while i < |rows|
        invariant 0 <= i <= |rows| == |old(rows)|
        invariant forall j :: 0 <= j < |rows| ==>
          rows[j] == if j < i then ApplyTo(old(rows), Replace(uid, at))[j] else old(rows)[j]
      {
        if rows[i].uid == uid && rows[i].replacedAt.None? {
          rows := rows[i := rows[i].(replacedAt := Some(at))];
        }
        i := i + 1;
      }
    }

    method ReplaceOtherSyncUsers(keep: int, at: int)
      modifies this
      ensures rows == ApplyTo(old(rows), ReplaceOthers(keep, at))
    {
      var i := 0;
      while i < |rows|
        invariant 0 <= i <= |rows| == |old(rows)|
        invariant forall j :: 0 <= j < |rows| ==>
          rows[j] == if j < i then ApplyTo(old(rows), ReplaceOthers(keep, at))[j] else old(rows)[j]
      {
        if rows[i].uid != keep && rows[i].replacedAt.None? {
          rows := rows[i := rows[i].(replacedAt := Some(at))];
        }
        i := i + 1;
      }
    }

    /** The current user, created on first sight, and the client states already retired; on the way,
        rows a crash left unretired are retired. */
    method CurrentUser(auth: AuthData, accountExists: bool, now: int, uid: int)
      returns (r: Result<(SyncUser, set<string>), Error>)
      modifies this
      ensures old(rows) == [] && !accountExists ==> r == Err(InvalidCredentials) && rows == []
      ensures old(rows) == [] && accountExists ==> r == Ok((FirstUser(auth, now, uid), {})) && rows == [FirstUser(auth, now, uid)]
      ensures old(rows) != [] ==>
        var user := old(rows)[CurrentIndex(old(rows))];
        r == Ok((user, Retired(old(rows), user))) && rows == ApplyAll(old(rows), Repairs(QueryOrder(old(rows)), user))
    {
      var sorted := QueryOrder(rows);
      if sorted == [] {
        if !accountExists { return Err(InvalidCredentials); }
        var user := FirstUser(auth, now, uid);
        CreateSyncUser(user);
        return Ok((user, {}));
      }
      QueryOrderFacts(rows);
      RetiredByQuery(rows, sorted, sorted[0]);
      var retired := Reconcile(sorted, sorted[0]);
      r := Ok((sorted[0], retired));
    }

    /** The repair loop, and the client states it passes on the way. */
    method Reconcile(sorted: seq<SyncUser>, current: SyncUser) returns (retired: set<string>)
      modifies this
      ensures rows == ApplyAll(old(rows), Repairs(sorted, current))
      ensures retired == Retired(sorted, current)
    {
      retired := {};
      var i := 0;
      while i < |sorted|
        invariant 0 <= i <= |sorted|
        invariant rows == ApplyAll(old(rows), Repairs(sorted[..i], current))
        invariant retired == Retired(sorted[..i], current)
      {
        var row := sorted[i];
        RepairOneMore(old(rows), sorted, current, i);
        RetiredOneMore(sorted, current, i);
        if row.uid != current.uid && row.replacedAt.None? {
          ReplaceSyncUser(row.uid, current.createdAt);
        }
        if row.clientState != current.clientState { retired := retired + {row.clientState}; }
        i := i + 1;
      }
      assert sorted[..i] == sorted;
    }

    /** `_apply`: move the record forward, or replace it. */
    method Apply(auth: AuthData, user: SyncUser, now: int, uid: int) returns (issued: int)
      modifies this
      ensures rows == ApplyAll(old(rows), Advance(auth, user, now, uid))
      ensures issued == if auth.clientState != user.clientState then uid else user.uid
    {
      ApplyTwo(rows, Advance(auth, user, now, uid));
      var keys, generation := NextKeysChangedAt(auth, user), NextGeneration(auth, user);
      if auth.clientState != user.clientState {
        CreateSyncUser(SyncUser(uid, auth.clientState, generation, keys, now, None));
        ReplaceOtherSyncUsers(uid, now);
        return uid;
      }
      if generation != user.generation || keys != user.keysChangedAt {
        UpdateSyncUser(user.uid, generation, keys);
      }
      issued := user.uid;
    }

    /** One token request, executed to its end. */
    method Token(auth: AuthData, accountExists: bool, now: int, uid: int) returns (verdict: Result<int, Error>)
      modifies this
      ensures var plan := PlanRequest(old(rows), auth, accountExists, now, uid);
              rows == ApplyAll(old(rows), plan.statements) && verdict == plan.verdict
    {
      ghost var before := rows;
      FirstRequestPasses(auth, now, uid);
      var found := CurrentUser(auth, accountExists, now, uid);
      if found.Err? { return Err(found.error); }
      var user, retired := found.value.0, found.value.1;
      if before == [] {
        ApplyTwo(before, [Insert(user)]);
        assert [Insert(user)] + Advance(auth, user, now, uid + 1) == [Insert(user)];
      } else {
        ApplyAllConcat(before, Repairs(QueryOrder(before), user), Advance(auth, user, now, uid));
      }
      var bad := Validate(auth, user, retired);
      if bad.Some? { return Err(bad.value); }
      var issued := Apply(auth, user, now, uid);
      verdict := Ok(issued);
    }
  }

  lemma RepairOneMore(rows: seq<SyncUser>, sorted: seq<SyncUser>, current: SyncUser, i: nat)
    requires i < |sorted|
    ensures var before := ApplyAll(rows, Repairs(sorted[..i], current));
            ApplyAll(rows, Repairs(sorted[..i + 1], current))
            == if sorted[i].uid != current.uid && sorted[i].replacedAt.None?
               then ApplyTo(before, Replace(sorted[i].uid, current.createdAt)) else before
  {
    var more := if sorted[i].uid != current.uid && sorted[i].replacedAt.None?
                then [Replace(sorted[i].uid, current.createdAt)] else [];
    assert sorted[..i + 1][..i] == sorted[..i];
    ApplyAllConcat(rows, Repairs(sorted[..i], current), more);
    ApplyTwo(ApplyAll(rows, Repairs(sorted[..i], current)), more);
  }

  lemma RetiredOneMore(sorted: seq<SyncUser>, current: SyncUser, i: nat)
    requires i < |sorted|
    ensures Retired(sorted[..i + 1], current)
            == Retired(sorted[..i], current) + if sorted[i].clientState != current.clientState then {sorted[i].clientState} else {}
  {
    forall state ensures state in Retired(sorted[..i + 1], current)
                         <==> state in Retired(sorted[..i], current)
                              || (state == sorted[i].clientState && state != current.clientState) {
      if state in Retired(sorted[..i], current) {
        var j :| 0 <= j < i && sorted[..i][j].clientState != current.clientState && sorted[..i][j].clientState == state;
        assert sorted[..i + 1][j].clientState == state;
      }
      if state == sorted[i].clientState && state != current.clientState {
        assert sorted[..i + 1][i].clientState == state;
      }
      if state in Retired(sorted[..i + 1], current) && state != sorted[i].clientState {
        var j :| 0 <= j < i + 1 && sorted[..i + 1][j].clientState != current.clientState && sorted[..i + 1][j].clientState == state;
        assert j < i && sorted[..i][j].clientState == state;
      }
    }
  }

  lemma RetiredByQuery(rows: seq<SyncUser>, sorted: seq<SyncUser>, current: SyncUser)
    requires forall v :: v in sorted <==> v in rows
    ensures Retired(sorted, current) == Retired(rows, current)
  {
    forall state | state in Retired(rows, current) ensures state in Retired(sorted, current) {
      var i :| 0 <= i < |rows| && rows[i].clientState != current.clientState && rows[i].clientState == state;
      assert rows[i] in sorted;
    }
    forall state | state in Retired(sorted, current) ensures state in Retired(rows, current) {
      var i :| 0 <= i < |sorted| && sorted[i].clientState != current.clientState && sorted[i].clientState == state;
      assert sorted[i] in rows;
    }
  }
}
