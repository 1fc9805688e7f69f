/** What the merge of devices, grants and sessions conserves. */
module AttachedClientsTheorems {
  import opened Wrappers
  import opened AttachedClients

  // ---- which row each input lands in ----

  function UnclaimedGrants(devices: seq<Device>, grants: seq<OAuthGrant>): nat {
    if grants == [] then 0
    else
      UnclaimedGrants(devices, grants[..|grants| - 1])
      + if RefreshOwner(devices, grants[|grants| - 1].refreshId).None? then 1 else 0
  }

  function UnclaimedSessions(devices: seq<Device>, sessions: seq<Session>): nat {
    if sessions == [] then 0
    else
      UnclaimedSessions(devices, sessions[..|sessions| - 1])
      + if SessionOwner(devices, sessions[|sessions| - 1].id).None? then 1 else 0
  }

  /** Devices come first; a grant joins its device, or opens the next row. */
  function RowOfGrant(devices: seq<Device>, grants: seq<OAuthGrant>, k: nat): nat
    requires k < |grants|
  {
    match RefreshOwner(devices, grants[k].refreshId)
    case Some(j) => j
    case None => |devices| + UnclaimedGrants(devices, grants[..k])
  }

  function RowOfSession(devices: seq<Device>, grants: seq<OAuthGrant>, sessions: seq<Session>, k: nat): nat
    requires k < |sessions|
  {
    match SessionOwner(devices, sessions[k].id)
    case Some(j) => j
    case None => |devices| + UnclaimedGrants(devices, grants) + UnclaimedSessions(devices, sessions[..k])
  }

  ghost predicate HasGrant(devices: seq<Device>, grants: seq<OAuthGrant>, r: nat) {
    exists k :: 0 <= k < |grants| && RowOfGrant(devices, grants, k) == r
  }

  ghost predicate HasSession(devices: seq<Device>, grants: seq<OAuthGrant>, sessions: seq<Session>, r: nat) {
    exists k :: 0 <= k < |sessions| && RowOfSession(devices, grants, sessions, k) == r
  }

  // ---- times ----

  datatype Moment = Moment(created: Option<int>, lastAccess: Option<int>)

  ghost function DeviceMoments(devices: seq<Device>, r: nat): set<Moment> {
    if r < |devices| then {Moment(devices[r].createdAt, devices[r].lastAccess)} else {}
  }

  ghost function GrantMoments(devices: seq<Device>, grants: seq<OAuthGrant>, r: nat): set<Moment> {
    set k | 0 <= k < |grants| && RowOfGrant(devices, grants, k) == r
      :: Moment(Some(grants[k].createdAt), Some(grants[k].lastAccess))
  }

  ghost function SessionMoments(devices: seq<Device>, grants: seq<OAuthGrant>, sessions: seq<Session>, r: nat): set<Moment> {
    set k | 0 <= k < |sessions| && RowOfSession(devices, grants, sessions, k) == r
      :: Moment(Some(sessions[k].createdAt), Some(sessions[k].lastAccess))
  }

  /** Everything that landed in row `r`. */
  ghost function Moments(devices: seq<Device>, grants: seq<OAuthGrant>, sessions: seq<Session>, r: nat): set<Moment> {
    DeviceMoments(devices, r) + GrantMoments(devices, grants, r) + SessionMoments(devices, grants, sessions, r)
  }

  ghost predicate LeastCreated(t: Option<int>, moments: set<Moment>) {
    (forall m :: m in moments && Known(m.created) ==> Known(t) && t.value <= m.created.value)
    && (Known(t) ==> exists m :: m in moments && m.created == t)
  }

  ghost predicate GreatestAccess(t: Option<int>, moments: set<Moment>) {
    (forall m :: m in moments && Known(m.lastAccess) ==> Known(t) && t.value >= m.lastAccess.value)
    && (Known(t) ==> exists m :: m in moments && m.lastAccess == t)
  }

  ghost predicate Timed(row: Data, moments: set<Moment>) {
    LeastCreated(row.created, moments) && GreatestAccess(row.lastAccess, moments)
  }

  lemma MomentAdded(row: Data, moments: set<Moment>, created: int, lastAccess: int, out: Data)
    requires Timed(row, moments) && created != 0 && lastAccess != 0
    requires out.created == Some(Earliest(row.created, created)) && out.lastAccess == Some(Latest(row.lastAccess, lastAccess))
    ensures Timed(out, moments + {Moment(Some(created), Some(lastAccess))})
  {
    var m := Moment(Some(created), Some(lastAccess));
    var all := moments + {m};
    assert m in all;
    if out.created != row.created { assert out.created == m.created; }
    if out.lastAccess != row.lastAccess { assert out.lastAccess == m.lastAccess; }
  }

  // ---- the grant pass ----

  predicate Dated(grants: seq<OAuthGrant>, sessions: seq<Session>) {
    (forall k :: 0 <= k < |grants| ==> grants[k].createdAt != 0 && grants[k].lastAccess != 0)
    && forall k :: 0 <= k < |sessions| ==> sessions[k].createdAt != 0 && sessions[k].lastAccess != 0
  }

  /** What row `r` holds once the grants are in. */
  ghost predicate Granted(devices: seq<Device>, grants: seq<OAuthGrant>, r: nat, row: Data) {
    row.deviceId == (if r < |devices| then Some(devices[r].id) else None)
    && row.sessionId == (if r < |devices| then devices[r].sessionId else None)
    && !row.isCurrent
    && row.kind == GrantedKind(devices, grants, r)
    && (r < |devices| && Truthy(devices[r].name) ==> row.name == devices[r].name)
    && (HasGrant(devices, grants, r) ==> FromGrant(devices, grants, r, row, false))
    && (!HasGrant(devices, grants, r) ==> row.refreshId == None && row.clientId == None && row.scope == None)
  }

  ghost function GrantedKind(devices: seq<Device>, grants: seq<OAuthGrant>, r: nat): Option<string> {
    if r >= |devices| then None
    else if devices[r].id != "" && !Truthy(devices[r].kind) && HasGrant(devices, grants, r) then Some("mobile")
    else devices[r].kind
  }

  /** The row shows the client, the token and, unless hidden, the scope of one grant that landed there. */
  ghost predicate FromGrant(devices: seq<Device>, grants: seq<OAuthGrant>, r: nat, row: Data, hidden: bool) {
    exists k :: 0 <= k < |grants| && RowOfGrant(devices, grants, k) == r && Shows(row, grants[k], hidden)
  }

  predicate Shows(row: Data, g: OAuthGrant, hidden: bool) {
    row.refreshId == g.refreshId && row.clientId == Some(g.clientId) && row.scope == if hidden then None else Some(g.scope)
  }

  lemma RowOfGrantInPrefix(devices: seq<Device>, grants: seq<OAuthGrant>, n: nat, k: nat)
    requires k < n <= |grants|
    ensures RowOfGrant(devices, grants[..n], k) == RowOfGrant(devices, grants, k)
  {
    assert grants[..n][..k] == grants[..k];
  }

  lemma GrantsGrow(devices: seq<Device>, grants: seq<OAuthGrant>, r: nat)
    requires grants != []
    ensures var n, h := |grants| - 1, grants[..|grants| - 1];
            var here := RowOfGrant(devices, grants, n) == r;
            (HasGrant(devices, grants, r) <==> HasGrant(devices, h, r) || here)
            && GrantMoments(devices, grants, r) == GrantMoments(devices, h, r)
               + (if here then {Moment(Some(grants[n].createdAt), Some(grants[n].lastAccess))} else {})
  {
    var n, h := |grants| - 1, grants[..|grants| - 1];
    forall k: nat | k < n { RowOfGrantInPrefix(devices, grants, n, k); }
    if HasGrant(devices, h, r) {
      var k :| 0 <= k < |h| && RowOfGrant(devices, h, k) == r;
      assert RowOfGrant(devices, grants, k) == r;
    }
  }

  lemma FromGrantGrows(devices: seq<Device>, grants: seq<OAuthGrant>, r: nat, row: Data)
    requires grants != [] && FromGrant(devices, grants[..|grants| - 1], r, row, false)
    ensures FromGrant(devices, grants, r, row, false)
  {
    var n, h := |grants| - 1, grants[..|grants| - 1];
    var k :| 0 <= k < |h| && RowOfGrant(devices, h, k) == r && Shows(row, h[k], false);
    RowOfGrantInPrefix(devices, grants, n, k);
    assert Shows(row, grants[k], false);
  }

  lemma {:induction false} GrantPassSize(devices: seq<Device>, grants: seq<OAuthGrant>)
    ensures |GrantPass(devices, grants)| == |devices| + UnclaimedGrants(devices, grants)
  {
    if grants != [] { GrantPassSize(devices, grants[..|grants| - 1]); }
  }

  lemma {:induction false} GrantPassRow(devices: seq<Device>, grants: seq<OAuthGrant>, r: nat)
    requires r < |GrantPass(devices, grants)|
    ensures Granted(devices, grants, r, GrantPass(devices, grants)[r])
  {
    if grants == [] {
    } else {
      var n, h, g := |grants| - 1, grants[..|grants| - 1], grants[|grants| - 1];
      var rows := GrantPass(devices, h);
      GrantPassSize(devices, h);
      GrantsGrow(devices, grants, r);
      if r < |rows| { GrantPassRow(devices, h, r); }
      var row := GrantPass(devices, grants)[r];
      if RowOfGrant(devices, grants, n) == r {
        assert Shows(row, grants[n], false);
        assert FromGrant(devices, grants, r, row, false);
        if r == |rows| { GrantFits(devices, grants, r); }
      } else if HasGrant(devices, grants, r) {
        FromGrantGrows(devices, grants, r, row);
      }
    }
  }

  /** Every grant lands in a row that exists. */
  lemma {:induction false} GrantFits(devices: seq<Device>, grants: seq<OAuthGrant>, r: nat)
    ensures HasGrant(devices, grants, r) ==> r < |GrantPass(devices, grants)|
  {
    if grants != [] {
      GrantFits(devices, grants[..|grants| - 1], r);
      GrantsGrow(devices, grants, r);
      GrantPassSize(devices, grants);
      GrantPassSize(devices, grants[..|grants| - 1]);
    }
  }

  lemma {:induction false} GrantPassTimes(devices: seq<Device>, grants: seq<OAuthGrant>, r: nat)
    requires Dated(grants, []) && r < |GrantPass(devices, grants)|
    ensures Timed(GrantPass(devices, grants)[r], DeviceMoments(devices, r) + GrantMoments(devices, grants, r))
  {
    if grants == [] {
      assert GrantPass(devices, grants)[r] == DeviceRow(devices[r]);
      assert Moment(devices[r].createdAt, devices[r].lastAccess) in DeviceMoments(devices, r);
    } else {
      var n, h, g := |grants| - 1, grants[..|grants| - 1], grants[|grants| - 1];
      var rows, m := GrantPass(devices, h), Moment(Some(g.createdAt), Some(g.lastAccess));
      GrantPassSize(devices, h);
      GrantsGrow(devices, grants, r);
      var before := DeviceMoments(devices, r) + GrantMoments(devices, h, r);
      if r < |rows| {
        GrantPassTimes(devices, h, r);
        if RowOfGrant(devices, grants, n) == r {
          MomentAdded(rows[r], before, g.createdAt, g.lastAccess, GrantPass(devices, grants)[r]);
          assert before + {m} == DeviceMoments(devices, r) + GrantMoments(devices, grants, r);
        }
      } else {
        GrantFits(devices, h, r);
        assert GrantMoments(devices, h, r) == {};
        assert m in GrantMoments(devices, grants, r);
      }
    }
  }

  // ---- the session pass ----

  /** What the session pass leaves alone. */
  ghost predicate Kept(devices: seq<Device>, grants: seq<OAuthGrant>, r: nat, row: Data) {
    row.deviceId == (if r < |devices| then Some(devices[r].id) else None)
    && row.kind == GrantedKind(devices, grants, r)
    && (r < |devices| && Truthy(devices[r].name) ==> row.name == devices[r].name)
  }

  ghost predicate HoldsCurrent(
      devices: seq<Device>, grants: seq<OAuthGrant>, sessions: seq<Session>, current: string, r: nat) {
    exists k :: 0 <= k < |sessions| && RowOfSession(devices, grants, sessions, k) == r && sessions[k].id == current
  }

  /** A device keeps its own pointer, and every session in the row has that id. */
  ghost predicate SessionShown(
      devices: seq<Device>, grants: seq<OAuthGrant>, sessions: seq<Session>, r: nat, row: Data) {
    (r < |devices| ==> row.sessionId == devices[r].sessionId)
    && (r >= |devices| && !HasSession(devices, grants, sessions, r) ==> row.sessionId == None)
    && forall k :: 0 <= k < |sessions| && RowOfSession(devices, grants, sessions, k) == r ==> row.sessionId == Some(sessions[k].id)
  }

  /** A row with a session in it never names a scope. */
  ghost predicate GrantShown(devices: seq<Device>, grants: seq<OAuthGrant>, sessions: seq<Session>, r: nat, row: Data) {
    if HasGrant(devices, grants, r) then
      FromGrant(devices, grants, r, row, HasSession(devices, grants, sessions, r))
    else
      row.refreshId == None && row.clientId == None && row.scope == None
  }

  lemma RowOfSessionInPrefix(devices: seq<Device>, grants: seq<OAuthGrant>, sessions: seq<Session>, n: nat, k: nat)
    requires k < n <= |sessions|
    ensures RowOfSession(devices, grants, sessions[..n], k) == RowOfSession(devices, grants, sessions, k)
  {
    assert sessions[..n][..k] == sessions[..k];
  }

  lemma SessionsGrow(devices: seq<Device>, grants: seq<OAuthGrant>, sessions: seq<Session>, r: nat)
    requires sessions != []
    ensures HasSession(devices, grants, sessions, r)
            <==> HasSession(devices, grants, sessions[..|sessions| - 1], r)
                 || RowOfSession(devices, grants, sessions, |sessions| - 1) == r
  {
    var n, h := |sessions| - 1, sessions[..|sessions| - 1];
    forall k: nat | k < n { RowOfSessionInPrefix(devices, grants, sessions, n, k); }
    if HasSession(devices, grants, h, r) {
      var k :| 0 <= k < |h| && RowOfSession(devices, grants, h, k) == r;
      assert RowOfSession(devices, grants, sessions, k) == r;
    }
  }

  lemma CurrentGrows(devices: seq<Device>, grants: seq<OAuthGrant>, sessions: seq<Session>, current: string, r: nat)
    requires sessions != []
    ensures HoldsCurrent(devices, grants, sessions, current, r)
            <==> HoldsCurrent(devices, grants, sessions[..|sessions| - 1], current, r)
                 || (RowOfSession(devices, grants, sessions, |sessions| - 1) == r && sessions[|sessions| - 1].id == current)
  {
    var n, h := |sessions| - 1, sessions[..|sessions| - 1];
    forall k: nat | k < n { RowOfSessionInPrefix(devices, grants, sessions, n, k); }
    if HoldsCurrent(devices, grants, h, current, r) {
      var k :| 0 <= k < |h| && RowOfSession(devices, grants, h, k) == r && h[k].id == current;
      assert RowOfSession(devices, grants, sessions, k) == r;
    }
  }

  lemma SessionMomentsGrow(devices: seq<Device>, grants: seq<OAuthGrant>, sessions: seq<Session>, r: nat)
    requires sessions != []
    ensures var n := |sessions| - 1;
            SessionMoments(devices, grants, sessions, r) == SessionMoments(devices, grants, sessions[..n], r)
            + (if RowOfSession(devices, grants, sessions, n) == r
               then {Moment(Some(sessions[n].createdAt), Some(sessions[n].lastAccess))} else {})
  {
    var n := |sessions| - 1;
    forall k: nat | k < n { RowOfSessionInPrefix(devices, grants, sessions, n, k); }
  }

  function Passed(devices: seq<Device>, grants: seq<OAuthGrant>, sessions: seq<Session>, current: string): seq<Data> {
    SessionPass(devices, GrantPass(devices, grants), sessions, current)
  }

  lemma {:induction false} PassedSize(
      devices: seq<Device>, grants: seq<OAuthGrant>, sessions: seq<Session>, current: string)
    ensures |Passed(devices, grants, sessions, current)|
            == |devices| + UnclaimedGrants(devices, grants) + UnclaimedSessions(devices, sessions)
  {
    if sessions == [] { GrantPassSize(devices, grants); }
    else { PassedSize(devices, grants, sessions[..|sessions| - 1], current); }
  }

  lemma {:induction false} SessionFits(
      devices: seq<Device>, grants: seq<OAuthGrant>, sessions: seq<Session>, current: string, r: nat)
    ensures HasSession(devices, grants, sessions, r) ==> r < |Passed(devices, grants, sessions, current)|
  {
    if sessions != [] {
      SessionFits(devices, grants, sessions[..|sessions| - 1], current, r);
      SessionsGrow(devices, grants, sessions, r);
      PassedSize(devices, grants, sessions, current);
      PassedSize(devices, grants, sessions[..|sessions| - 1], current);
    }
  }

  lemma {:induction false} PassedKept(
      devices: seq<Device>, grants: seq<OAuthGrant>, sessions: seq<Session>, current: string, r: nat)
    requires r < |Passed(devices, grants, sessions, current)|
    ensures Kept(devices, grants, r, Passed(devices, grants, sessions, current)[r])
  {
    if sessions == [] {
      GrantPassRow(devices, grants, r);
    } else {
      var h := sessions[..|sessions| - 1];
      PassedSize(devices, grants, h, current);
      if r < |Passed(devices, grants, h, current)| { PassedKept(devices, grants, h, current, r); }
      else { GrantFits(devices, grants, r); }
    }
  }

  lemma SessionShownGrows(devices: seq<Device>, grants: seq<OAuthGrant>, sessions: seq<Session>, r: nat, row: Data)
    requires sessions != []
    requires r < |devices| ==> row.sessionId == devices[r].sessionId
    requires r >= |devices| && !HasSession(devices, grants, sessions, r) ==> row.sessionId == None
    requires HasSession(devices, grants, sessions[..|sessions| - 1], r) ==>
               SessionShown(devices, grants, sessions[..|sessions| - 1], r, row)
    requires RowOfSession(devices, grants, sessions, |sessions| - 1) == r ==> row.sessionId == Some(sessions[|sessions| - 1].id)
    ensures SessionShown(devices, grants, sessions, r, row)
  {
    var n, h := |sessions| - 1, sessions[..|sessions| - 1];
    forall k | 0 <= k < |sessions| && RowOfSession(devices, grants, sessions, k) == r
      ensures row.sessionId == Some(sessions[k].id)
    {
      if k < n {
        RowOfSessionInPrefix(devices, grants, sessions, n, k);
        assert HasSession(devices, grants, h, r);
        assert row.sessionId == Some(h[k].id);
      }
    }
  }

  lemma {:induction false} PassedSession(
      devices: seq<Device>, grants: seq<OAuthGrant>, sessions: seq<Session>, current: string, r: nat)
    requires r < |Passed(devices, grants, sessions, current)|
    ensures SessionShown(devices, grants, sessions, r, Passed(devices, grants, sessions, current)[r])
  {
    if sessions == [] {
      GrantPassRow(devices, grants, r);
    } else {
      var n, h := |sessions| - 1, sessions[..|sessions| - 1];
      PassedSize(devices, grants, h, current);
      SessionsGrow(devices, grants, sessions, r);
      var row := Passed(devices, grants, sessions, current)[r];
      if r < |Passed(devices, grants, h, current)| {
        PassedSession(devices, grants, h, current, r);
        assert row.sessionId == Passed(devices, grants, h, current)[r].sessionId;
      } else {
        SessionFits(devices, grants, h, current, r);
      }
      assert RowOfSession(devices, grants, sessions, n) == r ==> row.sessionId == Some(sessions[n].id);
      SessionShownGrows(devices, grants, sessions, r, row);
    }
  }

  lemma {:induction false} PassedCurrent(
      devices: seq<Device>, grants: seq<OAuthGrant>, sessions: seq<Session>, current: string, r: nat)
    requires r < |Passed(devices, grants, sessions, current)|
    ensures Passed(devices, grants, sessions, current)[r].isCurrent <==> HoldsCurrent(devices, grants, sessions, current, r)
  {
    if sessions == [] {
      GrantPassRow(devices, grants, r);
    } else {
      var n, h := |sessions| - 1, sessions[..|sessions| - 1];
      PassedSize(devices, grants, h, current);
      CurrentGrows(devices, grants, sessions, current, r);
      if r < |Passed(devices, grants, h, current)| {
        PassedCurrent(devices, grants, h, current, r);
        PassedSession(devices, grants, h, current, r);
      } else {
        SessionFits(devices, grants, h, current, r);
      }
    }
  }

  lemma {:induction false} PassedGrant(
      devices: seq<Device>, grants: seq<OAuthGrant>, sessions: seq<Session>, current: string, r: nat)
    requires r < |Passed(devices, grants, sessions, current)|
    ensures GrantShown(devices, grants, sessions, r, Passed(devices, grants, sessions, current)[r])
  {
    if sessions == [] {
      GrantPassRow(devices, grants, r);
    } else {
      var n, h := |sessions| - 1, sessions[..|sessions| - 1];
      PassedSize(devices, grants, h, current);
      SessionsGrow(devices, grants, sessions, r);
      if r < |Passed(devices, grants, h, current)| {
        PassedGrant(devices, grants, h, current, r);
        if RowOfSession(devices, grants, sessions, n) == r && HasGrant(devices, grants, r) {
          ScopeHidden(devices, grants, r, Passed(devices, grants, h, current)[r],
                      HasSession(devices, grants, h, r), Passed(devices, grants, sessions, current)[r]);
        }
      } else {
        GrantFits(devices, grants, r);
      }
    }
  }

  lemma ScopeHidden(devices: seq<Device>, grants: seq<OAuthGrant>, r: nat, row: Data, hidden: bool, out: Data)
    requires FromGrant(devices, grants, r, row, hidden)
    requires out.refreshId == row.refreshId && out.clientId == row.clientId && out.scope == None
    ensures FromGrant(devices, grants, r, out, true)
  {
    var k :| 0 <= k < |grants| && RowOfGrant(devices, grants, k) == r && Shows(row, grants[k], hidden);
    assert Shows(out, grants[k], true);
  }

  lemma {:induction false} PassedTimes(
      devices: seq<Device>, grants: seq<OAuthGrant>, sessions: seq<Session>, current: string, r: nat)
    requires Dated(grants, sessions) && r < |Passed(devices, grants, sessions, current)|
    ensures Timed(Passed(devices, grants, sessions, current)[r], Moments(devices, grants, sessions, r))
  {
    if sessions == [] {
      GrantPassTimes(devices, grants, r);
      assert SessionMoments(devices, grants, sessions, r) == {};
      assert Moments(devices, grants, sessions, r) == DeviceMoments(devices, r) + GrantMoments(devices, grants, r);
    } else {
      var n, h, s := |sessions| - 1, sessions[..|sessions| - 1], sessions[|sessions| - 1];
      var rows, m := Passed(devices, grants, h, current), Moment(Some(s.createdAt), Some(s.lastAccess));
      PassedSize(devices, grants, h, current);
      SessionMomentsGrow(devices, grants, sessions, r);
      MomentsGrow(devices, grants, sessions, current, r);
      if r < |rows| {
        PassedTimes(devices, grants, h, current, r);
        if RowOfSession(devices, grants, sessions, n) == r {
          MomentAdded(rows[r], Moments(devices, grants, h, r), s.createdAt, s.lastAccess,
                      Passed(devices, grants, sessions, current)[r]);
        }
      } else {
        assert m in {m};
      }
    }
  }

  /** What the last session adds to the times of a row. */
  lemma MomentsGrow(
      devices: seq<Device>, grants: seq<OAuthGrant>, sessions: seq<Session>, current: string, r: nat)
    requires sessions != [] && r < |Passed(devices, grants, sessions, current)|
    ensures var n, h := |sessions| - 1, sessions[..|sessions| - 1];
            var m := Moment(Some(sessions[n].createdAt), Some(sessions[n].lastAccess));
            Moments(devices, grants, sessions, r)
            == if r >= |Passed(devices, grants, h, current)| then {m}
               else Moments(devices, grants, h, r) + if RowOfSession(devices, grants, sessions, n) == r then {m} else {}
  {
    var h := sessions[..|sessions| - 1];
    PassedSize(devices, grants, h, current);
    SessionMomentsGrow(devices, grants, sessions, r);
    if r >= |Passed(devices, grants, h, current)| {
      SessionFits(devices, grants, h, current, r);
      GrantFits(devices, grants, r);
    }
  }

  // ---- the whole merge ----

  /** One row per device, per grant no device claims, and per session no device claims. */
  lemma MergedSize(devices: seq<Device>, grants: seq<OAuthGrant>, sessions: seq<Session>, current: string)
    ensures |Merged(devices, grants, sessions, current)|
            == |devices| + UnclaimedGrants(devices, grants) + UnclaimedSessions(devices, sessions)
  {
    PassedSize(devices, grants, sessions, current);
  }

  /** A row's creation is the earliest, and its last access the latest, of all that landed in it. */
  lemma MergedTimes(
      devices: seq<Device>, grants: seq<OAuthGrant>, sessions: seq<Session>, current: string, r: nat)
    requires Dated(grants, sessions) && r < |Merged(devices, grants, sessions, current)|
    ensures Timed(Merged(devices, grants, sessions, current)[r], Moments(devices, grants, sessions, r))
  {
    PassedTimes(devices, grants, sessions, current, r);
  }

  /** A row is flagged exactly when the current session is in it. */
  lemma MergedCurrent(
      devices: seq<Device>, grants: seq<OAuthGrant>, sessions: seq<Session>, current: string, r: nat)
    requires r < |Merged(devices, grants, sessions, current)|
    ensures Merged(devices, grants, sessions, current)[r].isCurrent
            <==> HoldsCurrent(devices, grants, sessions, current, r)
  {
    PassedCurrent(devices, grants, sessions, current, r);
  }

  /**
   * A scope is shown exactly where a grant and no session landed; a device with no kind is a mobile one exactly
   * where a grant landed, and a desktop otherwise.
   */
  lemma MergedShows(
      devices: seq<Device>, grants: seq<OAuthGrant>, sessions: seq<Session>, current: string, r: nat)
    requires r < |Merged(devices, grants, sessions, current)|
    ensures var row := Merged(devices, grants, sessions, current)[r];
            (row.scope.Some? <==> HasGrant(devices, grants, r) && !HasSession(devices, grants, sessions, r))
            && (row.clientId.Some? <==> HasGrant(devices, grants, r))
            && (row.deviceId.Some? <==> r < |devices|)
            && (r < |devices| && devices[r].id != "" && !Truthy(devices[r].kind) ==>
                  row.kind == Some(if HasGrant(devices, grants, r) then "mobile" else "desktop"))
            && (r < |devices| && Truthy(devices[r].kind) ==> row.kind == devices[r].kind)
            && (r < |devices| && Truthy(devices[r].name) ==> row.name == Some(Rebrand(devices[r].name.value)))
  {
    PassedKept(devices, grants, sessions, current, r);
    PassedGrant(devices, grants, sessions, current, r);
  }

  /** Ids are distinct, and no two devices point at the same token. */
  ghost predicate Distinct(devices: seq<Device>, grants: seq<OAuthGrant>, sessions: seq<Session>) {
    (forall i, j :: 0 <= i < j < |devices| ==> Apart(devices[i], devices[j]))
    && (forall k :: 0 <= k < |grants| ==> Truthy(grants[k].refreshId))
    && (forall k, l :: 0 <= k < l < |grants| ==> grants[k].refreshId != grants[l].refreshId)
    && (forall k :: 0 <= k < |sessions| ==> sessions[k].id != "")
    && forall k, l :: 0 <= k < l < |sessions| ==> sessions[k].id != sessions[l].id
  }

  predicate Apart(d: Device, e: Device) {
    d.id != e.id
    && (Truthy(d.refreshId) ==> d.refreshId != e.refreshId)
    && (Truthy(d.sessionId) ==> d.sessionId != e.sessionId)
  }

  lemma {:induction false} UnclaimedGrantsGrow(devices: seq<Device>, grants: seq<OAuthGrant>, k: nat, l: nat)
    requires k < l <= |grants| && RefreshOwner(devices, grants[k].refreshId).None?
    ensures UnclaimedGrants(devices, grants[..k]) < UnclaimedGrants(devices, grants[..l])
  {
    assert grants[..l][..l - 1] == grants[..l - 1];
    if k < l - 1 { UnclaimedGrantsGrow(devices, grants, k, l - 1); }
  }

  lemma {:induction false} UnclaimedSessionsGrow(devices: seq<Device>, sessions: seq<Session>, k: nat, l: nat)
    requires k < l <= |sessions| && SessionOwner(devices, sessions[k].id).None?
    ensures UnclaimedSessions(devices, sessions[..k]) < UnclaimedSessions(devices, sessions[..l])
  {
    assert sessions[..l][..l - 1] == sessions[..l - 1];
    if k < l - 1 { UnclaimedSessionsGrow(devices, sessions, k, l - 1); }
  }

  /** No two grants share a row, and no two sessions do. */
  lemma RowsAreApart(devices: seq<Device>, grants: seq<OAuthGrant>, sessions: seq<Session>)
    requires Distinct(devices, grants, sessions)
    ensures forall k, l :: 0 <= k < l < |grants| ==> RowOfGrant(devices, grants, k) != RowOfGrant(devices, grants, l)
    ensures forall k, l :: 0 <= k < l < |sessions| ==>
              RowOfSession(devices, grants, sessions, k) != RowOfSession(devices, grants, sessions, l)
  {
    forall k, l | 0 <= k < l < |grants| ensures RowOfGrant(devices, grants, k) != RowOfGrant(devices, grants, l) {
      if RefreshOwner(devices, grants[k].refreshId).None? { UnclaimedGrantsGrow(devices, grants, k, l); }
    }
    forall k, l | 0 <= k < l < |sessions|
      ensures RowOfSession(devices, grants, sessions, k) != RowOfSession(devices, grants, sessions, l)
    {
      if SessionOwner(devices, sessions[k].id).None? { UnclaimedSessionsGrow(devices, sessions, k, l); }
    }
  }

  /** The row of a session that no device claims lies beyond every row a grant can be in. */
  lemma UnclaimedRowsAreApart(devices: seq<Device>, grants: seq<OAuthGrant>, sessions: seq<Session>, k: nat, l: nat)
    requires k < |grants| && l < |sessions| && RowOfGrant(devices, grants, k) == RowOfSession(devices, grants, sessions, l)
    ensures RowOfGrant(devices, grants, k) < |devices|
  {
    assert grants[..|grants|] == grants;
    if RefreshOwner(devices, grants[k].refreshId).None? { UnclaimedGrantsGrow(devices, grants, k, |grants|); }
  }

  /** The rows in which an input shows up, by its id. */
  ghost predicate OnlyIn(rows: seq<Data>, shows: Data -> bool, r: nat) {
    r < |rows| && forall i :: 0 <= i < |rows| ==> (shows(rows[i]) <==> i == r)
  }

  /** Each device is in exactly one row of the answer, and that row is at its own index. */
  lemma DevicesAreConserved(
      devices: seq<Device>, grants: seq<OAuthGrant>, sessions: seq<Session>, current: string, i: nat)
    requires Distinct(devices, grants, sessions) && i < |devices|
    ensures OnlyIn(Merged(devices, grants, sessions, current), (row: Data) => row.deviceId == Some(devices[i].id), i)
  {
    MergedSize(devices, grants, sessions, current);
    forall r: nat | r < |Merged(devices, grants, sessions, current)|
      ensures Merged(devices, grants, sessions, current)[r].deviceId == Some(devices[i].id) <==> r == i
    {
      PassedKept(devices, grants, sessions, current, r);
    }
  }

  /** Each grant's token is in exactly one row. */
  lemma GrantsAreConserved(
      devices: seq<Device>, grants: seq<OAuthGrant>, sessions: seq<Session>, current: string, k: nat)
    requires Distinct(devices, grants, sessions) && k < |grants|
    ensures OnlyIn(Merged(devices, grants, sessions, current), (row: Data) => row.refreshId == grants[k].refreshId,
                   RowOfGrant(devices, grants, k))
  {
    var rows, mine := Passed(devices, grants, sessions, current), RowOfGrant(devices, grants, k);
    assert HasGrant(devices, grants, mine);
    GrantFits(devices, grants, mine);
    RowsAreApart(devices, grants, sessions);
    forall r: nat | r < |rows| ensures rows[r].refreshId == grants[k].refreshId <==> r == mine {
      PassedGrant(devices, grants, sessions, current, r);
      if HasGrant(devices, grants, r) {
        var hidden := HasSession(devices, grants, sessions, r);
        var l :| 0 <= l < |grants| && RowOfGrant(devices, grants, l) == r && Shows(rows[r], grants[l], hidden);
        assert l == k <==> grants[l].refreshId == grants[k].refreshId;
      }
    }
  }

  /** Each session is in exactly one row, and the device that points at it is there too. */
  lemma SessionsAreConserved(
      devices: seq<Device>, grants: seq<OAuthGrant>, sessions: seq<Session>, current: string, k: nat)
    requires Distinct(devices, grants, sessions) && k < |sessions|
    ensures OnlyIn(Merged(devices, grants, sessions, current), (row: Data) => row.sessionId == Some(sessions[k].id),
                   RowOfSession(devices, grants, sessions, k))
  {
    var rows, mine := Passed(devices, grants, sessions, current), RowOfSession(devices, grants, sessions, k);
    assert HasSession(devices, grants, sessions, mine);
    SessionFits(devices, grants, sessions, current, mine);
    forall r: nat | r < |rows| ensures rows[r].sessionId == Some(sessions[k].id) <==> r == mine {
      PassedSession(devices, grants, sessions, current, r);
      if r < |devices| { PointersAreOwned(devices, r); }
      else if HasSession(devices, grants, sessions, r) {
        var l :| 0 <= l < |sessions| && RowOfSession(devices, grants, sessions, l) == r;
        assert rows[r].sessionId == Some(sessions[l].id);
      }
    }
  }

  /** A pointer no other device shares leads back to its device. */
  lemma {:induction false} PointersAreOwned(devices: seq<Device>, i: nat)
    requires i < |devices| && forall i, j :: 0 <= i < j < |devices| ==> Apart(devices[i], devices[j])
    ensures Truthy(devices[i].sessionId) ==> SessionOwner(devices, devices[i].sessionId.value) == Some(i)
    ensures Truthy(devices[i].refreshId) ==> RefreshOwner(devices, devices[i].refreshId) == Some(i)
  {
    if i < |devices| - 1 { PointersAreOwned(devices[..|devices| - 1], i); }
  }

  /** A grant, or a session, joins a device's row exactly when that device points at it. */
  lemma PointersDecide(devices: seq<Device>, grants: seq<OAuthGrant>, sessions: seq<Session>, i: nat)
    requires Distinct(devices, grants, sessions) && i < |devices|
    ensures forall k :: 0 <= k < |grants| ==>
              (RowOfGrant(devices, grants, k) == i <==> devices[i].refreshId == grants[k].refreshId)
    ensures forall k :: 0 <= k < |sessions| ==>
              (RowOfSession(devices, grants, sessions, k) == i <==> devices[i].sessionId == Some(sessions[k].id))
  {
    PointersAreOwned(devices, i);
  }

  /** When the caller's session is among the sessions, one row and no other is flagged as current. */
  lemma OneRowIsCurrent(
      devices: seq<Device>, grants: seq<OAuthGrant>, sessions: seq<Session>, current: string, k: nat)
    requires Distinct(devices, grants, sessions) && k < |sessions| && sessions[k].id == current
    ensures OnlyIn(Merged(devices, grants, sessions, current), (row: Data) => row.isCurrent,
                   RowOfSession(devices, grants, sessions, k))
  {
    var rows, mine := Passed(devices, grants, sessions, current), RowOfSession(devices, grants, sessions, k);
    assert HasSession(devices, grants, sessions, mine);
    SessionFits(devices, grants, sessions, current, mine);
    forall r: nat | r < |rows| ensures rows[r].isCurrent <==> r == mine {
      PassedCurrent(devices, grants, sessions, current, r);
      if HoldsCurrent(devices, grants, sessions, current, r) {
        var l :| 0 <= l < |sessions| && RowOfSession(devices, grants, sessions, l) == r && sessions[l].id == current;
        assert l == k;
      }
    }
  }

  /** Nothing is invented: past the devices every row holds one grant or one session, and not both. */
  lemma {:induction false} RowsAreAccountedFor(
      devices: seq<Device>, grants: seq<OAuthGrant>, sessions: seq<Session>, current: string, r: nat)
    requires |devices| <= r < |Merged(devices, grants, sessions, current)|
    ensures HasGrant(devices, grants, r) <==> !HasSession(devices, grants, sessions, r)
    ensures HasGrant(devices, grants, r) <==> r < |devices| + UnclaimedGrants(devices, grants)
  {
    PassedSize(devices, grants, sessions, current);
    GrantPassSize(devices, grants);
    GrantFits(devices, grants, r);
    if HasGrant(devices, grants, r) && HasSession(devices, grants, sessions, r) {
      var k :| 0 <= k < |grants| && RowOfGrant(devices, grants, k) == r;
      var l :| 0 <= l < |sessions| && RowOfSession(devices, grants, sessions, l) == r;
      UnclaimedRowsAreApart(devices, grants, sessions, k, l);
    }
    if r < |devices| + UnclaimedGrants(devices, grants) { EveryGrantRowIsUsed(devices, grants, r); }
    else { EverySessionRowIsUsed(devices, grants, sessions, r); }
  }

  lemma {:induction false} EveryGrantRowIsUsed(devices: seq<Device>, grants: seq<OAuthGrant>, r: nat)
    requires |devices| <= r < |devices| + UnclaimedGrants(devices, grants)
    ensures HasGrant(devices, grants, r)
  {
    var n := |grants| - 1;
    GrantsGrow(devices, grants, r);
    if r < |devices| + UnclaimedGrants(devices, grants[..n]) { EveryGrantRowIsUsed(devices, grants[..n], r); }
  }

  lemma {:induction false} EverySessionRowIsUsed(
      devices: seq<Device>, grants: seq<OAuthGrant>, sessions: seq<Session>, r: nat)
    requires var base := |devices| + UnclaimedGrants(devices, grants);
             base <= r < base + UnclaimedSessions(devices, sessions)
    ensures HasSession(devices, grants, sessions, r)
  {
    var n := |sessions| - 1;
    SessionsGrow(devices, grants, sessions, r);
    if r < |devices| + UnclaimedGrants(devices, grants) + UnclaimedSessions(devices, sessions[..n]) {
      EverySessionRowIsUsed(devices, grants, sessions[..n], r);
    }
  }
}
