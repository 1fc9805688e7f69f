/** What each row of the merged list shows, in terms of what landed in it. */
module AttachedRows {
  import opened Wrappers
  import opened AttachedClients
  import opened AttachedClientsTheorems

  // ---- what landed in a row ----

  function LastGrant(devices: seq<Device>, grants: seq<OAuthGrant>, r: nat): Option<OAuthGrant> {
    if grants == [] then None
    else if RowOfGrant(devices, grants, |grants| - 1) == r then Some(grants[|grants| - 1])
    else LastGrant(devices, grants[..|grants| - 1], r)
  }

  function LastSession(devices: seq<Device>, grants: seq<OAuthGrant>, sessions: seq<Session>, r: nat): Option<Session> {
    if sessions == [] then None
    else if RowOfSession(devices, grants, sessions, |sessions| - 1) == r then Some(sessions[|sessions| - 1])
    else LastSession(devices, grants, sessions[..|sessions| - 1], r)
  }

  /** The names that are offered for a row, in order: the device's own, those of its grants' clients, and what its sessions
      synthesize. */
  function GrantNames(devices: seq<Device>, grants: seq<OAuthGrant>, r: nat): seq<Option<string>> {
    if grants == [] then if r < |devices| then [devices[r].name] else []
    else
      GrantNames(devices, grants[..|grants| - 1], r)
      + if RowOfGrant(devices, grants, |grants| - 1) == r then [Some(grants[|grants| - 1].clientName)] else []
  }

  function AllNames(devices: seq<Device>, grants: seq<OAuthGrant>, sessions: seq<Session>, r: nat): seq<Option<string>> {
    if sessions == [] then GrantNames(devices, grants, r)
    else
      AllNames(devices, grants, sessions[..|sessions| - 1], r)
      + if RowOfSession(devices, grants, sessions, |sessions| - 1) == r then [Some(sessions[|sessions| - 1].synthesized)] else []
  }

  /** The first name that says something, or else the last that was offered. */
  function Chosen(names: seq<Option<string>>): Option<string> {
    if names == [] then None
    else
      var before := Chosen(names[..|names| - 1]);
      if Truthy(before) then before else names[|names| - 1]
  }

  lemma {:induction false} ChosenIsFirst(names: seq<Option<string>>)
    ensures if exists i :: 0 <= i < |names| && Truthy(names[i]) then
              exists i :: 0 <= i < |names| && Truthy(names[i]) && Chosen(names) == names[i]
                          && forall j :: 0 <= j < i ==> !Truthy(names[j])
            else !Truthy(Chosen(names))
  {
    if names != [] {
      var init := names[..|names| - 1];
      ChosenIsFirst(init);
      assert forall i :: 0 <= i < |init| ==> init[i] == names[i];
      if forall i :: 0 <= i < |init| ==> !Truthy(init[i]) {
        if Truthy(names[|init|]) { assert Chosen(names) == names[|init|]; }
      } else {
        var i :| 0 <= i < |init| && Truthy(init[i]) && Chosen(init) == init[i] && forall j :: 0 <= j < i ==> !Truthy(init[j]);
        assert Truthy(names[i]) && Chosen(names) == names[i];
      }
    }
  }

  lemma ChosenGrows(names: seq<Option<string>>, name: Option<string>)
    ensures Chosen(names + [name]) == if Truthy(Chosen(names)) then Chosen(names) else name
  {
    assert (names + [name])[..|names|] == names;
  }

  lemma ChosenSame(names: seq<Option<string>>)
    ensures Chosen(names + []) == Chosen(names)
  {
    assert names + [] == names;
  }

  // ---- a row after the passes ----

  /** The client, the token and the scope are those of the last grant; a row without one names none. */
  predicate OfGrant(row: Data, g: Option<OAuthGrant>, hidden: bool) {
    match g
    case Some(g) =>
      row.clientId == Some(g.clientId) && row.refreshId == g.refreshId && row.scope == if hidden then None else Some(g.scope)
    case None => row.clientId == None && row.refreshId == None && row.scope == None
  }

  /** The agent and the system are those of the last session. */
  predicate OfSession(row: Data, s: Option<Session>) {
    match s
    case Some(s) => row.userAgent == s.userAgent && row.os == if Truthy(s.os) then s.os else None
    case None => row.userAgent == "" && row.os == None
  }

  lemma RowNotReached(devices: seq<Device>, grants: seq<OAuthGrant>, r: nat)
    requires r >= |GrantPass(devices, grants)|
    ensures LastGrant(devices, grants, r) == None && GrantNames(devices, grants, r) == []
  {
    if grants != [] {
      GrantPassSize(devices, grants);
      GrantPassSize(devices, grants[..|grants| - 1]);
      RowNotReached(devices, grants[..|grants| - 1], r);
    }
  }

  lemma {:induction false} GrantPassShows(devices: seq<Device>, grants: seq<OAuthGrant>, r: nat)
    requires r < |GrantPass(devices, grants)|
    ensures var row := GrantPass(devices, grants)[r];
            OfGrant(row, LastGrant(devices, grants, r), false) && OfSession(row, None)
            && row.name == Chosen(GrantNames(devices, grants, r))
  {
    if grants == [] {
      assert GrantNames(devices, grants, r) == [devices[r].name];
      assert [devices[r].name][..0] == [];
    } else {
      var h, g := grants[..|grants| - 1], grants[|grants| - 1];
      GrantPassSize(devices, h);
      if r < |GrantPass(devices, h)| { GrantPassShows(devices, h, r); } else { RowNotReached(devices, h, r); }
      ChosenGrows(GrantNames(devices, h, r), Some(g.clientName));
      ChosenSame(GrantNames(devices, h, r));
    }
  }

  lemma SessionRowNotReached(devices: seq<Device>, grants: seq<OAuthGrant>, sessions: seq<Session>, current: string, r: nat)
    requires r >= |Passed(devices, grants, sessions, current)|
    ensures LastSession(devices, grants, sessions, r) == None && LastGrant(devices, grants, r) == None
    ensures AllNames(devices, grants, sessions, r) == []
  {
    PassedSize(devices, grants, sessions, current);
    if sessions == [] {
      GrantPassSize(devices, grants);
      RowNotReached(devices, grants, r);
    } else {
      PassedSize(devices, grants, sessions[..|sessions| - 1], current);
      SessionRowNotReached(devices, grants, sessions[..|sessions| - 1], current, r);
    }
  }

  lemma {:induction false} PassedShows(
      devices: seq<Device>, grants: seq<OAuthGrant>, sessions: seq<Session>, current: string, r: nat)
    requires r < |Passed(devices, grants, sessions, current)|
    ensures var row, s := Passed(devices, grants, sessions, current)[r], LastSession(devices, grants, sessions, r);
            OfGrant(row, LastGrant(devices, grants, r), s.Some?) && OfSession(row, s)
            && row.name == Chosen(AllNames(devices, grants, sessions, r))
  {
    if sessions == [] {
      GrantPassShows(devices, grants, r);
    } else {
      var h, s := sessions[..|sessions| - 1], sessions[|sessions| - 1];
      PassedSize(devices, grants, h, current);
      if r < |Passed(devices, grants, h, current)| { PassedShows(devices, grants, h, current, r); }
      else { SessionRowNotReached(devices, grants, h, current, r); }
      ChosenGrows(AllNames(devices, grants, h, r), Some(s.synthesized));
      ChosenSame(AllNames(devices, grants, h, r));
    }
  }

  /** What a row of the answer shows: client, token and scope of the last grant in it, the scope only without a session; agent
      and system of the last session in it; and the first name on offer that says something, rebranded. */
  lemma MergedRowShows(
      devices: seq<Device>, grants: seq<OAuthGrant>, sessions: seq<Session>, current: string, r: nat)
    requires r < |Merged(devices, grants, sessions, current)|
    ensures var row, s := Merged(devices, grants, sessions, current)[r], LastSession(devices, grants, sessions, r);
            var name := Chosen(AllNames(devices, grants, sessions, r));
            OfGrant(row, LastGrant(devices, grants, r), s.Some?) && OfSession(row, s)
            && row.name == if Truthy(name) then Some(Rebrand(name.value)) else name
  {
    PassedShows(devices, grants, sessions, current, r);
  }

  // ---- rebranding ----

  const OLD_BRAND: string := "Mac OS X"

  predicate Branded(s: string) {
    exists i :: 0 <= i <= |s| && OLD_BRAND <= s[i..]
  }

  lemma BrandedTail(s: string)
    requires s != ""
    ensures Branded(s[1..]) ==> Branded(s)
  {
    if i :| 0 <= i <= |s| - 1 && OLD_BRAND <= s[1..][i..] {
      assert s[1..][i..] == s[i + 1..];
    }
  }

  /** A name without the old brand is shown as it is, */
  lemma {:induction false} RebrandKeeps(s: string)
    requires !Branded(s)
    ensures Rebrand(s) == s
  {
    if s != "" {
      assert s[0..] == s;
      BrandedTail(s);
      RebrandKeeps(s[1..]);
    }
  }

  /** and the first place that has it is replaced. */
  lemma {:induction false} RebrandReplaces(before: string, after: string)
    requires forall i :: 0 <= i < |before| ==> !(OLD_BRAND <= (before + OLD_BRAND + after)[i..])
    ensures Rebrand(before + OLD_BRAND + after) == before + "macOS" + Rebrand(after)
  {
    var s := before + OLD_BRAND + after;
    if before == "" {
      assert s == OLD_BRAND + after && s[8..] == after;
    } else {
      assert s[0..] == s && s[1..] == before[1..] + OLD_BRAND + after;
      forall i | 0 <= i < |before| - 1 ensures !(OLD_BRAND <= (before[1..] + OLD_BRAND + after)[i..]) {
        assert s[1..][i..] == s[i + 1..];
      }
      RebrandReplaces(before[1..], after);
    }
  }
}
