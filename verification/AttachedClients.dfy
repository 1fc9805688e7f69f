/** Devices, OAuth grants and sessions merged into one list of attached clients. */
module AttachedClients {
  import opened Sequences
  import opened Wrappers

  datatype Device = Device(
    id: string, sessionId: Option<string>, refreshId: Option<string>, name: Option<string>,
    kind: Option<string>, createdAt: Option<int>, lastAccess: Option<int>)

  datatype OAuthGrant = OAuthGrant(
    clientId: string, clientName: string, refreshId: Option<string>, createdAt: int, lastAccess: int, scope: seq<string>)

  /** A session, with what its User-Agent was read as. */
  datatype Session = Session(
    id: string, createdAt: int, lastAccess: int, userAgent: string, os: Option<string>, synthesized: string)

  /** One row of the answer. */
  datatype Data = Data(
    clientId: Option<string>, deviceId: Option<string>, sessionId: Option<string>, refreshId: Option<string>,
    isCurrent: bool, kind: Option<string>, name: Option<string>, created: Option<int>, lastAccess: Option<int>,
    scope: Option<seq<string>>, userAgent: string, os: Option<string>)

  const DEFAULTS: Data := Data(None, None, None, None, false, None, None, None, Some(0), None, "", None)

  predicate Truthy(s: Option<string>) {
    s.Some? && s.value != ""
  }

  /** A missing or zero time is one not yet known. */
  predicate Known(t: Option<int>) {
    t.Some? && t.value != 0
  }

  function Earliest(current: Option<int>, candidate: int): int {
    if Known(current) && current.value < candidate then current.value else candidate
  }

  function Latest(current: Option<int>, candidate: int): int {
    if Known(current) && current.value > candidate then current.value else candidate
  }

  /** `replace("Mac OS X", "macOS")`. */
  function Rebrand(name: string): string {
    if name == "" then ""
    else if "Mac OS X" <= name then "macOS" + Rebrand(name[8..])
    else [name[0]] + Rebrand(name[1..])
  }

  // ---- what each pass does to a row ----

  function DeviceRow(d: Device): Data {
    DEFAULTS.(sessionId := d.sessionId, deviceId := Some(d.id), kind := d.kind, name := d.name,
              created := d.createdAt, lastAccess := d.lastAccess)
  }

  function GrantRow(g: OAuthGrant): Data {
    DEFAULTS.(created := Some(g.createdAt), lastAccess := Some(g.lastAccess))
  }

  function AddGrant(row: Data, g: OAuthGrant): Data {
    row.(refreshId := g.refreshId,
         clientId := Some(g.clientId),
         scope := Some(g.scope),
         created := Some(Earliest(row.created, g.createdAt)),
         lastAccess := Some(Latest(row.lastAccess, g.lastAccess)),
         name := if Truthy(row.name) then row.name else Some(g.clientName),
         kind := if Truthy(row.deviceId) && !Truthy(row.kind) then Some("mobile") else row.kind)
  }

  function SessionRow(s: Session): Data {
    DEFAULTS.(sessionId := Some(s.id), created := Some(s.createdAt))
  }

  function AddSession(row: Data, s: Session, current: string): Data {
    row.(created := Some(Earliest(row.created, s.createdAt)),
         lastAccess := Some(Latest(row.lastAccess, s.lastAccess)),
         isCurrent := row.sessionId == Some(current),
         scope := None,
         userAgent := s.userAgent,
         os := if Truthy(s.os) then s.os else None,
         name := if Truthy(row.name) then row.name else Some(s.synthesized))
  }

  function Finish(row: Data): Data {
    row.(kind := if Truthy(row.deviceId) && !Truthy(row.kind) then Some("desktop") else row.kind,
         name := if Truthy(row.name) then Some(Rebrand(row.name.value)) else row.name)
  }

  // ---- who claims what ----

  /** The last device that carries this refresh token's id. */
  function RefreshOwner(devices: seq<Device>, id: Option<string>): (j: Option<nat>)
    ensures j.Some? ==> j.value < |devices| && Truthy(id) && devices[j.value].refreshId == id
  {
    if devices == [] || !Truthy(id) then None
    else if devices[|devices| - 1].refreshId == id then Some(|devices| - 1)
    else RefreshOwner(devices[..|devices| - 1], id)
  }

  function SessionOwner(devices: seq<Device>, id: string): (j: Option<nat>)
    ensures j.Some? ==> j.value < |devices| && devices[j.value].sessionId == Some(id)
  {
    if devices == [] || id == "" then None
    else if devices[|devices| - 1].sessionId == Some(id) then Some(|devices| - 1)
    else SessionOwner(devices[..|devices| - 1], id)
  }

  /** The rows after the device pass. */
  function DeviceRows(devices: seq<Device>): seq<Data> {
    seq(|devices|, i requires 0 <= i < |devices| => DeviceRow(devices[i]))
  }

  /** And after the grant pass. */
  function GrantPass(devices: seq<Device>, grants: seq<OAuthGrant>): (rows: seq<Data>)
    ensures |rows| >= |devices|
  {
    if grants == [] then DeviceRows(devices)
    else
      var rows, g := GrantPass(devices, grants[..|grants| - 1]), grants[|grants| - 1];
      match RefreshOwner(devices, g.refreshId)
      case Some(j) => rows[j := AddGrant(rows[j], g)]
      case None => rows + [AddGrant(GrantRow(g), g)]
  }

  /** And after the session pass. */
  function SessionPass(devices: seq<Device>, rows: seq<Data>, sessions: seq<Session>, current: string): (out: seq<Data>)
    requires |rows| >= |devices|
    ensures |out| >= |rows|
  {
    if sessions == [] then rows
    else
      var before, s := SessionPass(devices, rows, sessions[..|sessions| - 1], current), sessions[|sessions| - 1];
      match SessionOwner(devices, s.id)
      case Some(j) => before[j := AddSession(before[j], s, current)]
      case None => before + [AddSession(SessionRow(s), s, current)]
  }

  function FinishAll(rows: seq<Data>): seq<Data> {
    seq(|rows|, i requires 0 <= i < |rows| => Finish(rows[i]))
  }

  function Merged(devices: seq<Device>, grants: seq<OAuthGrant>, sessions: seq<Session>, current: string): seq<Data> {
    FinishAll(SessionPass(devices, GrantPass(devices, grants), sessions, current))
  }

  // ---- the merge, with rows shared between the list and the two lookups ----

  class ClientRow {
    var data: Data

    constructor (data: Data)
      ensures this.data == data
    {
      this.data := data;
    }
  }

  ghost predicate Rows(clients: seq<ClientRow>, rows: seq<Data>)
    reads clients
  {
    |clients| == |rows|
    && (forall i :: 0 <= i < |clients| ==> clients[i].data == rows[i])
    && forall i, j :: 0 <= i < j < |clients| ==> clients[i] != clients[j]
  }

  /** The lookup by refresh token holds, for each id, the row of the device that owns it. */
  ghost predicate RefreshIndex(devices: seq<Device>, clients: seq<ClientRow>, index: map<string, ClientRow>)
    requires |clients| >= |devices|
  {
    forall id: string ::
      (id in index <==> RefreshOwner(devices, Some(id)).Some?)
      && (id in index ==> index[id] == clients[RefreshOwner(devices, Some(id)).value])
  }

  ghost predicate SessionIndex(devices: seq<Device>, clients: seq<ClientRow>, index: map<string, ClientRow>)
    requires |clients| >= |devices|
  {
    forall id: string ::
      (id in index <==> SessionOwner(devices, id).Some?)
      && (id in index ==> index[id] == clients[SessionOwner(devices, id).value])
  }

  lemma RefreshOwnerGrows(devices: seq<Device>, i: nat, id: string)
    requires i < |devices|
    ensures RefreshOwner(devices[..i + 1], Some(id))
            == if id != "" && devices[i].refreshId == Some(id) then Some(i) else RefreshOwner(devices[..i], Some(id))
  {
    assert devices[..i + 1][..i] == devices[..i];
  }

  lemma SessionOwnerGrows(devices: seq<Device>, i: nat, id: string)
    requires i < |devices|
    ensures SessionOwner(devices[..i + 1], id)
            == if id != "" && devices[i].sessionId == Some(id) then Some(i) else SessionOwner(devices[..i], id)
  {
    assert devices[..i + 1][..i] == devices[..i];
  }

  lemma RefreshIndexGrows(devices: seq<Device>, i: nat, clients: seq<ClientRow>, index: map<string, ClientRow>, client: ClientRow)
    requires i < |devices| && |clients| == i && RefreshIndex(devices[..i], clients, index)
    ensures var id := devices[i].refreshId;
            RefreshIndex(devices[..i + 1], clients + [client], if Truthy(id) then index[id.value := client] else index)
  {
    forall id: string { RefreshOwnerGrows(devices, i, id); }
  }

  lemma SessionIndexGrows(devices: seq<Device>, i: nat, clients: seq<ClientRow>, index: map<string, ClientRow>, client: ClientRow)
    requires i < |devices| && |clients| == i && SessionIndex(devices[..i], clients, index)
    ensures var id := devices[i].sessionId;
            SessionIndex(devices[..i + 1], clients + [client], if Truthy(id) then index[id.value := client] else index)
  {
    forall id: string { SessionOwnerGrows(devices, i, id); }
  }

  /** Appends a new row object. */
  method Append(clients: seq<ClientRow>, ghost rows: seq<Data>, data: Data) returns (out: seq<ClientRow>, client: ClientRow)
    requires Rows(clients, rows)
    ensures fresh(client) && out == clients + [client] && Rows(out, rows + [data])
  {
    client := new ClientRow(data);
    out := clients + [client];
  }

  /** Updates one row object; the list sees it at its one place. */
  method Store(ghost clients: seq<ClientRow>, ghost rows: seq<Data>, ghost j: nat, client: ClientRow, data: Data)
    requires Rows(clients, rows) && j < |clients| && clients[j] == client
    modifies client
    ensures Rows(clients, rows[j := data])
  {
    client.data := data;
  }

  method MergeDevices(devices: seq<Device>)
    returns (clients: seq<ClientRow>, byRefresh: map<string, ClientRow>, bySession: map<string, ClientRow>)
    ensures Rows(clients, DeviceRows(devices)) && forall i :: 0 <= i < |clients| ==> fresh(clients[i])
    ensures RefreshIndex(devices, clients, byRefresh) && SessionIndex(devices, clients, bySession)
  {
    clients, byRefresh, bySession := [], map[], map[];
    var i := 0;
    while i < |devices|
      invariant 0 <= i <= |devices| && |clients| == i
      invariant Rows(clients, DeviceRows(devices[..i])) && forall j :: 0 <= j < |clients| ==> fresh(clients[j])
      invariant RefreshIndex(devices[..i], clients, byRefresh) && SessionIndex(devices[..i], clients, bySession)
    {
      var d := devices[i];
      ghost var before := clients;
      var client;
      clients, client := Append(clients, DeviceRows(devices[..i]), DeviceRow(d));
      RefreshIndexGrows(devices, i, before, byRefresh, client);
      SessionIndexGrows(devices, i, before, bySession, client);
      assert DeviceRows(devices[..i + 1]) == DeviceRows(devices[..i]) + [DeviceRow(d)];
      if Truthy(d.sessionId) { bySession := bySession[d.sessionId.value := client]; }
      if Truthy(d.refreshId) { byRefresh := byRefresh[d.refreshId.value := client]; }
      i := i + 1;
    }
    assert devices[..i] == devices;
  }

  /** One grant: into the row of the device that claims it, or into a row of its own. */
  method MergeGrant(
      ghost devices: seq<Device>, clients: seq<ClientRow>, byRefresh: map<string, ClientRow>, ghost rows: seq<Data>, g: OAuthGrant)
    returns (out: seq<ClientRow>)
    requires |rows| >= |devices| && Rows(clients, rows) && RefreshIndex(devices, clients, byRefresh)
    modifies set i | 0 <= i < |devices| :: clients[i]
    ensures clients <= out && forall i :: |clients| <= i < |out| ==> fresh(out[i])
    ensures match RefreshOwner(devices, g.refreshId)
            case Some(j) => out == clients && Rows(out, rows[j := AddGrant(rows[j], g)])
            case None => Rows(out, rows + [AddGrant(GrantRow(g), g)])
  {
    var id := if g.refreshId.Some? then g.refreshId.value else "";
    var client;
    if id in byRefresh {
      client := byRefresh[id];
      Store(clients, rows, RefreshOwner(devices, g.refreshId).value, client, AddGrant(client.data, g));
      out := clients;
    } else {
      out, client := Append(clients, rows, AddGrant(GrantRow(g), g));
    }
  }

  method MergeGrants(devices: seq<Device>, start: seq<ClientRow>, byRefresh: map<string, ClientRow>, grants: seq<OAuthGrant>)
    returns (clients: seq<ClientRow>)
    requires Rows(start, DeviceRows(devices)) && RefreshIndex(devices, start, byRefresh)
    modifies start
    ensures Rows(clients, GrantPass(devices, grants)) && start <= clients
    ensures forall i :: |start| <= i < |clients| ==> fresh(clients[i])
  {
    clients := start;
    var i := 0;
    while i < |grants|
      invariant 0 <= i <= |grants|
      invariant Rows(clients, GrantPass(devices, grants[..i])) && start <= clients
      invariant forall j :: |start| <= j < |clients| ==> fresh(clients[j])
    {
      OneMore(grants, i);
      clients := MergeGrant(devices, clients, byRefresh, GrantPass(devices, grants[..i]), grants[i]);
      i := i + 1;
    }
    assert grants[..i] == grants;
  }

  method MergeSession(
      ghost devices: seq<Device>, clients: seq<ClientRow>, bySession: map<string, ClientRow>, ghost rows: seq<Data>,
      s: Session, current: string) returns (out: seq<ClientRow>)
    requires |rows| >= |devices| && Rows(clients, rows) && SessionIndex(devices, clients, bySession)
    modifies set i | 0 <= i < |devices| :: clients[i]
    ensures clients <= out && forall i :: |clients| <= i < |out| ==> fresh(out[i])
    ensures match SessionOwner(devices, s.id)
            case Some(j) => out == clients && Rows(out, rows[j := AddSession(rows[j], s, current)])
            case None => Rows(out, rows + [AddSession(SessionRow(s), s, current)])
  {
    var client;
    if s.id in bySession {
      client := bySession[s.id];
      Store(clients, rows, SessionOwner(devices, s.id).value, client, AddSession(client.data, s, current));
      out := clients;
    } else {
      out, client := Append(clients, rows, AddSession(SessionRow(s), s, current));
    }
  }

  method MergeSessions(
      devices: seq<Device>, start: seq<ClientRow>, bySession: map<string, ClientRow>, ghost rows0: seq<Data>,
      sessions: seq<Session>, current: string) returns (clients: seq<ClientRow>)
    requires |rows0| >= |devices| && Rows(start, rows0) && SessionIndex(devices, start, bySession)
    modifies start
    ensures Rows(clients, SessionPass(devices, rows0, sessions, current)) && start <= clients
    ensures forall i :: |start| <= i < |clients| ==> fresh(clients[i])
  {
    clients := start;
    var i := 0;
    while i < |sessions|
      invariant 0 <= i <= |sessions|
      invariant Rows(clients, SessionPass(devices, rows0, sessions[..i], current)) && start <= clients
      invariant forall j :: |start| <= j < |clients| ==> fresh(clients[j])
    {
      OneMore(sessions, i);
      clients := MergeSession(devices, clients, bySession, SessionPass(devices, rows0, sessions[..i], current), sessions[i], current);
      i := i + 1;
    }
    assert sessions[..i] == sessions;
  }

  /** The last pass, over the list. */
  method FinishRows(clients: seq<ClientRow>, ghost rows: seq<Data>)
    requires Rows(clients, rows)
    modifies clients
    ensures Rows(clients, FinishAll(rows))
  {
    var i := 0;
    while i < |clients|
      invariant 0 <= i <= |clients|
      invariant forall j :: 0 <= j < |clients| ==> clients[j].data == if j < i then Finish(rows[j]) else rows[j]
    {
      clients[i].data := Finish(clients[i].data);
      i := i + 1;
    }
  }

  /** `merge`: three passes over shared rows, and a last one over the list. */
  method Merge(devices: seq<Device>, grants: seq<OAuthGrant>, sessions: seq<Session>, current: string)
    returns (clients: seq<ClientRow>)
    ensures Rows(clients, Merged(devices, grants, sessions, current))
    ensures forall i :: 0 <= i < |clients| ==> fresh(clients[i])
  {
    var start, byRefresh, bySession := MergeDevices(devices);
    var granted := MergeGrants(devices, start, byRefresh, grants);
    assert SessionIndex(devices, granted, bySession);
    clients := MergeSessions(devices, granted, bySession, GrantPass(devices, grants), sessions, current);
    FinishRows(clients, SessionPass(devices, GrantPass(devices, grants), sessions, current));
  }
}
