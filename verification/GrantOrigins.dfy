/** Where the user, the client and the scope of a token come from. */
module GrantOrigins {
  import opened Wrappers
  import opened ScopeSets
  import opened Grants

  // ---- codes ----

  /** The row says who authorized what, and when. */
  predicate CodeOf(code: Code, e: Event, told: string)
    requires e.Authorize?
  {
    code.clientId == e.clientId && code.uid == e.uid && code.scope == told && code.createdAt == e.now
    && code.challenge == e.challenge && code.offline == e.offline
  }

  /** This request is answered with this code. */
  predicate Issues(registry: Registry, s: Server, e: Event, codeId: string) {
    e.Authorize? && Step(registry, s, e).reply.Coded? && Step(registry, s, e).reply.codeId == codeId
  }

  lemma AuthorizeStores(registry: Registry, s: Server, e: Event)
    requires RegistryValid(registry) && e.Authorize? && Step(registry, s, e).reply.Coded?
    ensures var out := Step(registry, s, e);
            out.reply.codeId == e.codeId && e.codeId in out.server.codes
            && CodeOf(out.server.codes[e.codeId], e, out.reply.scope)
            && FromText(out.reply.scope).Some? && Text(FromText(out.reply.scope).value) == out.reply.scope
  {
    GrantedIsWithin(registry[e.clientId], e);
    TextRoundTrip(GrantedScope(registry[e.clientId], e).value);
  }

  /** No other request makes a code's row or changes it. */
  lemma OtherwiseCodesStay(registry: Registry, s: Server, e: Event, codeId: string)
    requires codeId in Step(registry, s, e).server.codes && !Issues(registry, s, e, codeId)
    ensures codeId in s.codes && Step(registry, s, e).server.codes[codeId] == s.codes[codeId]
  {
    if e.clientId in registry && e.Redeem? { RedeemOutcome(s, registry[e.clientId], e); }
  }

  lemma {:induction false} CodeStays(registry: Registry, s: Server, events: seq<Event>, codeId: string)
    requires NeverIssues(events, codeId) && codeId in Run(registry, s, events).codes
    ensures codeId in s.codes && Run(registry, s, events).codes[codeId] == s.codes[codeId]
  {
    if events != [] {
      var init, last := events[..|events| - 1], events[|events| - 1];
      IssuesItsOwn(registry, Run(registry, s, init), last);
      OtherwiseCodesStay(registry, Run(registry, s, init), last, codeId);
      CodeStays(registry, s, init, codeId);
    }
  }

  lemma IssuesItsOwn(registry: Registry, s: Server, e: Event)
    ensures e.Authorize? && Step(registry, s, e).reply.Coded? ==> Step(registry, s, e).reply.codeId == e.codeId
  {
  }

  /** A redeeming that mints, of a code that an authorization left: for its user and client, with the scope the client was
      told, against its challenge, in time, and with a refresh token exactly if it was offline. */
  predicate MintsFor(out: Outcome, r: Event, e: Event, told: string)
    requires out.reply.Minted? && r.Redeem? && e.Authorize?
  {
    var token := out.reply.token;
    token.uid == e.uid && token.clientId == e.clientId == r.clientId && token.scope == told
    && r.verifier == e.challenge && r.now <= e.now + r.codeTtl * 1000 && r.accountExists
    && (out.reply.refreshId == if e.offline then Some(r.tokenId) else None)
    && (e.offline ==> r.tokenId in out.server.refreshTokens
                      && out.server.refreshTokens[r.tokenId] == RefreshToken(e.clientId, e.uid, told, r.now, r.now))
  }

  lemma RedeemMintsFor(registry: Registry, s: Server, r: Event, e: Event, told: string)
    requires RegistryValid(registry) && r.Redeem? && Step(registry, s, r).reply.Minted? && e.Authorize?
    requires r.codeId in s.codes && CodeOf(s.codes[r.codeId], e, told)
    requires FromText(told).Some? && Text(FromText(told).value) == told
    ensures MintsFor(Step(registry, s, r), r, e, told)
  {
    RedeemOutcome(s, registry[r.clientId], r);
  }

  /** Whatever lies in between, a code mints just what its authorization was for, unless the same id is issued anew. */
  lemma RedeemIsForItsUser(registry: Registry, s: Server, e: Event, events: seq<Event>, r: Event)
    requires RegistryValid(registry) && e.Authorize? && Step(registry, s, e).reply.Coded?
    requires NeverIssues(events, e.codeId) && r.Redeem? && r.codeId == e.codeId
    requires Step(registry, Run(registry, Step(registry, s, e).server, events), r).reply.Minted?
    ensures MintsFor(Step(registry, Run(registry, Step(registry, s, e).server, events), r), r, e, Step(registry, s, e).reply.scope)
  {
    var after := Run(registry, Step(registry, s, e).server, events);
    AuthorizeStores(registry, s, e);
    RedeemOutcome(after, registry[r.clientId], r);
    CodeStays(registry, Step(registry, s, e).server, events, r.codeId);
    RedeemMintsFor(registry, after, r, e, Step(registry, s, e).reply.scope);
  }

  // ---- and every code was authorized ----

  datatype Origin = Origin(e: Event, told: string)

  /** The last request of a run that was answered with this code, and the scope it was told. */
  function LastIssue(registry: Registry, events: seq<Event>, codeId: string): Option<Origin> {
    if events == [] then None
    else
      var init, last := events[..|events| - 1], events[|events| - 1];
      if Issues(registry, Run(registry, Server(map[], map[]), init), last, codeId) then
        Some(Origin(last, Step(registry, Run(registry, Server(map[], map[]), init), last).reply.scope))
      else LastIssue(registry, init, codeId)
  }

  predicate ComesFrom(code: Code, origin: Option<Origin>) {
    origin.Some? && origin.value.e.Authorize? && CodeOf(code, origin.value.e, origin.value.told)
    && FromText(origin.value.told).Some? && Text(FromText(origin.value.told).value) == origin.value.told
  }

  lemma {:induction false} CodeTracesBack(registry: Registry, events: seq<Event>, codeId: string)
    requires RegistryValid(registry) && codeId in Run(registry, Server(map[], map[]), events).codes
    ensures ComesFrom(Run(registry, Server(map[], map[]), events).codes[codeId], LastIssue(registry, events, codeId))
  {
    var init, last := events[..|events| - 1], events[|events| - 1];
    var s := Run(registry, Server(map[], map[]), init);
    if Issues(registry, s, last, codeId) {
      IssuesItsOwn(registry, s, last);
      AuthorizeStores(registry, s, last);
    } else {
      OtherwiseCodesStay(registry, s, last, codeId);
      CodeTracesBack(registry, init, codeId);
    }
  }

  /** Every token that a code mints, in any run, goes back to the last request that was answered with the code. */
  lemma RedeemTracesBack(registry: Registry, events: seq<Event>, r: Event)
    requires RegistryValid(registry) && r.Redeem?
    requires Step(registry, Run(registry, Server(map[], map[]), events), r).reply.Minted?
    ensures var origin := LastIssue(registry, events, r.codeId);
            origin.Some? && origin.value.e.Authorize?
            && MintsFor(Step(registry, Run(registry, Server(map[], map[]), events), r), r, origin.value.e, origin.value.told)
  {
    var s := Run(registry, Server(map[], map[]), events);
    RedeemOutcome(s, registry[r.clientId], r);
    CodeTracesBack(registry, events, r.codeId);
    var origin := LastIssue(registry, events, r.codeId).value;
    RedeemMintsFor(registry, s, r, origin.e, origin.told);
  }

  // ---- refresh tokens ----

  /** No request mints a refresh token under this id. */
  predicate NeverMintsUnder(events: seq<Event>, tokenId: string) {
    forall i :: 0 <= i < |events| ==> !((events[i].Redeem? || events[i].Direct?) && events[i].tokenId == tokenId)
  }

  /** The row is for this token: its client, its user and its scope. */
  predicate RowOf(row: RefreshToken, token: AccessToken) {
    row.clientId == token.clientId && row.uid == token.uid && row.scope == token.scope
  }

  lemma MintStores(registry: Registry, s: Server, e: Event)
    requires Step(registry, s, e).reply.Minted? && Step(registry, s, e).reply.refreshId.Some?
    ensures var out := Step(registry, s, e);
            (e.Redeem? || e.Direct?) && out.reply.refreshId.value == e.tokenId && e.tokenId in out.server.refreshTokens
            && RowOf(out.server.refreshTokens[e.tokenId], out.reply.token)
  {
    if e.Redeem? { RedeemOutcome(s, registry[e.clientId], e); }
  }

  lemma RefreshRowStays(registry: Registry, s: Server, e: Event, tokenId: string, token: AccessToken)
    requires tokenId in s.refreshTokens && RowOf(s.refreshTokens[tokenId], token)
    requires !((e.Redeem? || e.Direct?) && e.tokenId == tokenId)
    ensures var out := Step(registry, s, e);
            tokenId in out.server.refreshTokens && RowOf(out.server.refreshTokens[tokenId], token)
  {
    if e.clientId in registry && e.Redeem? { RedeemOutcome(s, registry[e.clientId], e); }
  }

  lemma {:induction false} RefreshRowStaysAlong(
      registry: Registry, s: Server, events: seq<Event>, tokenId: string, token: AccessToken)
    requires tokenId in s.refreshTokens && RowOf(s.refreshTokens[tokenId], token) && NeverMintsUnder(events, tokenId)
    ensures tokenId in Run(registry, s, events).refreshTokens
            && RowOf(Run(registry, s, events).refreshTokens[tokenId], token)
  {
    if events != [] {
      var init, last := events[..|events| - 1], events[|events| - 1];
      RefreshRowStaysAlong(registry, s, init, tokenId, token);
      RefreshRowStays(registry, Run(registry, s, init), last, tokenId, token);
    }
  }

  /** A refreshing that mints, of a refresh token that came with a token: for the same user and client, and for the scope
      that came with it or one that is asked for instead. */
  predicate RefreshesFor(reply: Reply, r: Event, token: AccessToken) {
    reply.Minted? && reply.refreshId.None? && r.Refresh? && r.accountExists
    && reply.token.uid == token.uid && reply.token.clientId == token.clientId == r.clientId
  }

  lemma RefreshMintsFor(registry: Registry, s: Server, r: Event, token: AccessToken)
    requires RegistryValid(registry) && r.Refresh? && Step(registry, s, r).reply.Minted?
    requires r.tokenId in s.refreshTokens && RowOf(s.refreshTokens[r.tokenId], token)
    ensures RefreshesFor(Step(registry, s, r).reply, r, token)
  {
  }

  /** Whatever lies in between, a refresh token mints for the user and the client it was first minted for, and no further
      refresh token; and its row has the scope it came with. */
  lemma RefreshIsForItsUser(registry: Registry, s: Server, first: Event, events: seq<Event>, r: Event)
    requires RegistryValid(registry) && r.Refresh? && NeverMintsUnder(events, r.tokenId)
    requires Step(registry, s, first).reply.Minted? && Step(registry, s, first).reply.refreshId == Some(r.tokenId)
    requires Step(registry, Run(registry, Step(registry, s, first).server, events), r).reply.Minted?
    ensures RefreshesFor(Step(registry, Run(registry, Step(registry, s, first).server, events), r).reply, r,
                         Step(registry, s, first).reply.token)
    ensures r.tokenId in Run(registry, Step(registry, s, first).server, events).refreshTokens
            && RowOf(Run(registry, Step(registry, s, first).server, events).refreshTokens[r.tokenId],
                     Step(registry, s, first).reply.token)
  {
    var token := Step(registry, s, first).reply.token;
    MintStores(registry, s, first);
    RefreshRowStaysAlong(registry, Step(registry, s, first).server, events, r.tokenId, token);
    RefreshMintsFor(registry, Run(registry, Step(registry, s, first).server, events), r, token);
  }

  /** A direct grant mints for the session's own user, at the client that asks. */
  lemma DirectIsForItsUser(registry: Registry, s: Server, e: Event)
    requires e.Direct? && Step(registry, s, e).reply.Minted?
    ensures var out := Step(registry, s, e);
            e.session == Some(out.reply.token.uid) && out.reply.token.clientId == registry[e.clientId].id
            && (out.reply.refreshId == if e.offline then Some(e.tokenId) else None)
  {
  }
}
