/** The OAuth routes as methods that delete codes and write refresh-token rows. */
module OAuthServer {
  import opened Wrappers
  import opened Scopes
  import opened ScopeSets
  import opened Grants

  /** Of the codes other than the new one, exactly those past their time are gone. */
  predicate OnlyExpiredGo(before: map<string, Code>, after: map<string, Code>, e: Event)
    requires e.Authorize?
  {
    forall id :: id in before && id != e.codeId ==>
      (id in after <==> before[id].createdAt + e.codeTtl * 1000 >= e.now) && (id in after ==> after[id] == before[id])
  }

  /** What a client is told of its authorization, and what became of the codes. */
  predicate Authorized(before: map<string, Code>, after: map<string, Code>, e: Event, reply: Reply)
    requires e.Authorize?
  {
    match reply
    case Failed(_) => after == before
    case Minted(_, _) => false
    case Coded(codeId, scope) =>
      codeId == e.codeId && codeId in after && after[codeId].scope == scope && after[codeId].challenge == e.challenge
      && OnlyExpiredGo(before, after, e)
  }

  class TokenEndpoint {
    const registry: Registry
    var codes: map<string, Code>
    var refreshTokens: map<string, RefreshToken>

    constructor (registry: Registry)
      ensures this.registry == registry && Contents() == Server(map[], map[])
    {
      this.registry, codes, refreshTokens := registry, map[], map[];
    }

    function Contents(): Server
      reads this
    {
      Server(codes, refreshTokens)
    }

    /** `generate_tokens`: always an access token; a refresh token's row if the grant is offline. */
    method GenerateTokens(grant: Grant, now: int, tokenId: string) returns (reply: Reply)
      modifies this`refreshTokens
      ensures Outcome(Contents(), reply) == Mint(old(Contents()), grant, now, tokenId)
      ensures reply.Minted? && (reply.refreshId.Some? <==> grant.offline)
      ensures reply.token.clientId == grant.client.id && reply.token.uid == grant.uid
      ensures !grant.offline ==> refreshTokens == old(refreshTokens)
      ensures grant.offline ==>
                refreshTokens.Keys == old(refreshTokens.Keys) + {tokenId}
                && refreshTokens[tokenId].scope == reply.token.scope && refreshTokens[tokenId].lastUsedAt == now
                && forall id :: id in old(refreshTokens) && id != tokenId ==> refreshTokens[id] == old(refreshTokens)[id]
    {
      var refreshId := None;
      if grant.offline {
        refreshTokens := refreshTokens[tokenId := RefreshToken(grant.client.id, grant.uid, Text(grant.scope), now, now)];
        refreshId := Some(tokenId);
      }
      reply := Minted(MintToken(grant), refreshId);
    }

    /** The checks of an authorization, in the order the route makes them. */
    static method CheckRequest(client: Client, e: Event) returns (r: Result<seq<Scope>, Error>)
      requires e.Authorize?
      ensures r == GrantedScope(client, e)
      ensures r.Ok? ==> (client.publicClient <==> e.challenge.Some?)
    {
      var requested := RequestedScope(e.scopeText, e.service);
      if requested.Err? { return Err(requested.error); }
      if client.publicClient {
        if e.challenge.None? { return Err(MissingPkce); }
      } else if e.challenge.Some? {
        return Err(NotPublicClient);
      }
      r := ValidateRequestedGrant(client, requested.value);
    }

    /** Sweeps expired codes, and stores a new one. */
    method CreateCode(e: Event, code: Code)
      requires e.Authorize?
      modifies this`codes
      ensures codes == Unexpired(old(codes), e.now - e.codeTtl * 1000)[e.codeId := code]
      ensures codes[e.codeId] == code && OnlyExpiredGo(old(codes), codes, e)
    {
      var before := e.now - e.codeTtl * 1000;
      codes := map id | id in codes && codes[id].createdAt >= before :: codes[id];
      codes := codes[e.codeId := code];
    }

    /** `oauth_authorization`: an error changes nothing; otherwise the granted scope is in a new code's row, as the client
        was told, and of the other codes only expired ones are gone. */
    method OauthAuthorization(e: Event) returns (reply: Reply)
      requires e.Authorize?
      modifies this`codes
      ensures Outcome(Contents(), reply) == Step(registry, old(Contents()), e)
      ensures Authorized(old(codes), codes, e, reply)
    {
      if e.clientId !in registry { return Failed(UnknownClient); }
      var client := registry[e.clientId];
      var granted := CheckRequest(client, e);
      reply := AnswerRequest(client, e, granted);
    }

    method AnswerRequest(client: Client, e: Event, granted: Result<seq<Scope>, Error>) returns (reply: Reply)
      requires e.Authorize?
      modifies this`codes
      ensures Outcome(Contents(), reply) == Answered(old(Contents()), client, e, granted)
      ensures Authorized(old(codes), codes, e, reply)
    {
      if granted.Err? { return Failed(granted.error); }
      CreateCode(e, NewCode(client, e, granted.value));
      reply := Coded(e.codeId, Text(granted.value));
    }

    /** `_authorization_code_grant`: a code that is found wanting stays, an expired one and one that passes its checks is
        deleted, and only a deleted one mints. */
    method AuthorizationCodeGrant(e: Event) returns (reply: Reply)
      requires e.Redeem?
      modifies this
      ensures Outcome(Contents(), reply) == Step(registry, old(Contents()), e)
      ensures codes == old(codes) || (e.codeId in old(codes) && codes == old(codes) - {e.codeId})
      ensures reply.Minted? || reply == Failed(ExpiredCode) ==> e.codeId in old(codes) && e.codeId !in codes
      ensures reply.Failed?
              && reply.error in {UnknownClient, NotPublicClient, UnknownCode, MismatchCode, MissingPkce, MismatchChallenge}
              ==> codes == old(codes)
      ensures !(reply.Minted? && reply.refreshId.Some?) ==> refreshTokens == old(refreshTokens)
    {
      if e.clientId !in registry { return Failed(UnknownClient); }
      var client := registry[e.clientId];
      if e.verifier.Some? && !client.publicClient { return Failed(NotPublicClient); }
      if e.codeId !in codes { return Failed(UnknownCode); }
      var code := codes[e.codeId];
      if code.clientId != client.id { return Failed(MismatchCode); }
      if e.now > code.createdAt + e.codeTtl * 1000 {
        codes := codes - {e.codeId};
        return Failed(ExpiredCode);
      }
      var bad := CheckVerifier(code, e.verifier);
      if bad.Some? { return Failed(bad.value); }
      // Spent whether or not the rest succeeds.
      codes := codes - {e.codeId};
      if !e.accountExists { return Failed(InvalidToken); }
      var scope := FromText(code.scope);
      if scope.None? { return Failed(InvalidParameter); }
      reply := GenerateTokens(Grant(client, code.uid, scope.value, code.offline), e.now, e.tokenId);
    }

    /** `_refresh_token_grant`: no row comes or goes, and no row's scope changes; the one that minted is marked as used. */
    method RefreshTokenGrant(e: Event) returns (reply: Reply)
      requires e.Refresh?
      modifies this`refreshTokens
      ensures Outcome(Contents(), reply) == Step(registry, old(Contents()), e)
      ensures refreshTokens.Keys == old(refreshTokens.Keys) && (reply.Failed? ==> refreshTokens == old(refreshTokens))
      ensures reply.Minted? ==> reply.refreshId.None? && e.tokenId in refreshTokens && refreshTokens[e.tokenId].lastUsedAt == e.now
      ensures forall id :: id in refreshTokens ==>
                refreshTokens[id].(lastUsedAt := 0) == old(refreshTokens)[id].(lastUsedAt := 0)
                && (id != e.tokenId ==> refreshTokens[id] == old(refreshTokens)[id])
    {
      if e.clientId !in registry { return Failed(UnknownClient); }
      var client := registry[e.clientId];
      if e.tokenId !in refreshTokens || refreshTokens[e.tokenId].clientId != client.id {
        return Failed(InvalidToken);
      }
      var held := FromText(refreshTokens[e.tokenId].scope);
      if held.None? { return Failed(InvalidParameter); }
      var scope := RefreshedScope(client, held.value, e.scopeText);
      if scope.Err? { return Failed(scope.error); }
      if !e.accountExists { return Failed(InvalidToken); }
      refreshTokens := refreshTokens[e.tokenId := refreshTokens[e.tokenId].(lastUsedAt := e.now)];
      reply := GenerateTokens(Grant(client, refreshTokens[e.tokenId].uid, scope.value, false), e.now, e.tokenId);
    }

    /** `_fxa_credentials_grant`: tokens only for a session, and only for a public client that may grant. */
    method FxaCredentialsGrant(e: Event) returns (reply: Reply)
      requires e.Direct?
      modifies this`refreshTokens
      ensures Outcome(Contents(), reply) == Step(registry, old(Contents()), e)
      ensures reply.Minted? ==>
                e.clientId in registry && registry[e.clientId].canGrant && registry[e.clientId].publicClient
                && e.session == Some(reply.token.uid) && (reply.refreshId.Some? <==> e.offline)
      ensures !(reply.Minted? && e.offline) ==> refreshTokens == old(refreshTokens)
    {
      if e.clientId !in registry { return Failed(UnknownClient); }
      var client := registry[e.clientId];
      if !client.canGrant { return Failed(InvalidGrantType); }
      if !client.publicClient { return Failed(NotPublicClient); }
      if e.scope.None? { return Failed(InvalidParameter); }
      if e.session.None? { return Failed(NoSession); }
      var requested := FromText(e.scope.value);
      if requested.None? { return Failed(InvalidParameter); }
      var granted := ValidateRequestedGrant(client, requested.value);
      if granted.Err? { return Failed(granted.error); }
      reply := GenerateTokens(Grant(client, e.session.value, granted.value, e.offline), e.now, e.tokenId);
    }
  }
}
