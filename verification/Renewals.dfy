/** What a refresh renews of the scopes that are meant for one exchange only. */
module Renewals {
  import opened Wrappers
  import opened Scopes
  import opened ScopeSets
  import opened Grants

  const TOKENS: Scope := Url("identity.mozilla.com", ["tokens"], "")
  const OPENID_WRITE: Scope := Short(["openid", "write"])

  /** The set a refresh starts from: what was asked for, or else what is held. */
  function AskedOrHeld(held: seq<Scope>, scopeText: string): Option<seq<Scope>> {
    if scopeText == "" then Some(held) else FromText(scopeText)
  }

  /** What is left covers a scope if and only if it was implied by something that is not itself for one exchange only. */
  lemma RefreshedCovers(client: Client, held: seq<Scope>, scopeText: string, x: Scope)
    requires RefreshedScope(client, held, scopeText).Ok?
    ensures AskedOrHeld(held, scopeText).Some?
    ensures Covers(RefreshedScope(client, held, scopeText).value, x)
            <==> exists h :: h in AskedOrHeld(held, scopeText).value && Implies(h, x)
                             && !Covers(FromArray(NON_REFRESHABLE_LIST), h)
  {
    var from, once := AskedOrHeld(held, scopeText).value, FromArray(NON_REFRESHABLE_LIST);
    KeepMembers(from, once, false);
    CoversByMember(Keep(from, once, false), x);
  }

  lemma CoversByMember(ss: seq<Scope>, x: Scope)
    ensures Covers(ss, x) <==> exists h :: h in ss && Implies(h, x)
  {
    if h :| h in ss && Implies(h, x) { var i :| 0 <= i < |ss| && ss[i] == h; }
  }

  lemma WhatImpliesSession(h: Scope)
    requires Valid(h)
    ensures Implies(h, SESSION) <==> h == SESSION || h == TOKENS
  {
    if h.Short? {
      KindsDoNotMix(h, SESSION);
    } else {
      UrlImplication(h, SESSION);
    }
  }

  lemma WhatImpliesOpenid(h: Scope)
    requires Valid(h)
    ensures Implies(h, OPENID) <==> h == OPENID || h == OPENID_WRITE
  {
    if h.Url? {
      KindsDoNotMix(h, OPENID);
    } else {
      ShortImplication(h, OPENID);
    }
  }

  lemma OneSegment(netloc: string, a: string)
    requires Plain(netloc) && Plain(a) && a[0] != '.'
    ensures Valid(Url(netloc, [a], ""))
  {
    PlainHost(netloc);
    PlainSegment(a);
  }

  lemma BroaderScopesValid()
    ensures Valid(TOKENS) && Valid(OPENID_WRITE)
  {
    HostsArePlain();
    SegmentsArePlain();
    OneSegment("identity.mozilla.com", "tokens");
    TwoWords("openid", "write");
  }

  /** The broader scopes imply the ones for one exchange only, and are not implied by them. */
  lemma OnceCovers(x: Scope)
    requires Valid(x)
    ensures Covers(FromArray(NON_REFRESHABLE_LIST), x) <==> Implies(OPENID, x) || Implies(SESSION, x)
  {
    FixedListsValid();
    FromArrayMeaning(NON_REFRESHABLE_LIST, x);
    assert NON_REFRESHABLE_LIST[0] == OPENID && NON_REFRESHABLE_LIST[1] == SESSION;
  }

  lemma OnceImpliesItself()
    ensures Valid(OPENID) && Implies(OPENID, OPENID) && Valid(SESSION) && Implies(SESSION, SESSION)
  {
    ShortListsValid();
    UrlsValid();
    ImpliesReflexive(OPENID);
    ImpliesReflexive(SESSION);
  }

  lemma OnceImpliesNothingBroader()
    ensures !Implies(OPENID, TOKENS) && !Implies(SESSION, TOKENS)
    ensures !Implies(OPENID, OPENID_WRITE) && !Implies(SESSION, OPENID_WRITE)
  {
    BroaderScopesValid();
    OnceImpliesItself();
    KindsDoNotMix(OPENID, TOKENS);
    KindsDoNotMix(SESSION, OPENID_WRITE);
    UrlImplication(SESSION, TOKENS);
    ShortImplication(OPENID, OPENID_WRITE);
  }

  /** The broader scope implies the one for one exchange only, and so does nothing else but that one itself. */
  ghost predicate OnlyBroader(broader: Scope, x: Scope) {
    Covers(FromArray(NON_REFRESHABLE_LIST), x) && !Covers(FromArray(NON_REFRESHABLE_LIST), broader)
    && forall h :: Valid(h) ==> (Implies(h, x) <==> h == x || h == broader)
  }

  lemma TokensIsBroader()
    ensures Valid(TOKENS) && OnlyBroader(TOKENS, SESSION)
  {
    BroaderScopesValid();
    OnceImpliesItself();
    OnceImpliesNothingBroader();
    OnceCovers(SESSION);
    OnceCovers(TOKENS);
    forall h | Valid(h) ensures Implies(h, SESSION) <==> h == SESSION || h == TOKENS { WhatImpliesSession(h); }
  }

  lemma OpenidWriteIsBroader()
    ensures Valid(OPENID_WRITE) && OnlyBroader(OPENID_WRITE, OPENID)
  {
    BroaderScopesValid();
    OnceImpliesItself();
    OnceImpliesNothingBroader();
    OnceCovers(OPENID);
    OnceCovers(OPENID_WRITE);
    forall h | Valid(h) ensures Implies(h, OPENID) <==> h == OPENID || h == OPENID_WRITE { WhatImpliesOpenid(h); }
  }

  lemma RenewedByBroader(client: Client, held: seq<Scope>, scopeText: string, broader: Scope, x: Scope)
    requires AllValid(held) && RefreshedScope(client, held, scopeText).Ok? && Valid(broader) && OnlyBroader(broader, x)
    ensures AskedOrHeld(held, scopeText).Some?
    ensures Covers(RefreshedScope(client, held, scopeText).value, x) <==> broader in AskedOrHeld(held, scopeText).value
    ensures broader in AskedOrHeld(held, scopeText).value ==> broader in RefreshedScope(client, held, scopeText).value
  {
    RefreshedCovers(client, held, scopeText, x);
    var from := AskedOrHeld(held, scopeText).value;
    if scopeText != "" { FromTextIsCanonical(scopeText); }
    forall h | h in from ensures Valid(h) { var i :| 0 <= i < |from| && from[i] == h; }
    KeepMembers(from, FromArray(NON_REFRESHABLE_LIST), false);
  }

  /** A refresh renews the session-token scope if and only if it starts from the broader `tokens`, and `openid` if and only
      if it starts from `openid:write`. */
  lemma RenewsByTheBroader(client: Client, held: seq<Scope>, scopeText: string)
    requires AllValid(held) && RefreshedScope(client, held, scopeText).Ok?
    ensures AskedOrHeld(held, scopeText).Some?
    ensures Covers(RefreshedScope(client, held, scopeText).value, SESSION) <==> TOKENS in AskedOrHeld(held, scopeText).value
    ensures Covers(RefreshedScope(client, held, scopeText).value, OPENID)
            <==> OPENID_WRITE in AskedOrHeld(held, scopeText).value
  {
    TokensIsBroader();
    OpenidWriteIsBroader();
    RenewedByBroader(client, held, scopeText, TOKENS, SESSION);
    RenewedByBroader(client, held, scopeText, OPENID_WRITE, OPENID);
  }

  /** Such a broader scope is under a ceiling only if the client is trusted and its own allow-list implies it. */
  lemma BroaderNeedsTheAllowList(client: Client, x: Scope)
    requires Canonical(client.allowed) && (x == TOKENS || x == OPENID_WRITE) && Covers(Ceiling(client), x)
    ensures client.trusted && Covers(client.allowed, x)
  {
    BroaderScopesValid();
    ListsLackTheBroader(x);
    UnionMeaning(client.allowed, FromArray(TRUSTED_LIST), x);
  }

  lemma ListsLackTheBroader(x: Scope)
    requires x == TOKENS || x == OPENID_WRITE
    ensures Canonical(FromArray(TRUSTED_LIST))
    ensures !Covers(FromArray(TRUSTED_LIST), x) && !Covers(FromArray(UNTRUSTED_LIST), x)
  {
    BroaderScopesValid();
    ShortListsValid();
    FixedListsAreShort();
    FromArrayMeaning(TRUSTED_LIST, x);
    FromArrayMeaning(UNTRUSTED_LIST, x);
    forall s | s in TRUSTED_LIST || s in UNTRUSTED_LIST ensures !Implies(s, x) { LacksTheBroader(s, x); }
  }

  lemma LacksTheBroader(s: Scope, x: Scope)
    requires (x == TOKENS || x == OPENID_WRITE) && (s in TRUSTED_LIST || s in UNTRUSTED_LIST)
    ensures !Implies(s, x)
  {
    BroaderScopesValid();
    ShortListsValid();
    FixedListsAreShort();
    if x == TOKENS { KindsDoNotMix(s, x); } else { ShortImplication(s, x); }
  }

  /** What a refresh mints, out of the stored row it reads. */
  lemma RefreshMints(registry: Registry, s: Server, e: Event)
    requires RegistryValid(registry) && Bounded(registry, s) && e.Refresh? && Step(registry, s, e).reply.Minted?
    ensures e.clientId in registry && e.tokenId in s.refreshTokens
    ensures var client, held := registry[e.clientId], FromText(s.refreshTokens[e.tokenId].scope).value;
            Within(client, held) && RefreshedScope(client, held, e.scopeText).Ok?
            && Within(client, RefreshedScope(client, held, e.scopeText).value)
            && FromText(Step(registry, s, e).reply.token.scope) == Some(RefreshedScope(client, held, e.scopeText).value)
  {
    var client, row := registry[e.clientId], s.refreshTokens[e.tokenId];
    assert TextWithin(registry, row.clientId, row.scope);
    var held := FromText(row.scope).value;
    RefreshedIsWithinCeiling(client, held, e.scopeText);
    TextRoundTrip(RefreshedScope(client, held, e.scopeText).value);
  }

  /** Of three scope texts, held, asked for and minted: the minted one covers x if and only if the broader scope was asked
      for or, when nothing was, held; and then the client is trusted and its own allow-list implies the broader scope. */
  predicate MintsBy(client: Client, heldText: string, askedText: string, mintedText: string, broader: Scope, x: Scope) {
    FromText(heldText).Some? && FromText(mintedText).Some? && AskedOrHeld(FromText(heldText).value, askedText).Some?
    && var from := AskedOrHeld(FromText(heldText).value, askedText).value;
       (Covers(FromText(mintedText).value, x) <==> broader in from)
       && (broader in from ==> client.trusted && Covers(client.allowed, broader))
  }

  /** In every reachable state: a refresh mints the session-token scope, or `openid`, if and only if the broader scope was
      held or asked for; and it does so only for a trusted client whose own allow-list implies the broader scope. */
  lemma OneExchangeOnly(registry: Registry, events: seq<Event>, e: Event, broader: Scope, x: Scope)
    requires (broader == TOKENS && x == SESSION) || (broader == OPENID_WRITE && x == OPENID)
    requires RegistryValid(registry) && e.Refresh?
    requires Step(registry, Run(registry, Server(map[], map[]), events), e).reply.Minted?
    ensures e.clientId in registry && e.tokenId in Run(registry, Server(map[], map[]), events).refreshTokens
    ensures var s := Run(registry, Server(map[], map[]), events);
            MintsBy(registry[e.clientId], s.refreshTokens[e.tokenId].scope, e.scopeText,
                    Step(registry, s, e).reply.token.scope, broader, x)
  {
    var s := Run(registry, Server(map[], map[]), events);
    RunIsBounded(registry, Server(map[], map[]), events);
    StepRenews(registry, s, e, broader, x);
  }

  lemma StepRenews(registry: Registry, s: Server, e: Event, broader: Scope, x: Scope)
    requires (broader == TOKENS && x == SESSION) || (broader == OPENID_WRITE && x == OPENID)
    requires RegistryValid(registry) && Bounded(registry, s) && e.Refresh? && Step(registry, s, e).reply.Minted?
    ensures e.clientId in registry && e.tokenId in s.refreshTokens
    ensures MintsBy(registry[e.clientId], s.refreshTokens[e.tokenId].scope, e.scopeText,
                    Step(registry, s, e).reply.token.scope, broader, x)
  {
    RefreshMints(registry, s, e);
    var client, held := registry[e.clientId], FromText(s.refreshTokens[e.tokenId].scope).value;
    RefreshRenews(client, held, e.scopeText, broader, x);
  }

  lemma RefreshRenews(client: Client, held: seq<Scope>, scopeText: string, broader: Scope, x: Scope)
    requires (broader == TOKENS && x == SESSION) || (broader == OPENID_WRITE && x == OPENID)
    requires Canonical(client.allowed) && Within(client, held) && RefreshedScope(client, held, scopeText).Ok?
    requires Within(client, RefreshedScope(client, held, scopeText).value)
    ensures AskedOrHeld(held, scopeText).Some?
    ensures Covers(RefreshedScope(client, held, scopeText).value, x) <==> broader in AskedOrHeld(held, scopeText).value
    ensures broader in AskedOrHeld(held, scopeText).value ==> client.trusted && Covers(client.allowed, broader)
  {
    TokensIsBroader();
    OpenidWriteIsBroader();
    RenewedByBroader(client, held, scopeText, broader, x);
    var refreshed := RefreshedScope(client, held, scopeText).value;
    if broader in refreshed {
      var i :| 0 <= i < |refreshed| && refreshed[i] == broader;
      BroaderNeedsTheAllowList(client, broader);
    }
  }

  /** An input for the renewing side: a trusted client that holds `tokens` keeps it, and with it the session-token scope. */
  lemma TokensIsRenewed(client: Client)
    ensures var refreshed := RefreshedScope(client, [TOKENS], "");
            refreshed == Ok([TOKENS]) && Covers(refreshed.value, SESSION)
  {
    TokensIsBroader();
    BroaderScopesValid();
    assert [TOKENS][..0] == [];
    assert Keep([TOKENS], FromArray(NON_REFRESHABLE_LIST), false) == [TOKENS];
    assert Implies([TOKENS][0], SESSION);
  }
}
