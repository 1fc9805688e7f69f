/** Which requests are granted, and what of the scopes they name. */
module GrantDecisions {
  import opened Wrappers
  import opened Scopes
  import opened ScopeSets
  import opened Grants
  import opened Renewals

  // ---- what is granted of a request ----

  lemma KeepIsEmpty(held: seq<Scope>, other: seq<Scope>, implied: bool)
    ensures Keep(held, other, implied) == [] <==> forall s :: s in held ==> Covers(other, s) != implied
  {
    KeepMembers(held, other, implied);
    if Keep(held, other, implied) != [] { assert Keep(held, other, implied)[0] in Keep(held, other, implied); }
  }

  /** A request is granted if and only if each scope it names that carries a key is implied by the client's own allow-list,
      and it comes from an untrusted client and stays within the untrusted scopes, or from a trusted one and something of it
      is within the allow-list or the trusted scopes. */
  lemma GrantedIff(client: Client, requested: seq<Scope>)
    requires Canonical(client.allowed) && Canonical(requested)
    ensures ValidateRequestedGrant(client, requested).Ok?
            <==> (forall s :: s in requested && s in KEY_BEARING ==> Covers(client.allowed, s))
                 && (if client.trusted then
                       requested == []
                       || exists s :: s in requested && (Covers(client.allowed, s) || Covers(TRUSTED_LIST, s))
                     else forall s :: s in requested ==> Covers(UNTRUSTED_LIST, s))
    ensures ValidateRequestedGrant(client, requested).Err? ==> ValidateRequestedGrant(client, requested) == Err(InvalidScopes)
  {
    AllKeysAllowed(client, requested);
    if client.trusted {
      TrustedKeeps(client, requested);
    } else {
      KeepIsEmpty(requested, FromArray(UNTRUSTED_LIST), false);
      forall s | s in requested ensures Covers(FromArray(UNTRUSTED_LIST), s) <==> Covers(UNTRUSTED_LIST, s) {
        FixedListsValid();
        MemberIsValid(requested, s);
        FromArrayMeaning(UNTRUSTED_LIST, s);
      }
    }
  }

  lemma MemberIsValid(ss: seq<Scope>, s: Scope)
    requires AllValid(ss) && s in ss
    ensures Valid(s)
  {
  }

  lemma AllKeysAllowed(client: Client, requested: seq<Scope>)
    requires Canonical(client.allowed) && Canonical(requested)
    ensures Keep(FromArray(KeyBearing(requested)), client.allowed, false) == []
            <==> forall s :: s in requested && s in KEY_BEARING ==> Covers(client.allowed, s)
  {
    var keys := KeyBearing(requested);
    KeyBearingMembers(requested);
    forall i | 0 <= i < |keys| ensures Valid(keys[i]) { assert keys[i] in keys; }
    KeepIsEmpty(FromArray(keys), client.allowed, false);
    ContainsMembers(client.allowed, keys);
    ContainsMembers(client.allowed, FromArray(keys));
    if forall s :: s in requested && s in KEY_BEARING ==> Covers(client.allowed, s) {
      forall s | s in FromArray(keys) ensures Covers(client.allowed, s) { FromArrayIsCovered(keys, client.allowed, s); }
    } else {
      var s :| s in requested && s in KEY_BEARING && !Covers(client.allowed, s);
      if Keep(FromArray(keys), client.allowed, false) == [] { CoveredThroughArray(keys, client.allowed, s); }
    }
  }

  lemma MemberIsCovered(ss: seq<Scope>, s: Scope)
    requires AllValid(ss) && s in ss
    ensures Valid(s) && Covers(ss, s)
  {
    var i :| 0 <= i < |ss| && ss[i] == s;
    ImpliesReflexive(s);
  }

  /** What an array is boiled down to is implied by whatever implies the array, and the other way round. */
  lemma FromArrayIsCovered(ss: seq<Scope>, cover: seq<Scope>, s: Scope)
    requires AllValid(ss) && AllValid(cover) && s in FromArray(ss) && Contains(cover, ss)
    ensures Covers(cover, s)
  {
    AddAllKeepsCanonical([], ss);
    MemberIsCovered(FromArray(ss), s);
    FromArrayMeaning(ss, s);
    ContainsIsInclusion(cover, ss);
  }

  lemma CoveredThroughArray(ss: seq<Scope>, cover: seq<Scope>, s: Scope)
    requires AllValid(ss) && AllValid(cover) && s in ss && Contains(cover, FromArray(ss))
    ensures Covers(cover, s)
  {
    AddAllKeepsCanonical([], ss);
    MemberIsCovered(ss, s);
    FromArrayMeaning(ss, s);
    ContainsIsInclusion(cover, FromArray(ss));
  }

  lemma CeilingMeaning(client: Client, s: Scope)
    requires client.trusted && Canonical(client.allowed) && Valid(s)
    ensures Covers(Ceiling(client), s) <==> Covers(client.allowed, s) || Covers(TRUSTED_LIST, s)
  {
    FixedListsValid();
    FromArrayMeaning(TRUSTED_LIST, s);
    UnionMeaning(client.allowed, FromArray(TRUSTED_LIST), s);
  }

  lemma TrustedKeeps(client: Client, requested: seq<Scope>)
    requires client.trusted && Canonical(client.allowed) && Canonical(requested)
    ensures Keep(requested, Ceiling(client), true) == []
            <==> forall s :: s in requested ==> !(Covers(client.allowed, s) || Covers(TRUSTED_LIST, s))
  {
    KeepIsEmpty(requested, Ceiling(client), true);
    forall s | s in requested ensures Covers(Ceiling(client), s) <==> Covers(client.allowed, s) || Covers(TRUSTED_LIST, s) {
      MemberIsValid(requested, s);
      CeilingMeaning(client, s);
    }
  }

  /** The scopes that any client may have, and those that a trusted one may. */
  lemma FixedLists(s: Scope)
    ensures s in UNTRUSTED_LIST
            <==> s == Short(["openid"]) || s == Short(["profile", "uid"]) || s == Short(["profile", "email"])
                 || s == Short(["profile", "display_name"])
    ensures s in TRUSTED_LIST
            <==> s == Short(["openid"]) || s == Short(["profile"]) || s == Short(["email"])
                 || s == Short(["profile", "subscriptions"])
  {
  }

  // ---- what is asked for ----

  /** Without a scope, the Sync service stands for Sync and profile, and nothing else does for anything. */
  lemma ServiceStandsFor(service: Option<string>, x: Scope)
    requires Valid(x)
    ensures RequestedScope("", service).Ok? <==> service == Some("sync")
    ensures RequestedScope("", service).Ok? ==>
              (Covers(RequestedScope("", service).value, x) <==> Implies(OLDSYNC, x) || Implies(PROFILE, x))
  {
    if service == Some("sync") {
      FixedListsValid();
      FromArrayMeaning([OLDSYNC, PROFILE], x);
      assert [OLDSYNC, PROFILE][0] == OLDSYNC && [OLDSYNC, PROFILE][1] == PROFILE;
    }
  }

  /** A scope that is given is read, or refused. */
  lemma GivenScopeIsRead(scopeText: string, service: Option<string>)
    requires scopeText != ""
    ensures RequestedScope(scopeText, service)
            == match FromText(scopeText) case Some(requested) => Ok(requested) case None => Err(InvalidParameter)
  {
  }

  /** An authorization gets a code if and only if its client is known, its scope can be read, it has a challenge just when
      its client is public, and its scope is granted. */
  lemma AuthorizedIff(registry: Registry, s: Server, e: Event)
    requires e.Authorize?
    ensures Step(registry, s, e).reply.Coded?
            <==> e.clientId in registry && RequestedScope(e.scopeText, e.service).Ok?
                 && (registry[e.clientId].publicClient <==> e.challenge.Some?)
                 && ValidateRequestedGrant(registry[e.clientId], RequestedScope(e.scopeText, e.service).value).Ok?
    ensures Step(registry, s, e).reply.Coded? ==>
              FromText(Step(registry, s, e).reply.scope).Some? || !RegistryValid(registry)
    ensures !Step(registry, s, e).reply.Coded? ==> Step(registry, s, e).server == s
  {
    if RegistryValid(registry) && Step(registry, s, e).reply.Coded? {
      GrantedIsWithin(registry[e.clientId], e);
      TextRoundTrip(GrantedScope(registry[e.clientId], e).value);
    }
  }

  // ---- redeeming ----

  /** A code mints if and only if it is there, for this client, in time, with the verifier its challenge asks for, and the
      account still exists; a client that is not public may bring no verifier. */
  lemma RedeemedIff(registry: Registry, s: Server, e: Event)
    requires RegistryValid(registry) && Bounded(registry, s) && e.Redeem?
    ensures Step(registry, s, e).reply.Minted?
            <==> e.clientId in registry && e.codeId in s.codes && s.codes[e.codeId].clientId == e.clientId
                 && e.now <= s.codes[e.codeId].createdAt + 1000 * e.codeTtl
                 && e.verifier == s.codes[e.codeId].challenge && (e.verifier.Some? ==> registry[e.clientId].publicClient)
                 && e.accountExists
  {
    if e.codeId in s.codes { assert TextWithin(registry, s.codes[e.codeId].clientId, s.codes[e.codeId].scope); }
    if e.clientId in registry { ClientRedeems(s, registry[e.clientId], e); }
  }

  lemma ClientRedeems(s: Server, client: Client, e: Event)
    requires e.Redeem?
    ensures StepRedeem(s, client, e).reply.Minted?
            <==> e.codeId in s.codes && s.codes[e.codeId].clientId == client.id
                 && e.now <= s.codes[e.codeId].createdAt + 1000 * e.codeTtl
                 && e.verifier == s.codes[e.codeId].challenge && (e.verifier.Some? ==> client.publicClient)
                 && e.accountExists && FromText(s.codes[e.codeId].scope).Some?
  {
    if e.codeId in s.codes { VerifierIff(s.codes[e.codeId], e.verifier); }
  }

  lemma VerifierIff(code: Code, verifier: Option<string>)
    ensures CheckVerifier(code, verifier).None? <==> verifier == code.challenge
  {
  }

  /** And it is gone afterwards if and only if it was there for this client, and had expired or came with its verifier. */
  lemma SpentIff(registry: Registry, s: Server, e: Event)
    requires RegistryValid(registry) && e.Redeem? && e.clientId in registry && e.codeId in s.codes
    requires e.verifier.Some? ==> registry[e.clientId].publicClient
    ensures var code := s.codes[e.codeId];
            e.codeId !in Step(registry, s, e).server.codes
            <==> code.clientId == e.clientId && (e.now > code.createdAt + 1000 * e.codeTtl || e.verifier == code.challenge)
    ensures forall id :: id in s.codes && id != e.codeId ==>
              id in Step(registry, s, e).server.codes && Step(registry, s, e).server.codes[id] == s.codes[id]
  {
    RedeemOutcome(s, registry[e.clientId], e);
  }

  // ---- refreshing ----

  /** A refresh may ask for anything that is implied by what is held or, for a trusted client, by its allow-list or by the
      trusted scopes; and for nothing else. */
  lemma RefreshedIff(client: Client, held: seq<Scope>, scopeText: string)
    requires Canonical(client.allowed) && Canonical(held)
    ensures RefreshedScope(client, held, scopeText).Ok?
            <==> scopeText == ""
                 || (FromText(scopeText).Some?
                     && forall x :: x in FromText(scopeText).value ==>
                          Covers(held, x) || (client.trusted && (Covers(client.allowed, x) || Covers(TRUSTED_LIST, x))))
  {
    if scopeText != "" && FromText(scopeText).Some? {
      var requested := FromText(scopeText).value;
      FromTextIsCanonical(scopeText);
      ContainsMembers(held, requested);
      if client.trusted {
        var wide := Union(Union(held, client.allowed), FromArray(TRUSTED_LIST));
        ContainsMembers(wide, requested);
        forall x | x in requested
          ensures Covers(wide, x) <==> Covers(held, x) || Covers(client.allowed, x) || Covers(TRUSTED_LIST, x)
        {
          MemberIsValid(requested, x);
          WideMeaning(held, client.allowed, x);
        }
      }
    }
  }

  lemma ContainsMembers(a: seq<Scope>, b: seq<Scope>)
    ensures Contains(a, b) <==> forall x :: x in b ==> Covers(a, x)
  {
    if Contains(a, b) {
      forall x | x in b ensures Covers(a, x) { var i :| 0 <= i < |b| && b[i] == x; }
    }
  }

  lemma WideMeaning(held: seq<Scope>, allowed: seq<Scope>, x: Scope)
    requires Canonical(held) && Canonical(allowed) && Valid(x)
    ensures Covers(Union(Union(held, allowed), FromArray(TRUSTED_LIST)), x)
            <==> Covers(held, x) || Covers(allowed, x) || Covers(TRUSTED_LIST, x)
  {
    FixedListsValid();
    FromArrayMeaning(TRUSTED_LIST, x);
    UnionMeaning(held, allowed, x);
    UnionMeaning(Union(held, allowed), FromArray(TRUSTED_LIST), x);
  }

  /** And it keeps of that set exactly what neither `openid` nor the session-token scope implies. */
  lemma RefreshedMembers(client: Client, held: seq<Scope>, scopeText: string, x: Scope)
    requires AllValid(held) && RefreshedScope(client, held, scopeText).Ok?
    ensures AskedOrHeld(held, scopeText).Some?
    ensures x in RefreshedScope(client, held, scopeText).value
            <==> x in AskedOrHeld(held, scopeText).value && !Implies(OPENID, x) && !Implies(SESSION, x)
  {
    var from := AskedOrHeld(held, scopeText).value;
    if scopeText != "" { FromTextIsCanonical(scopeText); }
    KeepMembers(from, FromArray(NON_REFRESHABLE_LIST), false);
    if x in from {
      MemberIsValid(from, x);
      OnceCovers(x);
    }
  }

  /** A refresh token mints if and only if it is there, for this client, what is asked for may be, and the account exists;
      and the token it mints has just that scope. */
  lemma RefreshMintsIff(registry: Registry, s: Server, e: Event)
    requires RegistryValid(registry) && Bounded(registry, s) && e.Refresh?
    ensures Step(registry, s, e).reply.Minted?
            <==> e.clientId in registry && e.tokenId in s.refreshTokens && s.refreshTokens[e.tokenId].clientId == e.clientId
                 && e.accountExists
                 && RefreshedScope(registry[e.clientId], FromText(s.refreshTokens[e.tokenId].scope).GetOr([]), e.scopeText).Ok?
  {
    if e.tokenId in s.refreshTokens {
      assert TextWithin(registry, s.refreshTokens[e.tokenId].clientId, s.refreshTokens[e.tokenId].scope);
    }
    if e.clientId in registry { ClientRefreshes(s, registry[e.clientId], e); }
  }

  lemma ClientRefreshes(s: Server, client: Client, e: Event)
    requires e.Refresh?
    requires e.tokenId in s.refreshTokens && s.refreshTokens[e.tokenId].clientId == client.id ==>
               FromText(s.refreshTokens[e.tokenId].scope).Some?
    ensures StepRefresh(s, client, e).reply.Minted?
            <==> e.tokenId in s.refreshTokens && s.refreshTokens[e.tokenId].clientId == client.id && e.accountExists
                 && RefreshedScope(client, FromText(s.refreshTokens[e.tokenId].scope).GetOr([]), e.scopeText).Ok?
  {
  }

  // ---- direct grants ----

  /** A session gets tokens if and only if its client may grant and is public, and the scope it names is granted. */
  lemma DirectIff(registry: Registry, s: Server, e: Event)
    requires e.Direct?
    ensures Step(registry, s, e).reply.Minted?
            <==> e.clientId in registry && registry[e.clientId].canGrant && registry[e.clientId].publicClient
                 && e.session.Some? && e.scope.Some? && FromText(e.scope.value).Some?
                 && ValidateRequestedGrant(registry[e.clientId], FromText(e.scope.value).value).Ok?
  {
  }
}
