/** What a client may have, and the life of a grant from authorization to the last refresh. */
module Grants {
  import opened Wrappers
  import opened ScopeText
  import opened Scopes
  import opened ScopeSets

  // ---- fixed scope sets ----

  const OLDSYNC: Scope := Url("identity.mozilla.com", ["apps", "oldsync"], "")
  const SESSION: Scope := Url("identity.mozilla.com", ["tokens", "session"], "")
  const TELEMETRY: Scope := Url("identity.mozilla.com", ["ids", "ecosystem_telemetry"], "")
  const THUNDERBIRD_SYNC: Scope := Url("identity.thunderbird.net", ["apps", "sync"], "")
  const OPENID: Scope := Short(["openid"])
  const PROFILE: Scope := Short(["profile"])

  const KEY_BEARING: set<Scope> := {OLDSYNC, TELEMETRY, THUNDERBIRD_SYNC}

  const UNTRUSTED_LIST: seq<Scope> :=
    [OPENID, Short(["profile", "uid"]), Short(["profile", "email"]), Short(["profile", "display_name"])]
  const TRUSTED_LIST: seq<Scope> := [OPENID, PROFILE, Short(["email"]), Short(["profile", "subscriptions"])]
  const NON_REFRESHABLE_LIST: seq<Scope> := [OPENID, SESSION]

  function FromArray(ss: seq<Scope>): seq<Scope> {
    AddAll([], ss)
  }

  function Union(a: seq<Scope>, b: seq<Scope>): seq<Scope> {
    AddAll(AddAll([], a), b)
  }

  // ---- records ----

  datatype Client = Client(
    id: string, allowed: seq<Scope>, trusted: bool, canGrant: bool, publicClient: bool)

  type Registry = map<string, Client>

  /** An authorization code's row; the scope travels as text. */
  datatype Code = Code(
    clientId: string, uid: string, scope: string, createdAt: int, challenge: Option<string>, offline: bool)

  datatype RefreshToken = RefreshToken(
    clientId: string, uid: string, scope: string, createdAt: int, lastUsedAt: int)

  datatype AccessToken = AccessToken(clientId: string, uid: string, scope: string, forTokenserver: bool)

  datatype Grant = Grant(client: Client, uid: string, scope: seq<Scope>, offline: bool)

  datatype Error =
    | UnknownClient | InvalidParameter | InvalidScopes | MissingPkce | NotPublicClient
    | UnknownCode | MismatchCode | ExpiredCode | MismatchChallenge | InvalidToken | InvalidGrantType | NoSession

  datatype Server = Server(codes: map<string, Code>, refreshTokens: map<string, RefreshToken>)

  /** Requests, with what is random (fresh ids) or computed elsewhere (the challenge of a verifier)
      as arguments. */
  datatype Event =
    | Authorize(clientId: string, scopeText: string, service: Option<string>, uid: string, offline: bool,
                challenge: Option<string>, codeId: string, codeTtl: int, now: int)
    | Redeem(clientId: string, codeId: string, verifier: Option<string>, accountExists: bool,
             codeTtl: int, now: int, tokenId: string)
    | Refresh(clientId: string, tokenId: string, scopeText: string, accountExists: bool, now: int)
    | Direct(clientId: string, scope: Option<string>, session: Option<string>, offline: bool, now: int, tokenId: string)

  datatype Reply =
    | Coded(codeId: string, scope: string)
    | Minted(token: AccessToken, refreshId: Option<string>)
    | Failed(error: Error)

  datatype Outcome = Outcome(server: Server, reply: Reply)

  // ---- decisions ----

  function KeyBearing(scope: seq<Scope>): seq<Scope> {
    if scope == [] then []
    else KeyBearing(scope[..|scope| - 1])
         + if scope[|scope| - 1] in KEY_BEARING then [scope[|scope| - 1]] else []
  }

  /** `validate_requested_grant`: which of the requested scopes this client is granted. */
  function ValidateRequestedGrant(client: Client, requested: seq<Scope>): Result<seq<Scope>, Error> {
    if !client.trusted && Keep(requested, FromArray(UNTRUSTED_LIST), false) != [] then Err(InvalidScopes)
    else if Keep(FromArray(KeyBearing(requested)), client.allowed, false) != [] then Err(InvalidScopes)
    else if !client.trusted then Ok(requested)
    else
      var granted := Keep(requested, Union(client.allowed, FromArray(TRUSTED_LIST)), true);
      if granted == [] && requested != [] then Err(InvalidScopes) else Ok(granted)
  }

  /** The scope of `_refresh_token_grant`: narrowed, or widened within the allow-list if trusted. */
  function RefreshedScope(client: Client, held: seq<Scope>, scopeText: string): Result<seq<Scope>, Error> {
    if scopeText == "" then Ok(Keep(held, FromArray(NON_REFRESHABLE_LIST), false))
    else
      match FromText(scopeText)
      case None => Err(InvalidParameter)
      case Some(requested) =>
        var allowed := if client.trusted then Union(Union(held, client.allowed), FromArray(TRUSTED_LIST)) else held;
        if !Contains(held, requested) && !Contains(allowed, requested) then Err(InvalidScopes)
        else Ok(Keep(requested, FromArray(NON_REFRESHABLE_LIST), false))
  }

  /** `scope=` if given, otherwise what `service=` stands for. */
  function RequestedScope(scopeText: string, service: Option<string>): Result<seq<Scope>, Error> {
    if scopeText != "" then
      match FromText(scopeText)
      case None => Err(InvalidParameter)
      case Some(requested) => Ok(requested)
    else if service == Some("sync") then Ok(FromArray([OLDSYNC, PROFILE]))
    else Err(InvalidParameter)
  }

  function CheckVerifier(code: Code, verifier: Option<string>): Option<Error> {
    match code.challenge
    case Some(challenge) =>
      if verifier.None? then Some(MissingPkce)
      else if verifier.value != challenge then Some(MismatchChallenge)
      else None
    case None => if verifier.Some? then Some(MismatchChallenge) else None
  }

  /** `generate_tokens`: the access token, audienced to the tokenserver iff its scope covers Sync. */
  function MintToken(grant: Grant): AccessToken {
    AccessToken(grant.client.id, grant.uid, Text(grant.scope), Contains(grant.scope, [OLDSYNC]))
  }

  /** The row of a fresh refresh token. */
  function MintRow(grant: Grant, now: int): RefreshToken {
    RefreshToken(grant.client.id, grant.uid, Text(grant.scope), now, now)
  }

  function Mint(s: Server, grant: Grant, now: int, tokenId: string): Outcome {
    if grant.offline then
      Outcome(s.(refreshTokens := s.refreshTokens[tokenId := MintRow(grant, now)]), Minted(MintToken(grant), Some(tokenId)))
    else Outcome(s, Minted(MintToken(grant), None))
  }

  /** `delete_expired_oauth_codes`. */
  function Unexpired(codes: map<string, Code>, before: int): map<string, Code> {
    map id | id in codes && codes[id].createdAt >= before :: codes[id]
  }

  function NewCode(client: Client, e: Event, granted: seq<Scope>): Code
    requires e.Authorize?
  {
    Code(client.id, e.uid, Text(granted), e.now, e.challenge, e.offline)
  }

  // ---- steps ----

  /** What an authorization request is granted: its scope is read, its challenge checked, its client vetted. */
  function GrantedScope(client: Client, e: Event): Result<seq<Scope>, Error>
    requires e.Authorize?
  {
    match RequestedScope(e.scopeText, e.service)
    case Err(error) => Err(error)
    case Ok(requested) =>
      if client.publicClient && e.challenge.None? then Err(MissingPkce)
      else if !client.publicClient && e.challenge.Some? then Err(NotPublicClient)
      else ValidateRequestedGrant(client, requested)
  }

  function StepAuthorize(s: Server, client: Client, e: Event): Outcome
    requires e.Authorize?
  {
    Answered(s, client, e, GrantedScope(client, e))
  }

  function Answered(s: Server, client: Client, e: Event, granted: Result<seq<Scope>, Error>): Outcome
    requires e.Authorize?
  {
    match granted
    case Err(error) => Outcome(s, Failed(error))
    case Ok(scope) => IssueCode(s, client, e, scope)
  }

  /** Expired codes are swept along with it. */
  function IssueCode(s: Server, client: Client, e: Event, granted: seq<Scope>): Outcome
    requires e.Authorize?
  {
    var codes := Unexpired(s.codes, e.now - e.codeTtl * 1000);
    Outcome(s.(codes := codes[e.codeId := NewCode(client, e, granted)]), Coded(e.codeId, Text(granted)))
  }

  function StepRedeem(s: Server, client: Client, e: Event): Outcome
    requires e.Redeem?
  {
    if e.verifier.Some? && !client.publicClient then Outcome(s, Failed(NotPublicClient))
    else if e.codeId !in s.codes then Outcome(s, Failed(UnknownCode))
    else
      var code := s.codes[e.codeId];
      var spent := s.(codes := s.codes - {e.codeId});
      if code.clientId != client.id then Outcome(s, Failed(MismatchCode))
      else if e.now > code.createdAt + e.codeTtl * 1000 then Outcome(spent, Failed(ExpiredCode))
      else if CheckVerifier(code, e.verifier).Some? then Outcome(s, Failed(CheckVerifier(code, e.verifier).value))
      else if !e.accountExists then Outcome(spent, Failed(InvalidToken))
      else
        match FromText(code.scope)
        case None => Outcome(spent, Failed(InvalidParameter))
        case Some(scope) => Mint(spent, Grant(client, code.uid, scope, code.offline), e.now, e.tokenId)
  }

  function StepRefresh(s: Server, client: Client, e: Event): Outcome
    requires e.Refresh?
  {
    if e.tokenId !in s.refreshTokens || s.refreshTokens[e.tokenId].clientId != client.id then
      Outcome(s, Failed(InvalidToken))
    else
      var row := s.refreshTokens[e.tokenId];
      match FromText(row.scope)
      case None => Outcome(s, Failed(InvalidParameter))
      case Some(held) =>
        match RefreshedScope(client, held, e.scopeText)
        case Err(error) => Outcome(s, Failed(error))
        case Ok(scope) =>
          if !e.accountExists then Outcome(s, Failed(InvalidToken))
          else
            Outcome(s.(refreshTokens := s.refreshTokens[e.tokenId := row.(lastUsedAt := e.now)]),
                    Minted(MintToken(Grant(client, row.uid, scope, false)), None))
  }

  function StepDirect(s: Server, client: Client, e: Event): Outcome
    requires e.Direct?
  {
    if !client.canGrant then Outcome(s, Failed(InvalidGrantType))
    else if !client.publicClient then Outcome(s, Failed(NotPublicClient))
    else if e.scope.None? then Outcome(s, Failed(InvalidParameter))
    else if e.session.None? then Outcome(s, Failed(NoSession))
    else
      match FromText(e.scope.value)
      case None => Outcome(s, Failed(InvalidParameter))
      case Some(requested) =>
        match ValidateRequestedGrant(client, requested)
        case Err(error) => Outcome(s, Failed(error))
        case Ok(scope) => Mint(s, Grant(client, e.session.value, scope, e.offline), e.now, e.tokenId)
  }

  function Step(registry: Registry, s: Server, e: Event): Outcome {
    if e.clientId !in registry then Outcome(s, Failed(UnknownClient))
    else
      var client := registry[e.clientId];
      match e
      case Authorize(_, _, _, _, _, _, _, _, _) => StepAuthorize(s, client, e)
      case Redeem(_, _, _, _, _, _, _) => StepRedeem(s, client, e)
      case Refresh(_, _, _, _, _) => StepRefresh(s, client, e)
      case Direct(_, _, _, _, _, _) => StepDirect(s, client, e)
  }

  function Run(registry: Registry, s: Server, events: seq<Event>): Server {
    if events == [] then s
    else Step(registry, Run(registry, s, events[..|events| - 1]), events[|events| - 1]).server
  }

  // ---- the ceiling ----

  /** All a client may ever be granted. */
  function Ceiling(client: Client): seq<Scope> {
    if client.trusted then Union(client.allowed, FromArray(TRUSTED_LIST)) else FromArray(UNTRUSTED_LIST)
  }

  ghost predicate RegistryValid(registry: Registry) {
    forall id :: id in registry ==> registry[id].id == id && Canonical(registry[id].allowed)
  }

  lemma OneWord(a: string)
    requires Word(a) && a != "write"
    ensures Valid(Short([a]))
  {
  }

  lemma TwoWords(a: string, b: string)
    requires Word(a) && Word(b) && a != "https"
    ensures Valid(Short([a, b]))
  {
    assert [a, b] != ["write"] by { assert |[a, b]| == 2; }
  }

  lemma ShortListsValid()
    ensures Valid(OPENID) && Valid(PROFILE) && AllValid(UNTRUSTED_LIST) && AllValid(TRUSTED_LIST)
  {
    OneWord("openid");
    OneWord("profile");
    OneWord("email");
    TwoWords("profile", "uid");
    TwoWords("profile", "email");
    TwoWords("profile", "display_name");
    TwoWords("profile", "subscriptions");
  }

  lemma TwoSegments(netloc: string, a: string, b: string)
    requires Plain(netloc) && Plain(a) && Plain(b) && a[0] != '.' && b[0] != '.'
    ensures Valid(Url(netloc, [a, b], ""))
  {
    PlainHost(netloc);
    PlainSegment(a);
    PlainSegment(b);
  }

  predicate Plain(s: string) {
    s != "" && forall i :: 0 <= i < |s| ==> 'a' <= s[i] <= 'z' || s[i] == '.' || s[i] == '_'
  }

  lemma PlainHost(netloc: string)
    requires Plain(netloc)
    ensures Authority(netloc)
  {
    assert '@' !in netloc && '[' !in netloc && ']' !in netloc;
    if |netloc| >= 4 {
      LastOfSuffix(netloc, 4);
      assert ":443"[3] == '3';
    }
  }

  lemma LastOfSuffix(s: string, n: nat)
    requires 0 < n <= |s|
    ensures s[|s| - n..][n - 1] == s[|s| - 1]
  {
  }

  lemma PlainSegment(s: string)
    requires Plain(s) && s[0] != '.'
    ensures Segment(s)
  {
  }

  lemma HostsArePlain()
    ensures Plain("identity.mozilla.com") && Plain("identity.thunderbird.net")
  {
  }

  lemma SegmentsArePlain()
    ensures Plain("apps") && Plain("oldsync") && Plain("tokens") && Plain("session") && Plain("sync") && Plain("ids")
  {
  }

  lemma LongSegmentIsPlain()
    ensures Plain("ecosystem_telemetry")
  {
  }

  lemma UrlsValid()
    ensures Valid(OLDSYNC) && Valid(SESSION) && Valid(TELEMETRY) && Valid(THUNDERBIRD_SYNC)
  {
    HostsArePlain();
    SegmentsArePlain();
    LongSegmentIsPlain();
    TwoSegments("identity.mozilla.com", "apps", "oldsync");
    TwoSegments("identity.mozilla.com", "tokens", "session");
    TwoSegments("identity.mozilla.com", "ids", "ecosystem_telemetry");
    TwoSegments("identity.thunderbird.net", "apps", "sync");
  }

  lemma JoinTwo(a: string, b: string, sep: char)
    ensures Join([a, b], sep) == a + [sep] + b
  {
    assert [a, b][1..] == [b];
  }

  lemma JoinThree(a: string, b: string, c: string, sep: char)
    ensures Join([a, b, c], sep) == a + [sep] + (b + [sep] + c)
  {
    assert [a, b, c][1..] == [b, c];
    JoinTwo(b, c, sep);
  }

  lemma TwoSegmentsAreWritten(netloc: string, a: string, b: string)
    ensures Spell(Url(netloc, [a, b], "")) == "https://" + (netloc + "/" + (a + "/" + b)) + ""
  {
    assert [netloc] + [a, b] == [netloc, a, b];
    JoinThree(netloc, a, b, '/');
  }

  /** How the scopes that matter most are written. */
  lemma FixedScopesAreWritten()
    ensures Spell(OLDSYNC) == "https://" + ("identity.mozilla.com" + "/" + ("apps" + "/" + "oldsync")) + ""
    ensures Spell(SESSION) == "https://" + ("identity.mozilla.com" + "/" + ("tokens" + "/" + "session")) + ""
    ensures Spell(Short(["profile", "email"])) == "profile" + ":" + "email"
  {
    TwoSegmentsAreWritten("identity.mozilla.com", "apps", "oldsync");
    TwoSegmentsAreWritten("identity.mozilla.com", "tokens", "session");
    JoinTwo("profile", "email", ':');
  }

  lemma FixedListsValid()
    ensures AllValid(UNTRUSTED_LIST) && AllValid(TRUSTED_LIST) && AllValid(NON_REFRESHABLE_LIST)
    ensures Valid(OLDSYNC) && AllValid([OLDSYNC, PROFILE])
    ensures forall k :: k in KEY_BEARING ==> Valid(k)
  {
    ShortListsValid();
    UrlsValid();
  }

  lemma FromArrayMeaning(ss: seq<Scope>, x: Scope)
    requires AllValid(ss) && Valid(x)
    ensures Canonical(FromArray(ss))
    ensures Covers(FromArray(ss), x) <==> Covers(ss, x)
  {
    AddAllKeepsCanonical([], ss);
    AddAllMeaning([], ss, x);
  }

  lemma CeilingIsCanonical(client: Client)
    requires Canonical(client.allowed)
    ensures Canonical(Ceiling(client))
  {
    FixedListsValid();
    AddAllKeepsCanonical([], UNTRUSTED_LIST);
    AddAllKeepsCanonical([], TRUSTED_LIST);
    AddAllKeepsCanonical([], client.allowed);
    AddAllKeepsCanonical(AddAll([], client.allowed), FromArray(TRUSTED_LIST));
  }

  /** A scope set that is canonical and lies within the client's ceiling. */
  ghost predicate Within(client: Client, scope: seq<Scope>) {
    Canonical(scope) && Contains(Ceiling(client), scope)
  }

  lemma KeepNothing(held: seq<Scope>, other: seq<Scope>)
    requires Keep(held, other, false) == []
    ensures Contains(other, held)
  {
    KeepMembers(held, other, false);
    forall i | 0 <= i < |held| ensures Covers(other, held[i]) { assert held[i] in held; }
  }

  lemma KeepWithin(client: Client, scope: seq<Scope>, other: seq<Scope>, implied: bool)
    requires Canonical(scope)
    ensures Canonical(Keep(scope, other, implied))
    ensures Contains(Ceiling(client), scope) ==> Contains(Ceiling(client), Keep(scope, other, implied))
    ensures implied ==> Contains(other, Keep(scope, other, implied))
  {
    FilterPartitions(scope, other);
    KeepMembers(scope, other, implied);
    var kept := Keep(scope, other, implied);
    forall i | 0 <= i < |kept| ensures kept[i] in scope && Covers(other, kept[i]) == implied {
      assert kept[i] in kept;
    }
  }

  /** Whatever is granted is canonical, asked for, and within the ceiling; an untrusted client gets
      all it asked for or nothing, a trusted one exactly what its ceiling implies. */
  lemma ValidatedIsWithinCeiling(client: Client, requested: seq<Scope>)
    requires Canonical(client.allowed) && Canonical(requested)
    ensures var r := ValidateRequestedGrant(client, requested);
            r.Ok? ==> Within(client, r.value)
                      && forall s :: s in r.value <==> s in requested && Covers(Ceiling(client), s)
  {
    var r := ValidateRequestedGrant(client, requested);
    if r.Ok? {
      if client.trusted {
        KeepWithin(client, requested, Ceiling(client), true);
        KeepMembers(requested, Ceiling(client), true);
      } else {
        KeepNothing(requested, Ceiling(client));
        forall s | s in requested ensures Covers(Ceiling(client), s) {
          var i :| 0 <= i < |requested| && requested[i] == s;
        }
      }
    }
  }

  lemma {:induction false} KeyBearingMembers(scope: seq<Scope>)
    ensures forall s :: s in KeyBearing(scope) <==> s in scope && s in KEY_BEARING
  {
    if scope != [] {
      KeyBearingMembers(scope[..|scope| - 1]);
      assert scope == scope[..|scope| - 1] + [scope[|scope| - 1]];
    }
  }

  /** A key-bearing scope is granted only to a client whose own allow-list implies it. */
  lemma KeysNeedTheAllowList(client: Client, requested: seq<Scope>, key: Scope)
    requires Canonical(client.allowed) && Canonical(requested)
    requires key in requested && key in KEY_BEARING && ValidateRequestedGrant(client, requested).Ok?
    ensures Covers(client.allowed, key)
  {
    var keys := KeyBearing(requested);
    KeyBearingMembers(requested);
    FixedListsValid();
    forall i | 0 <= i < |keys| ensures Valid(keys[i]) { assert keys[i] in keys; }
    FromArrayMeaning(keys, key);
    var i :| 0 <= i < |keys| && keys[i] == key;
    ImpliesReflexive(key);
    assert Covers(keys, key);
    KeepNothing(FromArray(keys), client.allowed);
    var j :| 0 <= j < |FromArray(keys)| && Implies(FromArray(keys)[j], key);
    var k :| 0 <= k < |client.allowed| && Implies(client.allowed[k], FromArray(keys)[j]);
    ImpliesTransitive(client.allowed[k], FromArray(keys)[j], key);
  }

  lemma ContainsTransitive(a: seq<Scope>, b: seq<Scope>, c: seq<Scope>)
    requires AllValid(a) && AllValid(b) && AllValid(c) && Contains(a, b) && Contains(b, c)
    ensures Contains(a, c)
  {
    ContainsIsInclusion(a, b);
    forall i | 0 <= i < |c| ensures Covers(a, c[i]) {
      assert Covers(b, c[i]);
    }
  }

  /** The union a trusted client may widen to is still under its ceiling. */
  lemma WideningStaysUnder(client: Client, held: seq<Scope>)
    requires client.trusted && Canonical(client.allowed) && Within(client, held)
    ensures var wide := Union(Union(held, client.allowed), FromArray(TRUSTED_LIST));
            Canonical(wide) && Contains(Ceiling(client), wide)
  {
    FixedListsValid();
    AddAllKeepsCanonical([], TRUSTED_LIST);
    AddAllKeepsCanonical([], held);
    AddAllKeepsCanonical(AddAll([], held), client.allowed);
    var trusted, both := FromArray(TRUSTED_LIST), Union(held, client.allowed);
    var wide := Union(both, trusted);
    AddAllKeepsCanonical([], both);
    AddAllKeepsCanonical(AddAll([], both), trusted);
    ContainsIsInclusion(Ceiling(client), held) by { CeilingIsCanonical(client); }
    forall i | 0 <= i < |wide| ensures Covers(Ceiling(client), wide[i]) {
      var x := wide[i];
      ImpliesReflexive(x);
      assert Covers(wide, x);
      UnionMeaning(both, trusted, x);
      UnionMeaning(held, client.allowed, x);
      UnionMeaning(client.allowed, trusted, x);
    }
  }

  lemma RefreshedIsWithinCeiling(client: Client, held: seq<Scope>, scopeText: string)
    requires Canonical(client.allowed) && Within(client, held)
    ensures RefreshedScope(client, held, scopeText).Ok? ==> Within(client, RefreshedScope(client, held, scopeText).value)
  {
    var once := FromArray(NON_REFRESHABLE_LIST);
    KeepWithin(client, held, once, false);
    if scopeText != "" && RefreshedScope(client, held, scopeText).Ok? {
      var requested := FromText(scopeText).value;
      FromTextIsCanonical(scopeText);
      CeilingIsCanonical(client);
      if Contains(held, requested) || !client.trusted {
        ContainsTransitive(Ceiling(client), held, requested);
      } else {
        WideningStaysUnder(client, held);
        ContainsTransitive(Ceiling(client), Union(Union(held, client.allowed), FromArray(TRUSTED_LIST)), requested);
      }
      KeepWithin(client, requested, once, false);
    }
  }

  // ---- over runs ----

  /** A stored scope text that reads back as a set within its client's ceiling. */
  ghost predicate TextWithin(registry: Registry, clientId: string, text: string) {
    clientId in registry && FromText(text).Some? && Within(registry[clientId], FromText(text).value)
  }

  ghost predicate Bounded(registry: Registry, s: Server) {
    (forall id :: id in s.codes ==> TextWithin(registry, s.codes[id].clientId, s.codes[id].scope))
    && (forall id :: id in s.refreshTokens ==>
          TextWithin(registry, s.refreshTokens[id].clientId, s.refreshTokens[id].scope))
  }

  lemma ShortNamesLackUrls(ss: seq<Scope>, url: Scope)
    requires AllValid(ss) && Valid(url) && url.Url? && forall i :: 0 <= i < |ss| ==> ss[i].Short?
    ensures Canonical(FromArray(ss)) && !Covers(FromArray(ss), url)
  {
    FromArrayMeaning(ss, url);
    forall i | 0 <= i < |ss| ensures !Implies(ss[i], url) { KindsDoNotMix(ss[i], url); }
  }

  lemma FixedListsAreShort()
    ensures forall i :: 0 <= i < |UNTRUSTED_LIST| ==> UNTRUSTED_LIST[i].Short?
    ensures forall i :: 0 <= i < |TRUSTED_LIST| ==> TRUSTED_LIST[i].Short?
  {
  }

  lemma KeysAreUrls(key: Scope)
    requires key in KEY_BEARING
    ensures key.Url? && Valid(key)
  {
    UrlsValid();
  }

  lemma FixedListsLackKeys(key: Scope)
    requires key in KEY_BEARING
    ensures !Covers(FromArray(UNTRUSTED_LIST), key) && !Covers(FromArray(TRUSTED_LIST), key)
    ensures Canonical(FromArray(TRUSTED_LIST)) && Valid(key)
  {
    KeysAreUrls(key);
    FixedListsAreShort();
    ShortListsValid();
    ShortNamesLackUrls(UNTRUSTED_LIST, key);
    ShortNamesLackUrls(TRUSTED_LIST, key);
  }

  /** Only a trusted client whose own allow-list implies a key-bearing scope has that scope under its ceiling. */
  lemma KeysUnderTheCeiling(client: Client, key: Scope)
    requires Canonical(client.allowed) && key in KEY_BEARING && Covers(Ceiling(client), key)
    ensures client.trusted && Covers(client.allowed, key)
  {
    FixedListsLackKeys(key);
    UnionMeaning(client.allowed, FromArray(TRUSTED_LIST), key);
  }

  /** What a minted token may say: its scope lies within the ceiling of its client; each key-bearing scope it covers is
      implied by that client's own allow-list; and it is audienced to the tokenserver only if it covers Sync. */
  ghost predicate TokenBounded(registry: Registry, token: AccessToken) {
    TextWithin(registry, token.clientId, token.scope)
    && (forall key :: key in KEY_BEARING && Covers(FromText(token.scope).value, key) ==>
          registry[token.clientId].trusted && Covers(registry[token.clientId].allowed, key))
    && (token.forTokenserver <==> Covers(FromText(token.scope).value, OLDSYNC))
  }

  ghost predicate ReplyBounded(registry: Registry, reply: Reply) {
    reply.Minted? ==> TokenBounded(registry, reply.token)
  }

  lemma KeysOfGrant(client: Client, scope: seq<Scope>, key: Scope)
    requires Canonical(client.allowed) && Within(client, scope) && key in KEY_BEARING && Covers(scope, key)
    ensures client.trusted && Covers(client.allowed, key)
  {
    CeilingIsCanonical(client);
    FixedListsValid();
    ContainsTransitive(Ceiling(client), scope, [key]);
    assert Covers(Ceiling(client), [key][0]);
    KeysUnderTheCeiling(client, key);
  }

  lemma TokenIsBounded(registry: Registry, grant: Grant)
    requires RegistryValid(registry) && grant.client.id in registry && registry[grant.client.id] == grant.client
    requires Within(grant.client, grant.scope)
    ensures TokenBounded(registry, MintToken(grant))
  {
    TextRoundTrip(grant.scope);
    forall key | key in KEY_BEARING && Covers(grant.scope, key)
      ensures grant.client.trusted && Covers(grant.client.allowed, key)
    {
      KeysOfGrant(grant.client, grant.scope, key);
    }
    assert Contains(grant.scope, [OLDSYNC]) <==> Covers(grant.scope, [OLDSYNC][0]);
  }

  lemma MintIsBounded(registry: Registry, s: Server, grant: Grant, now: int, tokenId: string)
    requires RegistryValid(registry) && Bounded(registry, s)
    requires grant.client.id in registry && registry[grant.client.id] == grant.client
    requires Within(grant.client, grant.scope)
    ensures Bounded(registry, Mint(s, grant, now, tokenId).server)
    ensures TokenBounded(registry, MintToken(grant))
  {
    TextRoundTrip(grant.scope);
    TokenIsBounded(registry, grant);
  }

  lemma RequestedIsCanonical(scopeText: string, service: Option<string>)
    ensures RequestedScope(scopeText, service).Ok? ==> Canonical(RequestedScope(scopeText, service).value)
  {
    FixedListsValid();
    FromTextIsCanonical(scopeText);
    AddAllKeepsCanonical([], [OLDSYNC, PROFILE]);
  }

  lemma GrantedIsWithin(client: Client, e: Event)
    requires Canonical(client.allowed) && e.Authorize? && GrantedScope(client, e).Ok?
    ensures Within(client, GrantedScope(client, e).value)
  {
    RequestedIsCanonical(e.scopeText, e.service);
    ValidatedIsWithinCeiling(client, RequestedScope(e.scopeText, e.service).value);
  }

  lemma IssueIsBounded(registry: Registry, s: Server, client: Client, e: Event, granted: seq<Scope>)
    requires Bounded(registry, s) && e.Authorize? && client.id in registry && registry[client.id] == client
    requires Within(client, granted)
    ensures Bounded(registry, IssueCode(s, client, e, granted).server)
  {
    TextRoundTrip(granted);
    assert TextWithin(registry, client.id, NewCode(client, e, granted).scope);
  }

  lemma AuthorizeIsBounded(registry: Registry, s: Server, e: Event)
    requires RegistryValid(registry) && Bounded(registry, s) && e.Authorize? && e.clientId in registry
    ensures Bounded(registry, StepAuthorize(s, registry[e.clientId], e).server)
    ensures !StepAuthorize(s, registry[e.clientId], e).reply.Minted?
  {
    var client := registry[e.clientId];
    var granted := GrantedScope(client, e);
    if granted.Ok? {
      GrantedIsWithin(client, e);
      IssueIsBounded(registry, s, client, e, granted.value);
    }
  }

  lemma RedeemIsBounded(registry: Registry, s: Server, e: Event)
    requires RegistryValid(registry) && Bounded(registry, s) && e.Redeem? && e.clientId in registry
    ensures var out := StepRedeem(s, registry[e.clientId], e);
            Bounded(registry, out.server) && ReplyBounded(registry, out.reply)
  {
    var client, out := registry[e.clientId], StepRedeem(s, registry[e.clientId], e);
    RedeemOutcome(s, client, e);
    SpentIsBounded(registry, s, e.codeId);
    if out.reply.Minted? {
      var code := s.codes[e.codeId];
      assert TextWithin(registry, code.clientId, code.scope);
      MintIsBounded(registry, Spent(s, e.codeId), Grant(client, code.uid, FromText(code.scope).value, code.offline),
                    e.now, e.tokenId);
    }
  }

  function Spent(s: Server, codeId: string): Server {
    s.(codes := s.codes - {codeId})
  }

  lemma SpentIsBounded(registry: Registry, s: Server, codeId: string)
    requires Bounded(registry, s)
    ensures Bounded(registry, Spent(s, codeId))
  {
  }

  /** Redeeming fails, perhaps spending the code, or mints what the code was issued for. */
  lemma RedeemOutcome(s: Server, client: Client, e: Event)
    requires e.Redeem?
    ensures var out := StepRedeem(s, client, e);
            if !out.reply.Minted? then out.server == s || out.server == Spent(s, e.codeId)
            else
              e.codeId in s.codes && s.codes[e.codeId].clientId == client.id && FromText(s.codes[e.codeId].scope).Some?
              && var code := s.codes[e.codeId];
                 out == Mint(Spent(s, e.codeId), Grant(client, code.uid, FromText(code.scope).value, code.offline),
                             e.now, e.tokenId)
  {
  }

  lemma RefreshIsBounded(registry: Registry, s: Server, e: Event)
    requires RegistryValid(registry) && Bounded(registry, s) && e.Refresh? && e.clientId in registry
    ensures var out := StepRefresh(s, registry[e.clientId], e);
            Bounded(registry, out.server) && ReplyBounded(registry, out.reply)
  {
    var client, out := registry[e.clientId], StepRefresh(s, registry[e.clientId], e);
    if out.reply.Minted? {
      var row := s.refreshTokens[e.tokenId];
      var held := FromText(row.scope).value;
      RefreshedIsWithinCeiling(client, held, e.scopeText);
      TokenIsBounded(registry, Grant(client, row.uid, RefreshedScope(client, held, e.scopeText).value, false));
    }
  }

  lemma DirectIsBounded(registry: Registry, s: Server, e: Event)
    requires RegistryValid(registry) && Bounded(registry, s) && e.Direct? && e.clientId in registry
    ensures var out := StepDirect(s, registry[e.clientId], e);
            Bounded(registry, out.server) && ReplyBounded(registry, out.reply)
  {
    var client, out := registry[e.clientId], StepDirect(s, registry[e.clientId], e);
    if out.reply.Minted? {
      var requested := FromText(e.scope.value).value;
      FromTextIsCanonical(e.scope.value);
      ValidatedIsWithinCeiling(client, requested);
      var scope := ValidateRequestedGrant(client, requested).value;
      MintIsBounded(registry, s, Grant(client, e.session.value, scope, e.offline), e.now, e.tokenId);
    }
  }

  lemma StepIsBounded(registry: Registry, s: Server, e: Event)
    requires RegistryValid(registry) && Bounded(registry, s)
    ensures var out := Step(registry, s, e);
            Bounded(registry, out.server) && ReplyBounded(registry, out.reply)
  {
    if e.clientId in registry {
      match e
      case Authorize(_, _, _, _, _, _, _, _, _) => AuthorizeIsBounded(registry, s, e);
      case Redeem(_, _, _, _, _, _, _) => RedeemIsBounded(registry, s, e);
      case Refresh(_, _, _, _, _) => RefreshIsBounded(registry, s, e);
      case Direct(_, _, _, _, _, _) => DirectIsBounded(registry, s, e);
    }
  }

  lemma {:induction false} RunIsBounded(registry: Registry, s: Server, events: seq<Event>)
    requires RegistryValid(registry) && Bounded(registry, s)
    ensures Bounded(registry, Run(registry, s, events))
  {
    if events != [] {
      RunIsBounded(registry, s, events[..|events| - 1]);
      StepIsBounded(registry, Run(registry, s, events[..|events| - 1]), events[|events| - 1]);
    }
  }

  /** Grants never climb: whatever came before, a token's scope lies within its client's ceiling, and it covers a scope
      that carries a key only if the client is trusted and its own allow-list implies that scope. */
  lemma GrantsNeverClimb(registry: Registry, events: seq<Event>, e: Event)
    requires RegistryValid(registry)
    ensures var out := Step(registry, Run(registry, Server(map[], map[]), events), e);
            out.reply.Minted? ==> TokenBounded(registry, out.reply.token)
  {
    RunIsBounded(registry, Server(map[], map[]), events);
    StepIsBounded(registry, Run(registry, Server(map[], map[]), events), e);
  }

  // ---- codes ----

  /** No authorization issues this code id. */
  predicate NeverIssues(events: seq<Event>, codeId: string) {
    forall i :: 0 <= i < |events| ==> !(events[i].Authorize? && events[i].codeId == codeId)
  }

  lemma {:induction false} SpentStaysSpent(registry: Registry, s: Server, events: seq<Event>, codeId: string)
    requires codeId !in s.codes && NeverIssues(events, codeId)
    ensures codeId !in Run(registry, s, events).codes
  {
    if events != [] {
      SpentStaysSpent(registry, s, events[..|events| - 1], codeId);
    }
  }

  /** A code mints at most once: after it did, redeeming it again fails, whatever lies in between,
      unless the same id is issued anew. */
  lemma CodeMintsOnce(registry: Registry, s: Server, first: Event, events: seq<Event>, again: Event)
    requires first.Redeem? && again.Redeem? && again.codeId == first.codeId
    requires Step(registry, s, first).reply.Minted? && NeverIssues(events, first.codeId)
    ensures Step(registry, Run(registry, Step(registry, s, first).server, events), again).reply.Failed?
  {
    SpentStaysSpent(registry, Step(registry, s, first).server, events, first.codeId);
  }

  /** Codes of public clients carry a challenge, codes of the others none. */
  predicate Challenged(registry: Registry, s: Server) {
    forall id :: id in s.codes ==>
      s.codes[id].clientId in registry
      && registry[s.codes[id].clientId].publicClient == s.codes[id].challenge.Some?
  }

  lemma StepIsChallenged(registry: Registry, s: Server, e: Event)
    requires RegistryValid(registry) && Challenged(registry, s)
    ensures Challenged(registry, Step(registry, s, e).server)
  {
    if e.clientId in registry && e.Redeem? { RedeemOutcome(s, registry[e.clientId], e); }
  }

  lemma {:induction false} RunIsChallenged(registry: Registry, s: Server, events: seq<Event>)
    requires RegistryValid(registry) && Challenged(registry, s)
    ensures Challenged(registry, Run(registry, s, events))
  {
    if events != [] {
      RunIsChallenged(registry, s, events[..|events| - 1]);
      StepIsChallenged(registry, Run(registry, s, events[..|events| - 1]), events[|events| - 1]);
    }
  }

  /** In every reachable state a public client's code mints only against the challenge it was
      authorized with, and a confidential client's only without one. */
  lemma RedeemNeedsTheVerifier(registry: Registry, events: seq<Event>, e: Event)
    requires RegistryValid(registry) && e.Redeem?
    requires Step(registry, Run(registry, Server(map[], map[]), events), e).reply.Minted?
    ensures var code := Run(registry, Server(map[], map[]), events).codes[e.codeId];
            code.clientId == e.clientId && e.verifier == code.challenge
            && registry[e.clientId].publicClient == e.verifier.Some?
            && e.now <= code.createdAt + e.codeTtl * 1000
  {
    RunIsChallenged(registry, Server(map[], map[]), events);
  }
}
