/** Scope values, their spelling, and the implication order derived from it. */
module Scopes {
  import opened Wrappers
  import opened ScopeText
  import opened Sequences

  const MAX_SHORT_SCOPE_COMPONENTS: nat := 32

  /** A short name by its colon-separated components, or a URL by its parsed parts. */
  datatype Scope =
    | Short(names: seq<string>)
    | Url(netloc: string, segments: seq<string>, fragment: string)

  predicate WordChar(c: char) {
    'a' <= c <= 'z' || 'A' <= c <= 'Z' || '0' <= c <= '9' || c == '_'
  }

  predicate Word(s: string) {
    s != "" && forall i :: 0 <= i < |s| ==> WordChar(s[i])
  }

  /** `^[a-zA-Z0-9_]+$`, where `$` also stands before a last line feed. */
  predicate Component(s: string) {
    Word(s) || (s != "" && s[|s| - 1] == '\n' && Word(s[..|s| - 1]))
  }

  predicate AllComponents(parts: seq<string>) {
    forall i :: 0 <= i < |parts| ==> Component(parts[i])
  }

  /** Something that may stand between the slashes of a scope URL. */
  predicate UrlPart(s: string) {
    '/' !in s && '#' !in s && ' ' !in s
  }

  /** Printable ASCII without space, double quote and backslash; and none of the characters that end a part. */
  predicate UrlChar(c: char) {
    '!' <= c <= '~' && c != '"' && c != '\\' && c != '/' && c != '?' && c != '#'
  }

  /** What the URL parser would percent-encode inside a path. */
  predicate Escaped(c: char) {
    c == '<' || c == '>' || c == '`' || c == '{' || c == '}'
  }

  /** No user name and no password before the last `@`. */
  predicate NoCredentials(netloc: string) {
    '@' !in netloc
    || ("@" <= netloc && '@' !in netloc[1..])
    || (":@" <= netloc && '@' !in netloc[2..])
  }

  /** A host and port that are their own canonical form: lower case, no default port, no credentials. */
  predicate Authority(netloc: string) {
    netloc != "" && (forall i :: 0 <= i < |netloc| ==> UrlChar(netloc[i]) && !('A' <= netloc[i] <= 'Z'))
    && !(|netloc| >= 4 && netloc[|netloc| - 4..] == ":443")
    && NoCredentials(netloc) && ('[' in netloc <==> ']' in netloc)
  }

  predicate Segment(s: string) {
    s != "." && s != ".." && forall i :: 0 <= i < |s| ==> UrlChar(s[i]) && !Escaped(s[i])
  }

  predicate AllSegments(segments: seq<string>) {
    forall i :: 0 <= i < |segments| ==> Segment(segments[i])
  }

  /** What a scope must be for its spelling to tell its parts. */
  predicate Spellable(s: Scope) {
    match s
    case Short(names) => names != [] && AllComponents(names)
    case Url(netloc, segments, fragment) =>
      UrlPart(netloc) && segments != [] && (forall i :: 0 <= i < |segments| ==> UrlPart(segments[i]))
      && (fragment == "" || Word(fragment))
  }

  /** What the derivation accepts as a scope value. */
  predicate Valid(s: Scope) {
    Spellable(s)
    && match s
       case Short(names) =>
         |names| <= MAX_SHORT_SCOPE_COMPONENTS && names != ["write"] && (|names| > 1 ==> names[0] != "https")
         && forall i :: 0 <= i < |names| - 1 ==> Word(names[i])
       case Url(netloc, segments, _) => Authority(netloc) && AllSegments(segments) && segments[|segments| - 1] != ""
  }

  const HTTPS: string := "https://"

  function Spell(s: Scope): string {
    match s
    case Short(names) => Join(names, ':')
    case Url(netloc, segments, fragment) =>
      HTTPS + Join([netloc] + segments, '/') + if fragment == "" then "" else "#" + fragment
  }

  /** Reading a value: validation and parsing in one. */
  function Parse(value: string): Option<Scope> {
    if "https:" <= value then
      if HTTPS <= value then ParseUrl(value[|HTTPS|..]) else None
    else
      var s := Short(Split(value, ':'));
      if Valid(s) then Some(s) else None
  }

  function ParseUrl(rest: string): Option<Scope> {
    var halves := Split(rest, '#');
    var parts := Split(halves[0], '/');
    if |halves| > 2 || (|halves| == 2 && halves[1] == "") then None
    else
      var s := Url(parts[0], parts[1..], if |halves| == 2 then halves[1] else "");
      if Valid(s) then Some(s) else None
  }

  lemma WordIsPlain(w: string)
    requires Component(w)
    ensures ':' !in w && '/' !in w && '#' !in w && ' ' !in w
  {
    if !Word(w) { InitAndLast(w); }
  }

  lemma UrlHalves(s: Scope)
    requires s.Url? && Spellable(s)
    ensures var rest := Spell(s)[|HTTPS|..];
            Split(rest, '#') == [Join([s.netloc] + s.segments, '/')] + if s.fragment == "" then [] else [s.fragment]
    ensures Split(Join([s.netloc] + s.segments, '/'), '/') == [s.netloc] + s.segments
    ensures HTTPS <= Spell(s)
  {
    var parts := [s.netloc] + s.segments;
    var body := Join(parts, '/');
    JoinHas(parts, '/', '#');
    SplitJoin(parts, '/');
    if s.fragment == "" {
      SplitHead(body, "", '#');
      assert Spell(s)[|HTTPS|..] == body;
    } else {
      WordIsPlain(s.fragment);
      SplitHead(body, s.fragment, '#');
      SplitHead(s.fragment, "", '#');
      assert Spell(s)[|HTTPS|..] == body + ['#'] + s.fragment;
    }
  }

  lemma ShortParts(s: Scope)
    requires s.Short? && Spellable(s)
    ensures Split(Spell(s), ':') == s.names && '/' !in Spell(s)
  {
    forall i | 0 <= i < |s.names| ensures ':' !in s.names[i] && '/' !in s.names[i] { WordIsPlain(s.names[i]); }
    SplitJoin(s.names, ':');
    JoinHas(s.names, ':', '/');
  }

  /** Different scopes, implicants included, are spelled differently: strings may stand for them. */
  lemma SpellInjective(a: Scope, b: Scope)
    requires Spellable(a) && Spellable(b) && Spell(a) == Spell(b)
    ensures a == b
  {
    if a.Short? { ShortParts(a); } else { UrlHalves(a); assert Spell(a)[6] == '/'; }
    if b.Short? { ShortParts(b); } else { UrlHalves(b); assert Spell(b)[6] == '/'; }
    if a.Url? && b.Url? {
      var halves := Split(Spell(a)[|HTTPS|..], '#');
      assert a.fragment == if |halves| == 1 then "" else halves[1];
      assert b.fragment == if |halves| == 1 then "" else halves[1];
      assert [a.netloc] + a.segments == Split(halves[0], '/') == [b.netloc] + b.segments;
      assert a.netloc == ([a.netloc] + a.segments)[0] == b.netloc;
      assert a.segments == ([a.netloc] + a.segments)[1..] == b.segments;
    }
  }

  lemma HttpsComesFirst(value: string)
    ensures "https:" <= value ==> |Split(value, ':')| > 1 && Split(value, ':')[0] == "https"
  {
    if "https:" <= value {
      SplitHead("https", value[6..], ':');
      assert value == "https" + [':'] + value[6..];
    }
  }

  /** Parsing undoes spelling. */
  lemma ParseSpell(s: Scope)
    requires Valid(s)
    ensures Parse(Spell(s)) == Some(s)
  {
    if s.Short? {
      ShortParts(s);
      HttpsComesFirst(Spell(s));
    } else {
      UrlHalves(s);
      var parts := [s.netloc] + s.segments;
      assert parts[1..] == s.segments;
    }
  }

  /** And only spellings of valid scopes parse. */
  lemma SpellParse(value: string)
    ensures Parse(value).Some? ==> Valid(Parse(value).value) && Spell(Parse(value).value) == value
  {
    if "https:" <= value {
      SpellParseUrl(value);
    } else {
      JoinSplit(value, ':');
    }
  }

  lemma SpellParseUrl(value: string)
    requires "https:" <= value
    ensures Parse(value).Some? ==> Valid(Parse(value).value) && Spell(Parse(value).value) == value
  {
    if HTTPS <= value {
      SpellParseRest(value[|HTTPS|..]);
      assert value == HTTPS + value[|HTTPS|..];
    }
  }

  lemma SpellParseRest(rest: string)
    ensures ParseUrl(rest).Some? ==> Spell(ParseUrl(rest).value) == HTTPS + rest
  {
    HalvesJoin(rest);
    PartsJoin(Split(rest, '#')[0]);
  }

  lemma HalvesJoin(rest: string)
    ensures |Split(rest, '#')| == 1 ==> HTTPS + Split(rest, '#')[0] + "" == HTTPS + rest
    ensures |Split(rest, '#')| == 2 ==> HTTPS + Split(rest, '#')[0] + ("#" + Split(rest, '#')[1]) == HTTPS + rest
  {
    JoinSplit(rest, '#');
  }

  lemma PartsJoin(path: string)
    ensures Join([Split(path, '/')[0]] + Split(path, '/')[1..], '/') == path
  {
    JoinSplit(path, '/');
    assert [Split(path, '/')[0]] + Split(path, '/')[1..] == Split(path, '/');
  }

  // ---- implicants ----

  /** The scopes that imply a short name, from itself up to its first component. */
  function ShortImplicants(names: seq<string>, hasWrite: bool): seq<Scope> {
    if names == [] then []
    else [Short(names + ["write"])] + (if hasWrite then [] else [Short(names)])
         + ShortImplicants(names[..|names| - 1], hasWrite)
  }

  function UrlImplicants(netloc: string, segments: seq<string>, fragment: string): seq<Scope> {
    if segments == [] then []
    else [Url(netloc, segments, "")] + (if fragment == "" then [] else [Url(netloc, segments, fragment)])
         + UrlImplicants(netloc, segments[..|segments| - 1], fragment)
  }

  predicate IsWrite(names: seq<string>) {
    names != [] && names[|names| - 1] == "write"
  }

  /** The components without a trailing `write`. */
  function Base(names: seq<string>): seq<string> {
    if IsWrite(names) then names[..|names| - 1] else names
  }

  /** Keeps the first of equal elements, as `dict.fromkeys` does. */
  function Dedup(s: seq<Scope>): seq<Scope> {
    if s == [] then []
    else if s[|s| - 1] in s[..|s| - 1] then Dedup(s[..|s| - 1])
    else Dedup(s[..|s| - 1]) + [s[|s| - 1]]
  }

  lemma {:induction false} DedupKeeps(s: seq<Scope>)
    ensures forall x :: x in Dedup(s) <==> x in s
    ensures forall i, j :: 0 <= i < j < |Dedup(s)| ==> Dedup(s)[i] != Dedup(s)[j]
  {
    if s != [] {
      DedupKeeps(s[..|s| - 1]);
      assert s == s[..|s| - 1] + [s[|s| - 1]];
    }
  }

  /** Every scope that implies this one, itself included, in derivation order. */
  function Implicants(s: Scope): seq<Scope> {
    match s
    case Short(names) => Dedup(ShortImplicants(Base(names), IsWrite(names)))
    case Url(netloc, segments, fragment) => Dedup(UrlImplicants(netloc, segments, fragment))
  }

  lemma Regroup(yielded: seq<Scope>, first: seq<Scope>, second: seq<Scope>, rest: seq<Scope>)
    ensures yielded + (first + second + rest) == yielded + first + second + rest
    ensures second == [] ==> yielded + first + second == yielded + first
  {
  }

  /** The popping loop of the short derivation. */
  method DeriveShort(scope: Scope) returns (yielded: seq<Scope>)
    requires scope.Short?
    ensures yielded == ShortImplicants(Base(scope.names), IsWrite(scope.names))
  {
    var names := scope.names;
    var hasWrite := names != [] && names[|names| - 1] == "write";
    if hasWrite { names := names[..|names| - 1]; }
    yielded := [];
    while names != []
      invariant yielded + ShortImplicants(names, hasWrite) == ShortImplicants(Base(scope.names), hasWrite)
      decreases |names|
    {
      Regroup(yielded, [Short(names + ["write"])], if hasWrite then [] else [Short(names)],
              ShortImplicants(names[..|names| - 1], hasWrite));
      yielded := yielded + [Short(names + ["write"])];
      if !hasWrite { yielded := yielded + [Short(names)]; }
      names := names[..|names| - 1];
    }
  }

  /** The popping loop of the URL derivation. */
  method DeriveUrl(scope: Scope) returns (yielded: seq<Scope>)
    requires scope.Url?
    ensures yielded == UrlImplicants(scope.netloc, scope.segments, scope.fragment)
  {
    var segments := scope.segments;
    yielded := [];
    while segments != []
      invariant yielded + UrlImplicants(scope.netloc, segments, scope.fragment)
                == UrlImplicants(scope.netloc, scope.segments, scope.fragment)
      decreases |segments|
    {
      Regroup(yielded, [Url(scope.netloc, segments, "")],
              if scope.fragment == "" then [] else [Url(scope.netloc, segments, scope.fragment)],
              UrlImplicants(scope.netloc, segments[..|segments| - 1], scope.fragment));
      yielded := yielded + [Url(scope.netloc, segments, "")];
      if scope.fragment != "" { yielded := yielded + [Url(scope.netloc, segments, scope.fragment)]; }
      segments := segments[..|segments| - 1];
    }
  }

  // ---- the order ----

  predicate Implies(h: Scope, s: Scope) {
    h in Implicants(s)
  }

  lemma {:induction false} InShortImplicants(x: Scope, names: seq<string>, hasWrite: bool)
    ensures x in ShortImplicants(names, hasWrite)
            <==> (x.Short?
                  && exists n :: 0 < n <= |names|
                                 && (x.names == names[..n] + ["write"] || (!hasWrite && x.names == names[..n])))
  {
    if names != [] {
      var init := names[..|names| - 1];
      InShortImplicants(x, init, hasWrite);
      assert names[..|names|] == names;
      assert forall n :: 0 < n <= |init| ==> init[..n] == names[..n];
    }
  }

  lemma {:induction false} InUrlImplicants(x: Scope, netloc: string, segments: seq<string>, fragment: string)
    ensures x in UrlImplicants(netloc, segments, fragment)
            <==> x.Url? && x.netloc == netloc && (x.fragment == "" || x.fragment == fragment)
                 && 0 < |x.segments| && x.segments <= segments
  {
    if segments != [] {
      var init := segments[..|segments| - 1];
      InUrlImplicants(x, netloc, init, fragment);
      if x.Url? {
        assert x.segments <= segments <==> x.segments == segments || x.segments <= init;
      }
    }
  }

  /** The names an implicant can have, said by what it is a prefix of. */
  lemma CutOfBase(names: seq<string>, base: seq<string>, hasWrite: bool)
    requires names != [] && names != ["write"]
    ensures (exists n :: 0 < n <= |base| && (names == base[..n] + ["write"] || (!hasWrite && names == base[..n])))
            <==> Base(names) <= base && (hasWrite ==> IsWrite(names))
  {
    if Base(names) <= base && (hasWrite ==> IsWrite(names)) {
      var n := |Base(names)|;
      assert n > 0 && base[..n] == Base(names);
      assert IsWrite(names) ==> names == base[..n] + ["write"];
    }
    forall n | 0 < n <= |base| && (names == base[..n] + ["write"] || (!hasWrite && names == base[..n]))
      ensures Base(names) <= base && (hasWrite ==> IsWrite(names))
    {
      assert Base(names) <= base[..n];
    }
  }

  /** Among valid short names, s implies t iff s's base is a prefix of t's and a `:write` t has a
      `:write` s; an inner `write` component is a component like any other. */
  lemma ShortImplication(s: Scope, t: Scope)
    requires s.Short? && t.Short? && Valid(s) && Valid(t)
    ensures Implies(s, t) <==> Base(s.names) <= Base(t.names) && (IsWrite(t.names) ==> IsWrite(s.names))
  {
    DedupKeeps(ShortImplicants(Base(t.names), IsWrite(t.names)));
    InShortImplicants(s, Base(t.names), IsWrite(t.names));
    CutOfBase(s.names, Base(t.names), IsWrite(t.names));
  }

  /** Among URLs, s implies t iff same origin, segment-prefix path, and s's fragment empty or t's. */
  lemma UrlImplication(s: Scope, t: Scope)
    requires s.Url? && t.Url? && s.segments != []
    ensures Implies(s, t) <==> s.netloc == t.netloc && s.segments <= t.segments
                               && (s.fragment == "" || s.fragment == t.fragment)
  {
    DedupKeeps(UrlImplicants(t.netloc, t.segments, t.fragment));
    InUrlImplicants(s, t.netloc, t.segments, t.fragment);
  }

  lemma KindsDoNotMix(s: Scope, t: Scope)
    requires s.Short? != t.Short?
    ensures !Implies(s, t)
  {
    if t.Short? {
      DedupKeeps(ShortImplicants(Base(t.names), IsWrite(t.names)));
      InShortImplicants(s, Base(t.names), IsWrite(t.names));
    } else {
      DedupKeeps(UrlImplicants(t.netloc, t.segments, t.fragment));
      InUrlImplicants(s, t.netloc, t.segments, t.fragment);
    }
  }

  lemma ImpliesReflexive(s: Scope)
    requires Valid(s)
    ensures Implies(s, s)
  {
    if s.Short? { ShortImplication(s, s); } else { UrlImplication(s, s); }
  }

  lemma ImpliesAntisymmetric(s: Scope, t: Scope)
    requires Valid(s) && Valid(t) && Implies(s, t) && Implies(t, s)
    ensures s == t
  {
    if s.Short? != t.Short? {
      KindsDoNotMix(s, t);
    } else if s.Short? {
      ShortImplication(s, t);
      ShortImplication(t, s);
      SameBase(s.names, t.names);
    } else {
      UrlImplication(s, t);
      UrlImplication(t, s);
      MutualPrefix(s.segments, t.segments);
    }
  }

  lemma SameBase(a: seq<string>, b: seq<string>)
    requires Base(a) <= Base(b) && Base(b) <= Base(a) && IsWrite(a) == IsWrite(b)
    ensures a == b
  {
    MutualPrefix(Base(a), Base(b));
    if IsWrite(a) {
      InitAndLast(a);
      InitAndLast(b);
    }
  }

  lemma ImpliesTransitive(s: Scope, t: Scope, u: Scope)
    requires Valid(s) && Valid(t) && Valid(u) && Implies(s, t) && Implies(t, u)
    ensures Implies(s, u)
  {
    if s.Short? != t.Short? {
      KindsDoNotMix(s, t);
    } else if t.Short? != u.Short? {
      KindsDoNotMix(t, u);
    } else if s.Short? {
      ShortImplication(s, t);
      ShortImplication(t, u);
      ShortImplication(s, u);
    } else {
      UrlImplication(s, t);
      UrlImplication(t, u);
      UrlImplication(s, u);
    }
  }

  /** Implicants need not be scopes themselves (`write` is not one), but all can be spelled. */
  lemma ImplicantsSpellable(s: Scope, x: Scope)
    requires Valid(s) && Implies(x, s)
    ensures Spellable(x)
  {
    if s.Short? {
      var base := Base(s.names);
      DedupKeeps(ShortImplicants(base, IsWrite(s.names)));
      InShortImplicants(x, base, IsWrite(s.names));
      var n :| 0 < n <= |base| && (x.names == base[..n] + ["write"] || x.names == base[..n]);
      CutIsWords(base, n, x.names);
    } else {
      DedupKeeps(UrlImplicants(s.netloc, s.segments, s.fragment));
      InUrlImplicants(x, s.netloc, s.segments, s.fragment);
      assert forall i :: 0 <= i < |x.segments| ==> x.segments[i] == s.segments[i];
    }
  }

  lemma CutIsWords(base: seq<string>, n: nat, names: seq<string>)
    requires AllComponents(base) && 0 < n <= |base| && (names == base[..n] + ["write"] || names == base[..n])
    ensures AllComponents(names)
  {
    assert Word("write");
  }
}
