/** Sets of scopes kept without redundancy, and the pair of dictionaries that holds them. */
module ScopeSets {
  import opened Wrappers
  import opened ScopeText
  import opened Scopes
  import opened Sequences

  // ---- what a set holds, in insertion order ----

  /** Implied by something held. */
  predicate Covers(held: seq<Scope>, s: Scope) {
    exists i :: 0 <= i < |held| && Implies(held[i], s)
  }

  /** No redundancies: nothing held implies anything else held. */
  ghost predicate Canonical(held: seq<Scope>) {
    (forall i :: 0 <= i < |held| ==> Valid(held[i]))
    && (forall i, j :: 0 <= i < |held| && 0 <= j < |held| && Implies(held[i], held[j]) ==> i == j)
  }

  function WithoutAll(held: seq<Scope>, gone: set<Scope>): seq<Scope> {
    if held == [] then []
    else WithoutAll(held[..|held| - 1], gone)
         + if held[|held| - 1] in gone then [] else [held[|held| - 1]]
  }

  function ImpliedBy(held: seq<Scope>, s: Scope): set<Scope> {
    set h | h in held && Implies(s, h)
  }

  /** `_add_scope`: nothing if already implied; otherwise what it makes redundant goes. */
  function AddTo(held: seq<Scope>, s: Scope): seq<Scope> {
    if Covers(held, s) then held else WithoutAll(held, ImpliedBy(held, s)) + [s]
  }

  function AddAll(held: seq<Scope>, ss: seq<Scope>): seq<Scope> {
    if ss == [] then held else AddTo(AddAll(held, ss[..|ss| - 1]), ss[|ss| - 1])
  }

  /** The members that `other` implies (or does not), in order. */
  function Keep(held: seq<Scope>, other: seq<Scope>, implied: bool): seq<Scope> {
    if held == [] then []
    else Keep(held[..|held| - 1], other, implied)
         + if Covers(other, held[|held| - 1]) == implied then [held[|held| - 1]] else []
  }

  /** Every scope of b is implied by one of a. */
  predicate Contains(a: seq<Scope>, b: seq<Scope>) {
    forall i :: 0 <= i < |b| ==> Covers(a, b[i])
  }

  predicate AllValid(ss: seq<Scope>) {
    forall i :: 0 <= i < |ss| ==> Valid(ss[i])
  }

  /** The members that x implies. */
  function Bucket(held: seq<Scope>, x: Scope): set<Scope> {
    set h | h in held && x in Implicants(h)
  }

  // ---- removing and adding ----

  lemma {:induction false} WithoutMembers(held: seq<Scope>, gone: set<Scope>)
    ensures forall h :: h in WithoutAll(held, gone) <==> h in held && h !in gone
  {
    if held != [] {
      WithoutMembers(held[..|held| - 1], gone);
      InitAndLast(held);
    }
  }

  /** A member at the end joins any members it has no part in implying. */
  lemma AppendIsCanonical(kept: seq<Scope>, last: Scope)
    requires Canonical(kept) && Valid(last)
    requires forall i :: 0 <= i < |kept| ==> !Implies(kept[i], last) && !Implies(last, kept[i])
    ensures Canonical(kept + [last])
  {
  }

  lemma {:induction false} WithoutIsCanonical(held: seq<Scope>, gone: set<Scope>)
    requires Canonical(held)
    ensures Canonical(WithoutAll(held, gone))
  {
    if held != [] {
      var init, last := held[..|held| - 1], held[|held| - 1];
      WithoutIsCanonical(init, gone);
      WithoutMembers(init, gone);
      var kept := WithoutAll(init, gone);
      forall i | 0 <= i < |kept| ensures !Implies(kept[i], last) && !Implies(last, kept[i]) {
        assert kept[i] in init;
        var j :| 0 <= j < |init| && init[j] == kept[i];
        assert held[j] == init[j];
      }
      AppendIsCanonical(kept, last);
    }
  }

  lemma {:induction false} WithoutTwice(held: seq<Scope>, a: set<Scope>, b: set<Scope>)
    ensures WithoutAll(WithoutAll(held, a), b) == WithoutAll(held, a + b)
  {
    if held != [] {
      var init, last := held[..|held| - 1], held[|held| - 1];
      WithoutTwice(init, a, b);
      var kept := WithoutAll(init, a);
      if last in a {
        assert WithoutAll(held, a) == kept;
      } else {
        assert (kept + [last])[..|kept|] == kept;
      }
    }
  }

  lemma {:induction false} WithoutNothing(held: seq<Scope>, gone: set<Scope>)
    requires forall h :: h in held ==> h !in gone
    ensures WithoutAll(held, gone) == held
  {
    if held != [] {
      InitAndLast(held);
      assert held[|held| - 1] in held;
      WithoutNothing(held[..|held| - 1], gone);
    }
  }

  /** Adding keeps the set free of redundancies. */
  lemma AddKeepsCanonical(held: seq<Scope>, s: Scope)
    requires Canonical(held) && Valid(s)
    ensures Canonical(AddTo(held, s))
  {
    if !Covers(held, s) {
      var gone := ImpliedBy(held, s);
      var kept := WithoutAll(held, gone);
      WithoutIsCanonical(held, gone);
      WithoutMembers(held, gone);
      forall i | 0 <= i < |kept| ensures !Implies(kept[i], s) && !Implies(s, kept[i]) {
        assert kept[i] in kept;
        assert kept[i] in held;
      }
    }
  }

  /** What is implied after an addition is what was implied before or is implied by the new scope. */
  lemma AddMeaning(held: seq<Scope>, s: Scope, x: Scope)
    requires Canonical(held) && Valid(s) && Valid(x)
    ensures Covers(AddTo(held, s), x) <==> Covers(held, x) || Implies(s, x)
  {
    if Covers(held, s) {
      var i :| 0 <= i < |held| && Implies(held[i], s);
      if Implies(s, x) { ImpliesTransitive(held[i], s, x); }
    } else {
      var gone := ImpliedBy(held, s);
      var kept := WithoutAll(held, gone);
      WithoutMembers(held, gone);
      assert AddTo(held, s)[|kept|] == s;
      if Covers(held, x) {
        var i :| 0 <= i < |held| && Implies(held[i], x);
        if held[i] in gone {
          ImpliesTransitive(s, held[i], x);
        } else {
          assert held[i] in kept;
          var j :| 0 <= j < |kept| && kept[j] == held[i];
          assert AddTo(held, s)[j] == held[i];
        }
      }
      if Covers(AddTo(held, s), x) && !Implies(s, x) {
        var j :| 0 <= j < |kept| + 1 && Implies((kept + [s])[j], x);
        assert kept[j] in kept;
        assert kept[j] in held;
      }
    }
  }

  lemma {:induction false} AddAllKeepsCanonical(held: seq<Scope>, ss: seq<Scope>)
    requires Canonical(held) && AllValid(ss)
    ensures Canonical(AddAll(held, ss))
  {
    if ss != [] {
      AddAllKeepsCanonical(held, ss[..|ss| - 1]);
      AddKeepsCanonical(AddAll(held, ss[..|ss| - 1]), ss[|ss| - 1]);
    }
  }

  lemma CoversLast(ss: seq<Scope>, x: Scope)
    requires ss != []
    ensures Covers(ss, x) <==> Covers(ss[..|ss| - 1], x) || Implies(ss[|ss| - 1], x)
  {
    assert forall i :: 0 <= i < |ss| - 1 ==> ss[i] == ss[..|ss| - 1][i];
  }

  lemma {:induction false} AddAllMeaning(held: seq<Scope>, ss: seq<Scope>, x: Scope)
    requires Canonical(held) && AllValid(ss) && Valid(x)
    ensures Covers(AddAll(held, ss), x) <==> Covers(held, x) || Covers(ss, x)
  {
    if ss != [] {
      var init, last := ss[..|ss| - 1], ss[|ss| - 1];
      AddAllMeaning(held, init, x);
      AddAllKeepsCanonical(held, init);
      AddMeaning(AddAll(held, init), last, x);
      CoversLast(ss, x);
    }
  }

  // ---- a set is canonical for its meaning ----

  /** Whatever b implies, a implies. */
  ghost predicate MeansAtLeast(a: seq<Scope>, b: seq<Scope>) {
    forall x :: Valid(x) && Covers(b, x) ==> Covers(a, x)
  }

  /** `contains` is inclusion of meanings. */
  lemma ContainsIsInclusion(a: seq<Scope>, b: seq<Scope>)
    requires AllValid(a) && AllValid(b)
    ensures Contains(a, b) <==> MeansAtLeast(a, b)
  {
    if Contains(a, b) {
      forall x | Valid(x) && Covers(b, x) ensures Covers(a, x) {
        var i :| 0 <= i < |b| && Implies(b[i], x);
        assert Covers(a, b[i]);
        var j :| 0 <= j < |a| && Implies(a[j], b[i]);
        ImpliesTransitive(a[j], b[i], x);
      }
    }
    if MeansAtLeast(a, b) {
      forall i | 0 <= i < |b| ensures Covers(a, b[i]) {
        ImpliesReflexive(b[i]);
        assert Covers(b, b[i]);
      }
    }
  }

  /** Sets with the same meaning hold the same scopes, in whatever order they were built. */
  lemma SameMeaningSameScopes(a: seq<Scope>, b: seq<Scope>)
    requires Canonical(a) && Canonical(b) && MeansAtLeast(a, b) && MeansAtLeast(b, a)
    ensures forall s :: s in a <==> s in b
  {
    forall s | s in a ensures s in b { MutuallyImplied(a, b, s); }
    forall s | s in b ensures s in a { MutuallyImplied(b, a, s); }
  }

  lemma MutuallyImplied(a: seq<Scope>, b: seq<Scope>, s: Scope)
    requires Canonical(a) && Canonical(b) && MeansAtLeast(a, b) && MeansAtLeast(b, a) && s in a
    ensures s in b
  {
    var i :| 0 <= i < |a| && a[i] == s;
    ImpliesReflexive(s);
    assert Covers(a, s);
    var j :| 0 <= j < |b| && Implies(b[j], s);
    ImpliesReflexive(b[j]);
    assert Covers(b, b[j]);
    var k :| 0 <= k < |a| && Implies(a[k], b[j]);
    ImpliesTransitive(a[k], b[j], s);
    ImpliesAntisymmetric(b[j], s);
  }

  /** `union` means the union. */
  lemma UnionMeaning(a: seq<Scope>, b: seq<Scope>, x: Scope)
    requires Canonical(a) && Canonical(b) && Valid(x)
    ensures Covers(AddAll(AddAll([], a), b), x) <==> Covers(a, x) || Covers(b, x)
    ensures Canonical(AddAll(AddAll([], a), b))
  {
    AddAllMeaning([], a, x);
    AddAllKeepsCanonical([], a);
    AddAllMeaning(AddAll([], a), b, x);
    AddAllKeepsCanonical(AddAll([], a), b);
  }

  // ---- filtered and difference ----

  lemma {:induction false} KeepMembers(held: seq<Scope>, other: seq<Scope>, implied: bool)
    ensures forall s :: s in Keep(held, other, implied) <==> s in held && Covers(other, s) == implied
  {
    if held != [] {
      KeepMembers(held[..|held| - 1], other, implied);
      InitAndLast(held);
    }
  }

  lemma {:induction false} KeepIsWithout(held: seq<Scope>, other: seq<Scope>, implied: bool)
    ensures Keep(held, other, implied)
            == WithoutAll(held, set s | s in held && Covers(other, s) != implied)
  {
    KeepIsWithoutSome(held, other, implied, set s | s in held && Covers(other, s) != implied);
  }

  lemma {:induction false} KeepIsWithoutSome(held: seq<Scope>, other: seq<Scope>, implied: bool, gone: set<Scope>)
    requires forall i :: 0 <= i < |held| ==> (held[i] in gone <==> Covers(other, held[i]) != implied)
    ensures Keep(held, other, implied) == WithoutAll(held, gone)
  {
    if held != [] {
      KeepIsWithoutSome(held[..|held| - 1], other, implied, gone);
    }
  }

  /** `filtered` and `difference` split a set in two, each member once, each half canonical. */
  lemma {:induction false} FilterPartitions(held: seq<Scope>, other: seq<Scope>)
    requires Canonical(held)
    ensures multiset(Keep(held, other, true)) + multiset(Keep(held, other, false)) == multiset(held)
    ensures Canonical(Keep(held, other, true)) && Canonical(Keep(held, other, false))
    ensures forall s :: s in Keep(held, other, true) ==> Covers(other, s)
    ensures forall s :: s in Keep(held, other, false) ==> !Covers(other, s)
  {
    KeepSplits(held, other);
    KeepIsWithout(held, other, true);
    KeepIsWithout(held, other, false);
    WithoutIsCanonical(held, set s | s in held && Covers(other, s) != true);
    WithoutIsCanonical(held, set s | s in held && Covers(other, s) != false);
    KeepMembers(held, other, true);
    KeepMembers(held, other, false);
  }

  lemma {:induction false} KeepSplits(held: seq<Scope>, other: seq<Scope>)
    ensures multiset(Keep(held, other, true)) + multiset(Keep(held, other, false)) == multiset(held)
  {
    if held != [] {
      KeepSplits(held[..|held| - 1], other);
      InitAndLast(held);
    }
  }

  // ---- strings ----

  function Spellings(held: seq<Scope>): (words: seq<string>)
    ensures |words| == |held|
    ensures forall i :: 0 <= i < |held| ==> words[i] == Spell(held[i])
  {
    if held == [] then [] else Spellings(held[..|held| - 1]) + [Spell(held[|held| - 1])]
  }

  /** `__str__`. */
  function Text(held: seq<Scope>): string {
    Join(Spellings(held), ' ')
  }

  function ParseAll(words: seq<string>): Option<seq<Scope>> {
    if words == [] then Some([])
    else
      var init, last := ParseAll(words[..|words| - 1]), Parse(words[|words| - 1]);
      if init.Some? && last.Some? then Some(init.value + [last.value]) else None
  }

  lemma ParseAllGrows(words: seq<string>, w: string)
    ensures ParseAll(words + [w]) == if ParseAll(words).Some? && Parse(w).Some?
                                     then Some(ParseAll(words).value + [Parse(w).value]) else None
  {
    assert (words + [w])[..|words|] == words;
  }

  /** `from_string`: None stands for the invalid-scope error. */
  function FromText(text: string): Option<seq<Scope>> {
    var scopes := ParseAll(Words(text));
    if scopes.Some? then Some(AddAll([], scopes.value)) else None
  }

  lemma {:induction false} ParseAllPrefix(words: seq<string>, n: nat)
    requires n <= |words|
    ensures ParseAll(words).Some? ==> ParseAll(words[..n]).Some?
  {
    if n < |words| {
      assert words[..|words| - 1][..n] == words[..n];
      ParseAllPrefix(words[..|words| - 1], n);
    } else {
      assert words[..n] == words;
    }
  }

  lemma {:induction false} ParseAllValid(words: seq<string>)
    ensures ParseAll(words).Some? ==> AllValid(ParseAll(words).value)
  {
    if words != [] {
      ParseAllValid(words[..|words| - 1]);
      SpellParse(words[|words| - 1]);
    }
  }

  /** Whatever string is read, what is held has no redundancies. */
  lemma FromTextIsCanonical(text: string)
    ensures FromText(text).Some? ==> Canonical(FromText(text).value)
  {
    ParseAllValid(Words(text));
    if FromText(text).Some? {
      AddAllKeepsCanonical([], ParseAll(Words(text)).value);
    }
  }

  lemma SpellingIsWord(s: Scope)
    requires Valid(s)
    ensures Spell(s) != "" && ' ' !in Spell(s)
  {
    if s.Short? {
      forall i | 0 <= i < |s.names| ensures ' ' !in s.names[i] { WordIsPlain(s.names[i]); }
      JoinHas(s.names, ':', ' ');
      assert Component(s.names[0]);
    } else {
      JoinHas([s.netloc] + s.segments, '/', ' ');
      if s.fragment != "" { WordIsPlain(s.fragment); }
    }
  }

  lemma {:induction false} ParseSpellings(held: seq<Scope>)
    requires AllValid(held)
    ensures ParseAll(Spellings(held)) == Some(held)
  {
    if held != [] {
      var init, last := held[..|held| - 1], held[|held| - 1];
      ParseSpellings(init);
      ParseSpell(last);
      ParseAllGrows(Spellings(init), Spell(last));
      InitAndLast(held);
    }
  }

  /** Adding the members of a canonical set again, in order, drops none of them. */
  lemma {:induction false} AddAllCanonical(held: seq<Scope>)
    requires Canonical(held)
    ensures AddAll([], held) == held
  {
    if held != [] {
      var init, last := held[..|held| - 1], held[|held| - 1];
      LastIsApart(held);
      AddAllCanonical(init);
      WithoutNothing(init, ImpliedBy(init, last));
      InitAndLast(held);
    }
  }

  /** Adding what is implied already changes nothing. */
  lemma {:induction false} AddHeld(held: seq<Scope>, ss: seq<Scope>)
    requires AllValid(ss) && forall s :: s in ss ==> s in held
    ensures AddAll(held, ss) == held
  {
    if ss != [] {
      AddHeld(held, ss[..|ss| - 1]);
      ImpliesReflexive(ss[|ss| - 1]);
      assert ss[|ss| - 1] in ss;
    }
  }

  /** The last member of a canonical set neither implies nor is implied by those before it. */
  lemma LastIsApart(held: seq<Scope>)
    requires Canonical(held) && held != []
    ensures var init, last := held[..|held| - 1], held[|held| - 1];
            Canonical(init) && !Covers(init, last) && forall h :: h in init ==> h !in ImpliedBy(init, last)
  {
    var init, last := held[..|held| - 1], held[|held| - 1];
    assert forall i :: 0 <= i < |init| ==> init[i] == held[i];
  }

  /** Reading back what a set was written as gives the same set, order included. */
  lemma TextRoundTrip(held: seq<Scope>)
    requires Canonical(held)
    ensures FromText(Text(held)) == Some(held)
  {
    forall i | 0 <= i < |held| ensures Spellings(held)[i] != "" && ' ' !in Spellings(held)[i] {
      SpellingIsWord(held[i]);
    }
    WordsJoin(Spellings(held));
    ParseSpellings(held);
    AddAllCanonical(held);
  }
}
