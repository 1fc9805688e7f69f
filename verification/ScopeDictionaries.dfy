/** The class: two mutually inverse dictionaries, updated in place. */
module ScopeDictionaries {
  import opened Wrappers
  import opened ScopeText
  import opened Scopes
  import opened ScopeSets
  import opened Sequences

  function At(index: map<Scope, set<Scope>>, x: Scope): set<Scope> {
    if x in index then index[x] else {}
  }

  /** The second dictionary is the inverse of the first, and has no empty bucket. */
  ghost predicate Inverse(held: seq<Scope>, index: map<Scope, set<Scope>>) {
    forall x :: At(index, x) == Bucket(held, x) && (x in index ==> index[x] != {})
  }

  predicate Forward(held: seq<Scope>, implicants: map<Scope, seq<Scope>>) {
    (forall s :: s in held ==> s in implicants)
    && forall s :: s in implicants ==> s in held && implicants[s] == Implicants(s)
  }

  lemma BucketIsImplied(held: seq<Scope>, index: map<Scope, set<Scope>>, s: Scope)
    requires Inverse(held, index)
    ensures At(index, s) == ImpliedBy(held, s)
    ensures forall h :: h in ImpliedBy(held, s) ==> h in held
  {
    assert At(index, s) == Bucket(held, s);
  }

  lemma OneMoreAdded(ss: seq<Scope>, s: Scope)
    ensures AddAll([], ss + [s]) == AddTo(AddAll([], ss), s)
  {
    assert (ss + [s])[..|ss|] == ss;
  }

  lemma BadLastWord(words: seq<string>, i: nat)
    requires i < |words| && Parse(words[i]).None?
    ensures ParseAll(words[..i + 1]).None?
  {
    OneMore(words, i);
    ParseAllGrows(words[..i], words[i]);
  }

  lemma OneMoreWord(words: seq<string>, i: nat)
    requires i < |words| && ParseAll(words[..i]).Some? && Parse(words[i]).Some?
    ensures ParseAll(words[..i + 1]) == Some(ParseAll(words[..i]).value + [Parse(words[i]).value])
  {
    OneMore(words, i);
    ParseAllGrows(words[..i], words[i]);
  }

  predicate HoldsWords(held: seq<Scope>, words: seq<string>) {
    ParseAll(words).Some? && held == AddAll([], ParseAll(words).value)
  }

  lemma OneMoreHeld(held: seq<Scope>, words: seq<string>, i: nat)
    requires i < |words| && HoldsWords(held, words[..i]) && Parse(words[i]).Some?
    ensures HoldsWords(AddTo(held, Parse(words[i]).value), words[..i + 1])
  {
    OneMoreWord(words, i);
    OneMoreAdded(ParseAll(words[..i]).value, Parse(words[i]).value);
  }

  class ScopeSet {
    /** The keys of the first dictionary in insertion order. */
    var scopes: seq<Scope>
    /** `_scopes_to_implicants`. */
    var toImplicants: map<Scope, seq<Scope>>
    /** `_implicants_to_scopes`. */
    var toScopes: map<Scope, set<Scope>>

    /** Both dictionaries are exactly what the members determine. */
    ghost predicate Indexed()
      reads this
    {
      Forward(scopes, toImplicants) && Inverse(scopes, toScopes)
    }

    ghost predicate Valid()
      reads this
    {
      Indexed() && Canonical(scopes)
    }

    constructor ()
      ensures Valid() && scopes == []
    {
      scopes, toImplicants, toScopes := [], map[], map[];
    }

    /** `from_string`: word after word; the first invalid one is an error. */
    static method FromString(text: string) returns (ok: bool, result: ScopeSet)
      ensures ok <==> FromText(text).Some?
      ensures fresh(result) && result.Valid() && (ok ==> result.scopes == FromText(text).value)
    {
      result := new ScopeSet();
      var words := Words(text);
      var i := 0;
      while i < |words|
        invariant 0 <= i <= |words| && fresh(result) && result.Valid()
        invariant HoldsWords(result.scopes, words[..i])
      {
        var parsed := Parse(words[i]);
        if parsed.None? {
          BadLastWord(words, i);
          ParseAllPrefix(words, i + 1);
          return false, result;
        }
        OneMoreHeld(result.scopes, words, i);
        SpellParse(words[i]);
        result.AddScope(parsed.value);
        i := i + 1;
      }
      assert words[..i] == words;
      ok := true;
    }

    /** `_has_some_scope`: a lookup of each implicant decides whether the scope is implied. */
    method HasSomeScope(s: Scope) returns (r: bool)
      requires Indexed()
      ensures r == Covers(scopes, s)
    {
      var implicants := Implicants(s);
      r := exists x :: x in implicants && x in toImplicants;
      if r {
        var x :| x in implicants && x in toImplicants;
        var i :| 0 <= i < |scopes| && scopes[i] == x;
      }
      if Covers(scopes, s) {
        var i :| 0 <= i < |scopes| && Implies(scopes[i], s);
        assert scopes[i] in implicants && scopes[i] in toImplicants;
      }
    }

    /** Takes a member out of the buckets of its implicants, and deletes those this empties. */
    method CutBuckets(s: Scope, implicants: seq<Scope>)
      requires Inverse(scopes, toScopes) && s in scopes && implicants == Implicants(s)
      modifies this`toScopes
      ensures Cut(old(toScopes), toScopes, s, implicants)
    {
      var k := 0;
      while k < |implicants|
        invariant 0 <= k <= |implicants|
        invariant Cut(old(toScopes), toScopes, s, implicants[..k])
      {
        var x := implicants[k];
        CutReaches(scopes, old(toScopes), toScopes, s, k);
        CutOneMore(old(toScopes), toScopes, s, implicants[..k], x);
        var bucket := toScopes[x] - {s};
        if bucket == {} {
          toScopes := toScopes - {x};
        } else {
          toScopes := toScopes[x := bucket];
        }
        OneMore(implicants, k);
        k := k + 1;
      }
      assert implicants[..k] == implicants;
    }

    /** Takes a member out of both dictionaries. */
    method RemoveScope(s: Scope)
      requires Indexed() && s in scopes
      modifies this
      ensures Indexed() && scopes == WithoutAll(old(scopes), {s})
    {
      CutBuckets(s, toImplicants[s]);
      toImplicants := toImplicants - {s};
      scopes := WithoutAll(scopes, {s});
      WithoutMembers(old(scopes), {s});
      CutInverse(old(scopes), old(toScopes), toScopes, s);
    }

    /** Enters a new member into the bucket of each implicant. */
    method EnterBuckets(s: Scope, implicants: seq<Scope>)
      requires NoEmptyBucket(toScopes)
      modifies this`toScopes
      ensures Entered(old(toScopes), toScopes, s, implicants)
    {
      var k := 0;
      while k < |implicants|
        invariant 0 <= k <= |implicants|
        invariant Entered(old(toScopes), toScopes, s, implicants[..k])
      {
        var x := implicants[k];
        EnteredOneMore(old(toScopes), toScopes, s, implicants[..k], x);
        toScopes := toScopes[x := At(toScopes, x) + {s}];
        OneMore(implicants, k);
        k := k + 1;
      }
      assert implicants[..k] == implicants;
    }

    /** Enters a new member into both dictionaries. */
    method InsertScope(s: Scope)
      requires Indexed() && s !in scopes
      modifies this
      ensures Indexed() && scopes == old(scopes) + [s]
    {
      var implicants := Implicants(s);
      scopes := scopes + [s];
      toImplicants := toImplicants[s := implicants];
      EnterBuckets(s, implicants);
      EnteredInverse(old(scopes), old(toScopes), toScopes, s);
    }

    /** Removes one more of the members that go. */
    method RemoveOne(ghost all: seq<Scope>, ghost removed: set<Scope>, s: Scope)
      requires Indexed() && scopes == WithoutAll(all, removed) && s in all && s !in removed
      modifies this
      ensures Indexed() && scopes == WithoutAll(all, removed + {s})
    {
      WithoutMembers(all, removed);
      RemoveScope(s);
      WithoutTwice(all, removed, {s});
    }

    /** Removes every member the new scope implies. */
    method RemoveImplied(s: Scope)
      requires Indexed()
      modifies this
      ensures Indexed() && scopes == WithoutAll(old(scopes), ImpliedBy(old(scopes), s))
    {
      ghost var gone, removed := ImpliedBy(scopes, s), {};
      var todo := At(toScopes, s);
      BucketIsImplied(scopes, toScopes, s);
      WithoutNothing(scopes, {});
      while todo != {}
        invariant Indexed() && removed + todo == gone && removed !! todo
        invariant scopes == WithoutAll(old(scopes), removed)
      {
        var h :| h in todo;
        RemoveOne(old(scopes), removed, h);
        removed, todo := removed + {h}, todo - {h};
      }
      assert removed == gone;
    }

    /** Nothing if the scope is already implied; otherwise whatever it makes redundant goes first. */
    method AddScope(s: Scope)
      requires Valid() && Scopes.Valid(s)
      modifies this
      ensures Valid() && scopes == AddTo(old(scopes), s)
    {
      var implied := HasSomeScope(s);
      if implied { return; }
      AddKeepsCanonical(scopes, s);
      NotYetHeld(scopes, s);
      WithoutMembers(scopes, ImpliedBy(scopes, s));
      RemoveImplied(s);
      InsertScope(s);
    }

    method AddMany(ss: seq<Scope>)
      requires Valid() && AllValid(ss)
      modifies this
      ensures Valid() && scopes == AddAll(old(scopes), ss)
    {
      var i := 0;
      while i < |ss|
        invariant 0 <= i <= |ss| && Valid()
        invariant scopes == AddAll(old(scopes), ss[..i])
      {
        OneMore(ss, i);
        AddScope(ss[i]);
        i := i + 1;
      }
      assert ss[..i] == ss;
    }

    /** `add`. */
    method Add(other: ScopeSet)
      requires Valid() && other.Valid()
      modifies this
      ensures Valid() && scopes == AddAll(old(scopes), old(other.scopes))
      ensures other == this ==> scopes == old(scopes)
    {
      if other == this { AddHeld(scopes, scopes); }
      AddMany(other.scopes);
    }

    /** `contains`: every scope of the other set is implied by one held here. */
    method Contains(other: ScopeSet) returns (r: bool)
      requires Valid() && other.Valid()
      ensures r == ScopeSets.Contains(scopes, other.scopes)
      ensures r == MeansAtLeast(scopes, other.scopes)
    {
      ContainsIsInclusion(scopes, other.scopes);
      var i := 0;
      while i < |other.scopes|
        invariant 0 <= i <= |other.scopes|
        invariant forall j :: 0 <= j < i ==> Covers(scopes, other.scopes[j])
      {
        var implied := HasSomeScope(other.scopes[i]);
        if !implied { return false; }
        i := i + 1;
      }
      r := true;
    }

    /** `intersects`, by looking the implicants of either set up in the other. */
    method Intersects(other: ScopeSet) returns (r: bool)
      requires Valid() && other.Valid()
      ensures r <==> exists a, b :: a in scopes && b in other.scopes && (Implies(a, b) || Implies(b, a))
    {
      r := (exists x :: x in other.toScopes && x in toImplicants) || (exists x :: x in toScopes && x in other.toImplicants);
      IntersectsByLookup(scopes, other.scopes, other.toScopes);
      IntersectsByLookup(other.scopes, scopes, toScopes);
      assert forall x :: x in toImplicants <==> x in scopes;
      assert forall x :: x in other.toImplicants <==> x in other.scopes;
    }

    /** `filtered` (or, with `implied` false, `difference`): a new set of the members the other implies. */
    method Select(other: ScopeSet, implied: bool) returns (result: ScopeSet)
      requires Valid() && other.Valid()
      ensures fresh(result) && result.Valid() && result.scopes == Keep(scopes, other.scopes, implied)
    {
      result := new ScopeSet();
      var i := 0;
      while i < |scopes|
        invariant 0 <= i <= |scopes|
        invariant fresh(result) && result.Valid() && result.scopes == Keep(scopes[..i], other.scopes, implied)
      {
        var covered := other.HasSomeScope(scopes[i]);
        OneMore(scopes, i);
        if covered == implied {
          KeepThenAdd(scopes, i, other.scopes, implied);
          result.AddScope(scopes[i]);
        }
        i := i + 1;
      }
      assert scopes[..i] == scopes;
    }

    method Filtered(other: ScopeSet) returns (result: ScopeSet)
      requires Valid() && other.Valid()
      ensures fresh(result) && result.Valid() && result.scopes == Keep(scopes, other.scopes, true)
    {
      result := Select(other, true);
    }

    method Difference(other: ScopeSet) returns (result: ScopeSet)
      requires Valid() && other.Valid()
      ensures fresh(result) && result.Valid() && result.scopes == Keep(scopes, other.scopes, false)
    {
      result := Select(other, false);
    }

    method Union(other: ScopeSet) returns (result: ScopeSet)
      requires Valid() && other.Valid()
      ensures fresh(result) && result.Valid() && result.scopes == AddAll(AddAll([], scopes), other.scopes)
    {
      result := new ScopeSet();
      result.AddMany(scopes);
      result.AddMany(other.scopes);
    }
  }

  lemma ImplicantsDistinct(s: Scope)
    ensures forall i, j :: 0 <= i < j < |Implicants(s)| ==> Implicants(s)[i] != Implicants(s)[j]
  {
    match s
    case Short(names) => DedupKeeps(ShortImplicants(Base(names), IsWrite(names)));
    case Url(netloc, segments, fragment) => DedupKeeps(UrlImplicants(netloc, segments, fragment));
  }

  // ---- the second dictionary, bucket by bucket ----

  predicate NoEmptyBucket(index: map<Scope, set<Scope>>) {
    forall x :: x in index ==> index[x] != {}
  }

  /** s has left the buckets of these implicants. */
  ghost predicate Cut(before: map<Scope, set<Scope>>, index: map<Scope, set<Scope>>, s: Scope, implicants: seq<Scope>) {
    NoEmptyBucket(index) && forall x :: At(index, x) == At(before, x) - if x in implicants then {s} else {}
  }

  lemma CutReaches(held: seq<Scope>, before: map<Scope, set<Scope>>, index: map<Scope, set<Scope>>, s: Scope, k: nat)
    requires Inverse(held, before) && s in held && k < |Implicants(s)|
    requires Cut(before, index, s, Implicants(s)[..k])
    ensures Implicants(s)[k] in index && s in index[Implicants(s)[k]]
  {
    var x := Implicants(s)[k];
    ImplicantsDistinct(s);
    assert x !in Implicants(s)[..k];
    assert s in Bucket(held, x) && At(before, x) == Bucket(held, x);
    assert At(index, x) == At(before, x) - {};
  }

  lemma CutOneMore(before: map<Scope, set<Scope>>, index: map<Scope, set<Scope>>, s: Scope, implicants: seq<Scope>, x: Scope)
    requires Cut(before, index, s, implicants) && x in index
    ensures var bucket := index[x] - {s};
            Cut(before, if bucket == {} then index - {x} else index[x := bucket], s, implicants + [x])
  {
    var bucket := index[x] - {s};
    var cut := if bucket == {} then index - {x} else index[x := bucket];
    forall y ensures At(cut, y) == At(before, y) - if y in implicants + [x] then {s} else {} {
      assert At(index, y) == At(before, y) - if y in implicants then {s} else {};
    }
  }

  lemma CutInverse(held: seq<Scope>, before: map<Scope, set<Scope>>, index: map<Scope, set<Scope>>, s: Scope)
    requires Inverse(held, before) && Cut(before, index, s, Implicants(s))
    ensures Inverse(WithoutAll(held, {s}), index)
  {
    WithoutMembers(held, {s});
    forall x ensures At(index, x) == Bucket(WithoutAll(held, {s}), x) {
      assert At(before, x) == Bucket(held, x);
    }
  }

  /** s has joined the buckets of these implicants. */
  ghost predicate Entered(before: map<Scope, set<Scope>>, index: map<Scope, set<Scope>>, s: Scope, implicants: seq<Scope>) {
    NoEmptyBucket(index) && forall x :: At(index, x) == At(before, x) + if x in implicants then {s} else {}
  }

  lemma EnteredOneMore(before: map<Scope, set<Scope>>, index: map<Scope, set<Scope>>, s: Scope, implicants: seq<Scope>, x: Scope)
    requires Entered(before, index, s, implicants)
    ensures Entered(before, index[x := At(index, x) + {s}], s, implicants + [x])
  {
    var entered := index[x := At(index, x) + {s}];
    forall y ensures At(entered, y) == At(before, y) + if y in implicants + [x] then {s} else {} {
      assert At(index, y) == At(before, y) + if y in implicants then {s} else {};
    }
  }

  lemma EnteredInverse(held: seq<Scope>, before: map<Scope, set<Scope>>, index: map<Scope, set<Scope>>, s: Scope)
    requires Inverse(held, before) && Entered(before, index, s, Implicants(s))
    ensures Inverse(held + [s], index)
  {
    forall x ensures At(index, x) == Bucket(held + [s], x) {
      assert At(before, x) == Bucket(held, x);
    }
  }

  lemma NotYetHeld(held: seq<Scope>, s: Scope)
    requires Scopes.Valid(s) && !Covers(held, s)
    ensures s !in held
  {
    ImpliesReflexive(s);
  }

  /** A member implies one of the other set's, or is implied by one: found by lookup either way. */
  lemma IntersectsByLookup(a: seq<Scope>, b: seq<Scope>, index: map<Scope, set<Scope>>)
    requires Inverse(b, index)
    ensures (exists x :: x in index && x in a) <==> exists x, y :: x in a && y in b && Implies(x, y)
  {
    if x :| x in index && x in a {
      assert At(index, x) == Bucket(b, x);
      var y :| y in Bucket(b, x);
      assert x in a && y in b && Implies(x, y);
    }
    if x, y :| x in a && y in b && Implies(x, y) {
      assert y in Bucket(b, x) && Bucket(b, x) == At(index, x);
    }
  }

  /** A member of a canonical set is not made redundant by the members selected before it. */
  lemma KeepThenAdd(held: seq<Scope>, i: nat, other: seq<Scope>, implied: bool)
    requires Canonical(held) && i < |held|
    ensures AddTo(Keep(held[..i], other, implied), held[i]) == Keep(held[..i], other, implied) + [held[i]]
  {
    var kept := Keep(held[..i], other, implied);
    KeepMembers(held[..i], other, implied);
    forall j | 0 <= j < |kept| ensures !Implies(kept[j], held[i]) && !Implies(held[i], kept[j]) {
      assert kept[j] in held[..i];
      var k :| 0 <= k < i && held[..i][k] == kept[j];
      assert held[k] == kept[j];
    }
    WithoutNothing(kept, ImpliedBy(kept, held[i]));
  }
}
