/** Prefixes of sequences, as loops and folds over them meet them. */
module Sequences {
  lemma OneMore<T>(s: seq<T>, i: nat)
    requires i < |s|
    ensures s[..i + 1] == s[..i] + [s[i]]
    ensures s[..i + 1][..i] == s[..i]
  {
  }

  lemma ConcatIsAssociative<T>(a: seq<T>, b: seq<T>, c: seq<T>)
    ensures (a + b) + c == a + (b + c)
  {
  }

  lemma SplitAt<T>(s: seq<T>, start: nat, p: nat)
    requires start <= p <= |s|
    ensures s[start..] == s[start..p] + s[p..]
  {
  }

  lemma MutualPrefix<T>(a: seq<T>, b: seq<T>)
    requires a <= b && b <= a
    ensures a == b
  {
  }

  lemma InitAndLast<T>(s: seq<T>)
    requires s != []
    ensures s == s[..|s| - 1] + [s[|s| - 1]]
  {
  }
}
