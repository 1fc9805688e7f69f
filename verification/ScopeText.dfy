/** Splitting strings at a separator, and putting them together again. */
module ScopeText {
  function Split(s: string, sep: char): (parts: seq<string>)
    ensures |parts| > 0
  {
    if s == "" then [""]
    else
      var rest := Split(s[1..], sep);
      if s[0] == sep then [""] + rest else [[s[0]] + rest[0]] + rest[1..]
  }

  function Join(parts: seq<string>, sep: char): string {
    if parts == [] then ""
    else if |parts| == 1 then parts[0]
    else parts[0] + [sep] + Join(parts[1..], sep)
  }

  predicate NoneHas(parts: seq<string>, c: char) {
    forall i :: 0 <= i < |parts| ==> c !in parts[i]
  }

  lemma {:induction false} SplitHead(p: string, t: string, sep: char)
    requires sep !in p
    ensures Split(p, sep) == [p]
    ensures Split(p + [sep] + t, sep) == [p] + Split(t, sep)
  {
    var s := p + [sep] + t;
    if p == "" {
      assert s[1..] == t;
    } else {
      SplitHead(p[1..], t, sep);
      assert p == [p[0]] + p[1..];
      assert s[1..] == p[1..] + [sep] + t;
    }
  }

  lemma {:induction false} SplitJoin(parts: seq<string>, sep: char)
    requires parts != [] && NoneHas(parts, sep)
    ensures Split(Join(parts, sep), sep) == parts
  {
    SplitHead(parts[0], Join(parts[1..], sep), sep);
    if |parts| > 1 {
      SplitJoin(parts[1..], sep);
    }
  }

  lemma {:induction false} JoinSplit(s: string, sep: char)
    ensures Join(Split(s, sep), sep) == s
    ensures NoneHas(Split(s, sep), sep)
  {
    if s != "" {
      JoinSplit(s[1..], sep);
      var rest, parts := Split(s[1..], sep), Split(s, sep);
      if s[0] == sep {
        assert parts[1..] == rest;
      } else {
        assert parts[1..] == rest[1..];
        assert s == [s[0]] + s[1..];
      }
    }
  }

  lemma {:induction false} JoinHas(parts: seq<string>, sep: char, c: char)
    requires c != sep
    ensures c in Join(parts, sep) <==> exists i :: 0 <= i < |parts| && c in parts[i]
  {
    if |parts| > 1 {
      JoinHas(parts[1..], sep, c);
      assert forall i :: 0 < i < |parts| ==> parts[i] == parts[1..][i - 1];
      if c in Join(parts[1..], sep) {
        var i :| 0 <= i < |parts[1..]| && c in parts[1..][i];
        assert c in parts[i + 1];
      }
    }
  }

  function NonEmpty(parts: seq<string>): seq<string> {
    if parts == [] then []
    else (if parts[0] == "" then [] else [parts[0]]) + NonEmpty(parts[1..])
  }

  /** The words of a space-delimited string; runs of spaces count as one. */
  function Words(text: string): seq<string> {
    NonEmpty(Split(text, ' '))
  }

  lemma {:induction false} NonEmptyId(parts: seq<string>)
    requires forall i :: 0 <= i < |parts| ==> parts[i] != ""
    ensures NonEmpty(parts) == parts
  {
    if parts != [] { NonEmptyId(parts[1..]); }
  }

  lemma WordsJoin(words: seq<string>)
    requires NoneHas(words, ' ') && forall i :: 0 <= i < |words| ==> words[i] != ""
    ensures Words(Join(words, ' ')) == words
  {
    if words != [] {
      SplitJoin(words, ' ');
      NonEmptyId(words);
    }
  }
}
