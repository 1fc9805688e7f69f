/** Offset tokens as text: what the server spells into a header and reads back from a query. */
module OffsetText {
  import opened Wrappers
  import opened SyncTables
  import opened Paging

  predicate IsDigit(c: char) {
    '0' <= c <= '9'
  }

  predicate IsSpace(c: char) {
    c == ' ' || '\t' <= c <= '\r'
  }

  /** `str` of a whole number. */
  function Digits(n: nat): (s: string)
    ensures s != "" && forall i :: 0 <= i < |s| ==> IsDigit(s[i])
  {
    var last := [('0' as int + n % 10) as char];
    if n < 10 then last else Digits(n / 10) + last
  }

  function Spell(n: int): string {
    if n < 0 then "-" + Digits(-n) else Digits(n)
  }

  /** `Offset.__str__`. */
  function SpellOffset(o: Offset): string {
    match o.timestamp
    case None => Digits(o.offset)
    case Some(t) => Spell(t) + ":" + Digits(o.offset)
  }

  /** Digits, with single underscores allowed between them. */
  function DigitValue(s: string): Option<nat> {
    if s == "" || !IsDigit(s[|s| - 1]) then None
    else
      var digit, rest := s[|s| - 1] as int - '0' as int, s[..|s| - 1];
      if rest == "" then Some(digit)
      else
        match DigitValue(if rest[|rest| - 1] == '_' then rest[..|rest| - 1] else rest)
        case None => None
        case Some(n) => Some(n * 10 + digit)
  }

  function Strip(s: string): string {
    if s != "" && IsSpace(s[0]) then Strip(s[1..])
    else if s != "" && IsSpace(s[|s| - 1]) then Strip(s[..|s| - 1])
    else s
  }

  /** `int`, refusing what is below zero. */
  function NonNegative(s: string): Option<nat> {
    var text := Strip(s);
    if text != "" && text[0] == '-' then (if DigitValue(text[1..]) == Some(0) then Some(0) else None)
    else if text != "" && text[0] == '+' then DigitValue(text[1..])
    else DigitValue(text)
  }

  /** Where the first colon is, or the length when there is none. */
  function ColonAt(s: string): (k: nat)
    ensures k <= |s| && (k < |s| ==> s[k] == ':')
  {
    if s == "" || s[0] == ':' then 0 else 1 + ColonAt(s[1..])
  }

  /** `Offset.parse`; no result stands for its ValueError. */
  function ParseOffset(s: string): Option<Offset> {
    var colon := ColonAt(s);
    if colon == |s| then
      match NonNegative(s)
      case None => None
      case Some(n) => Some(Offset(None, n))
    else
      match NonNegative(s[..colon])
      case None => None
      case Some(t) =>
        match NonNegative(s[colon + 1..])
        case None => None
        case Some(n) => Some(Offset(Some(Quantize(t)), n))
  }

  lemma {:induction false} DigitsValue(n: nat)
    ensures DigitValue(Digits(n)) == Some(n)
  {
    if n >= 10 {
      var s := Digits(n);
      assert s[..|s| - 1] == Digits(n / 10);
      DigitsValue(n / 10);
    }
  }

  lemma SpelledIsRead(n: int)
    ensures NonNegative(Spell(n)) == if n >= 0 then Some(n as nat) else None
  {
    if n >= 0 {
      DigitsValue(n);
      assert !IsSpace(Digits(n)[0]) && !IsSpace(Digits(n)[|Digits(n)| - 1]);
    } else {
      DigitsValue(-n);
      var s, d := Spell(n), Digits(-n);
      assert s[1..] == d && s[|s| - 1] == d[|d| - 1];
    }
  }

  lemma {:induction false} ColonAfter(head: string, tail: string)
    requires ':' !in head
    ensures ColonAt(head) == |head| && ColonAt(head + ":" + tail) == |head|
  {
    var s := head + ":" + tail;
    if head != "" {
      assert s[1..] == head[1..] + ":" + tail;
      ColonAfter(head[1..], tail);
    }
  }

  /** How a token is written. */
  lemma TokenIsWritten()
    ensures SpellOffset(Offset(Some(1230), 4)) == "1230:4" && SpellOffset(Offset(None, 12)) == "12"
  {
    assert Digits(1) == "1" && Digits(12) == "12" && Digits(123) == "123" && Digits(1230) == "1230" && Digits(4) == "4";
  }

  /** A token survives the trip through text exactly when its timestamp is one the server can have stamped. */
  lemma OffsetRoundTrip(o: Offset)
    ensures ParseOffset(SpellOffset(o)) == Some(o)
            <==> (o.timestamp.Some? ==> o.timestamp.value >= 0 && o.timestamp.value % 10 == 0)
  {
    var count := Digits(o.offset);
    SpelledIsRead(o.offset);
    match o.timestamp {
      case None =>
        ColonAfter(count, "");
      case Some(t) =>
        var head, s := Spell(t), SpellOffset(o);
        SpelledIsRead(t);
        ColonAfter(head, count);
        assert s[..|head|] == head && s[|head| + 1..] == count;
    }
  }

  /** So every token that ends a page of rows stamped at or after the epoch is read back as it was issued. */
  lemma IssuedTokenIsReadBack(sort: Sorting, prevOffset: nat, prevTimestamp: Option<int>, modified: seq<int>)
    requires forall i :: 0 <= i < |modified| ==> modified[i] >= 0
    ensures var token := NextOffset(sort, prevOffset, prevTimestamp, modified);
            ParseOffset(SpellOffset(token)) == Some(token)
  {
    IssuedStampIsWhole(sort, prevOffset, prevTimestamp, modified);
    OffsetRoundTrip(NextOffset(sort, prevOffset, prevTimestamp, modified));
  }

  lemma IssuedStampIsWhole(sort: Sorting, prevOffset: nat, prevTimestamp: Option<int>, modified: seq<int>)
    requires forall i :: 0 <= i < |modified| ==> modified[i] >= 0
    ensures var stamp := NextOffset(sort, prevOffset, prevTimestamp, modified).timestamp;
            stamp.Some? ==> stamp.value >= 0 && stamp.value % 10 == 0
  {
  }
}
