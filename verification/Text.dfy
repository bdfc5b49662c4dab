/** `split`, `atoi` and the printing of integers, as both RTSP programs use them. */
module Text {

  /** std::vector<string>, passed by reference. */
  class StringVector {
    var elems: seq<string>

    constructor ()
      ensures elems == []
    {
      elems := [];
    }

    /** split: getline until the stream is exhausted, each item pushed at the end. */
    method Split(s: string, delim: char)
      modifies this
      ensures elems == old(elems) + Pieces(s, delim)
    {
      var rest := s;
      while rest != ""
        invariant elems + Pieces(rest, delim) == old(elems) + Pieces(s, delim)
        decreases |rest|
      {
        ghost var before := rest;
        var item;
        item, rest := GetLine(rest, delim);
        assert (elems + [item]) + Pieces(rest, delim) == elems + Pieces(before, delim);
        elems := elems + [item];
      }
    }
  }

  /** getline on a stream that is not exhausted: the item, and what the stream still holds. */
  method GetLine(s: string, delim: char) returns (item: string, rest: string)
    requires s != ""
    ensures delim !in item && (s == item + [delim] + rest || (s == item && rest == ""))
    ensures |rest| < |s|
    ensures Pieces(s, delim) == [item] + Pieces(rest, delim)
  {
    var i := 0;
    while i < |s| && s[i] != delim
      invariant 0 <= i <= |s|
      invariant delim !in s[..i]
    {
      i := i + 1;
    }
    item := s[..i];
    if i < |s| {
      rest := s[i + 1..];
      assert s == item + [delim] + rest;
      PiecesCons(item, delim, rest);
    } else {
      rest := "";
      assert s == item;
      PiecesLast(s, delim);
    }
  }

  /** Where `c` first occurs, or the length of the text. */
  function IndexOf(s: string, c: char): (i: nat)
    ensures i <= |s|
  {
    if s == "" || s[0] == c then 0 else 1 + IndexOf(s[1..], c)
  }

  lemma {:induction false} IndexFound(s: string, c: char)
    ensures var i := IndexOf(s, c); c !in s[..i] && (i < |s| ==> s[i] == c)
  {
    if s != "" && s[0] != c {
      IndexFound(s[1..], c);
      var i := IndexOf(s, c);
      assert s[..i] == [s[0]] + s[1..][..i - 1];
    }
  }

  /** The items getline yields: a trailing delimiter opens no further item. */
  function Pieces(s: string, delim: char): seq<string>
    decreases |s|
  {
    if s == "" then [] else
      var i := IndexOf(s, delim);
      [s[..i]] + if i < |s| then Pieces(s[i + 1..], delim) else []
  }

  function Join(pieces: seq<string>, delim: char): string {
    if pieces == [] then "" else if |pieces| == 1 then pieces[0] else pieces[0] + [delim] + Join(pieces[1..], delim)
  }

  function Count(s: string, c: char): nat {
    if s == "" then 0 else (if s[0] == c then 1 else 0) + Count(s[1..], c)
  }

  lemma {:induction false} IndexIs(s: string, c: char, i: nat)
    requires i <= |s| && c !in s[..i] && (i < |s| ==> s[i] == c)
    ensures IndexOf(s, c) == i
  {
    if i > 0 {
      assert s[0] == s[..i][0];
      assert s[1..][..i - 1] == s[..i][1..];
      IndexIs(s[1..], c, i - 1);
    }
  }

  lemma PiecesCons(a: string, delim: char, rest: string)
    requires delim !in a
    ensures Pieces(a + [delim] + rest, delim) == [a] + Pieces(rest, delim)
  {
    var s := a + [delim] + rest;
    assert s[..|a|] == a;
    IndexIs(s, delim, |a|);
    assert s[|a| + 1..] == rest;
  }

  lemma PiecesLast(a: string, delim: char)
    requires a != "" && delim !in a
    ensures Pieces(a, delim) == [a]
  {
    assert a[..|a|] == a;
    IndexIs(a, delim, |a|);
  }

  lemma {:induction false} CountAppend(a: string, b: string, c: char)
    ensures Count(a + b, c) == Count(a, c) + Count(b, c)
  {
    if a == "" {
      assert a + b == b;
    } else {
      CountAppend(a[1..], b, c);
      assert (a + b)[1..] == a[1..] + b;
    }
  }

  lemma {:induction false} CountNone(a: string, c: char)
    requires c !in a
    ensures Count(a, c) == 0
  {
    if a != "" { CountNone(a[1..], c); }
  }

  predicate EndsWith(s: string, c: char) {
    s != "" && s[|s| - 1] == c
  }

  /** No piece contains the delimiter, the pieces joined give back the text without at most one
      trailing delimiter, and their number follows from the text. */
  predicate SplitOf(s: string, delim: char, pieces: seq<string>) {
    && (forall p :: p in pieces ==> delim !in p)
    && Join(pieces, delim) + (if EndsWith(s, delim) then [delim] else "") == s
    && |pieces| == Count(s, delim) + if s == "" || EndsWith(s, delim) then 0 else 1
  }

  /** split against join, for every text and delimiter. */
  lemma {:induction false} SplitJoin(s: string, delim: char)
    ensures SplitOf(s, delim, Pieces(s, delim))
    decreases |s|
  {
    if s != "" {
      var i := IndexOf(s, delim);
      IndexFound(s, delim);
      if i < |s| {
        SplitJoin(s[i + 1..], delim);
        CutOut(s, i);
        SplitJoinStep(s[..i], delim, s[i + 1..]);
      } else {
        assert s[..i] == s;
        CountNone(s, delim);
      }
    }
  }

  lemma CutOut(s: string, i: nat)
    requires i < |s|
    ensures s == s[..i] + [s[i]] + s[i + 1..]
  {}

  lemma SplitJoinStep(head: string, delim: char, rest: string)
    requires delim !in head && SplitOf(rest, delim, Pieces(rest, delim))
    ensures SplitOf(head + [delim] + rest, delim, [head] + Pieces(rest, delim))
  {
    var s, tail := head + [delim] + rest, Pieces(rest, delim);
    CountNone(head, delim);
    CountAppend(head + [delim], rest, delim);
    CountAppend(head, [delim], delim);
    assert Count([delim], delim) == 1;
    assert ([head] + tail)[1..] == tail;
    if rest == "" {
      assert Join([head] + tail, delim) == head;
    } else {
      var end := if EndsWith(rest, delim) then [delim] else "";
      assert head + [delim] + Join(tail, delim) + end == head + [delim] + (Join(tail, delim) + end);
    }
  }

  // ---------------------------------------------------------------- integers

  predicate IsDigit(c: char) {
    '0' <= c <= '9'
  }

  predicate IsSpace(c: char) {
    c == ' ' || '\t' <= c <= '\r'
  }

  /** atoi: optional white space, optional sign, then digits up to the first other character. */
  function Atoi(s: string): int {
    var t := SkipSpace(s);
    if t == "" then 0
    else if t[0] == '-' then 0 - Digits(t[1..], 0)
    else if t[0] == '+' then Digits(t[1..], 0)
    else Digits(t, 0)
  }

  function SkipSpace(s: string): string {
    if s == "" || !IsSpace(s[0]) then s else SkipSpace(s[1..])
  }

  function Digits(s: string, before: nat): nat {
    if s == "" || !IsDigit(s[0]) then before else Digits(s[1..], 10 * before + (s[0] - '0') as nat)
  }

  function Decimal(n: nat): string {
    if n < 10 then [DigitChar(n)] else Decimal(n / 10) + [DigitChar(n % 10)]
  }

  function DigitChar(n: nat): (c: char)
    requires n < 10
    ensures IsDigit(c) && (c - '0') as nat == n
  {
    '0' + n as char
  }

  /** What `<<` prints for an int. */
  function Itoa(n: int): string {
    if n < 0 then "-" + Decimal(-n) else Decimal(n)
  }

  lemma {:induction false} DigitsOfDecimal(n: nat, rest: string)
    ensures Digits(Decimal(n) + rest, 0) == Digits(rest, n)
    ensures IsDigit(Decimal(n)[0])
    decreases n
  {
    if n < 10 {
      assert (Decimal(n) + rest)[1..] == rest;
    } else {
      var c := DigitChar(n % 10);
      DigitsOfDecimal(n / 10, [c] + rest);
      assert Decimal(n) + rest == Decimal(n / 10) + ([c] + rest);
      assert ([c] + rest)[1..] == rest;
    }
  }

  /** A printed integer reads back as itself when no digit follows it. */
  lemma AtoiOfItoa(n: int, rest: string)
    requires rest == "" || !IsDigit(rest[0])
    ensures Atoi(Itoa(n) + rest) == n
  {
    if n < 0 {
      var text := "-" + Decimal(-n);
      assert Itoa(n) == text;
      AtoiOfNegative(-n, rest);
    } else {
      assert Itoa(n) == Decimal(n);
      AtoiOfDecimal(n, rest);
    }
  }

  lemma {:induction false} SkipsSpaces(spaces: string, text: string)
    requires forall i :: 0 <= i < |spaces| ==> spaces[i] == ' ' || 9 <= spaces[i] as int <= 13
    ensures SkipSpace(spaces + text) == SkipSpace(text)
  {
    if spaces == "" {
      assert "" + text == text;
    } else {
      SkipsSpaces(spaces[1..], text);
      assert (spaces + text)[1..] == spaces[1..] + text;
    }
  }

  /** Beyond what is printed: leading white space is skipped, one plus sign is allowed, and a text
      that starts with anything else reads as 0. */
  lemma AtoiForms(spaces: string, text: string)
    requires forall i :: 0 <= i < |spaces| ==> spaces[i] == ' ' || 9 <= spaces[i] as int <= 13
    ensures Atoi(spaces + text) == Atoi(text)
    ensures text != "" && IsDigit(text[0]) ==> Atoi(spaces + ("+" + text)) == Atoi(text)
    ensures text == "" || !(IsDigit(text[0]) || text[0] in "+- " || 9 <= text[0] as int <= 13) ==> Atoi(text) == 0
  {
    SkipsSpaces(spaces, text);
    SkipsSpaces(spaces, "+" + text);
    assert ("+" + text)[1..] == text;
  }

  lemma AtoiOfDecimal(n: nat, rest: string)
    requires rest == "" || !IsDigit(rest[0])
    ensures Atoi(Decimal(n) + rest) == n
  {
    DigitsOfDecimal(n, rest);
    var digits := Decimal(n) + rest;
    assert digits[0] == Decimal(n)[0];
    AtoiDigits(digits);
  }

  lemma AtoiOfNegative(n: nat, rest: string)
    requires rest == "" || !IsDigit(rest[0])
    ensures Atoi("-" + Decimal(n) + rest) == 0 - n
  {
    DigitsOfDecimal(n, rest);
    assert "-" + Decimal(n) + rest == "-" + (Decimal(n) + rest);
    AtoiSign(Decimal(n) + rest);
  }

  lemma AtoiDigits(digits: string)
    requires digits != "" && IsDigit(digits[0])
    ensures Atoi(digits) == Digits(digits, 0)
  {}

  lemma AtoiSign(digits: string)
    ensures Atoi("-" + digits) == 0 - Digits(digits, 0)
  {
    assert ("-" + digits)[1..] == digits;
  }

  /** Printed integers contain neither blanks nor line ends. */
  lemma {:induction false} DecimalIsDigits(n: nat)
    ensures forall c :: c in Decimal(n) ==> IsDigit(c)
    decreases n
  {
    if n >= 10 { DecimalIsDigits(n / 10); }
  }

  lemma ItoaIsOneToken(n: int)
    ensures Itoa(n) != "" && ' ' !in Itoa(n) && '\n' !in Itoa(n)
  {
    DecimalIsDigits(if n < 0 then -n else n);
  }
}
