/** String helpers shared by the converter model: ASCII character classes as
    Python's `re` and `str` methods see them, `str(n)` for naturals, substring
    search, and splitting text into the lines that `re.MULTILINE` anchors see. */
module Strings {

  /** `" " * n` in Python. */
  function Spaces(n: nat): (r: string)
    ensures |r| == n
    ensures forall i :: 0 <= i < |r| ==> r[i] == ' '
  {
    if n == 0 then "" else Spaces(n - 1) + " "
  }

  /** `"\t" * n` in Python. */
  function Tabs(n: nat): (r: string)
    ensures |r| == n
    ensures forall i :: 0 <= i < |r| ==> r[i] == '\t'
  {
    if n == 0 then "" else Tabs(n - 1) + "\t"
  }

  predicate IsAscii(c: char) {
    c as int < 128
  }

  predicate IsAsciiUpper(c: char) {
    'A' <= c <= 'Z'
  }

  predicate IsAsciiLower(c: char) {
    'a' <= c <= 'z'
  }

  predicate IsAsciiDigit(c: char) {
    '0' <= c <= '9'
  }

  /** Python's `\w` restricted to ASCII: letters, digits and underscore. */
  predicate IsWordChar(c: char) {
    IsAsciiUpper(c) || IsAsciiLower(c) || IsAsciiDigit(c) || c == '_'
  }

  /** Python's `\s` and `str.isspace` restricted to ASCII: tab, line feed,
      vertical tab, form feed, carriage return, the four information
      separators 0x1C..0x1F, and the space. */
  predicate IsWhitespace(c: char) {
    ('\t' <= c <= '\r') || (28 <= c as int <= 31) || c == ' '
  }

  /** `str.lower` on one ASCII character; other characters are kept. A
      capital becomes its own letter in lower case: the same distance from
      `a` as the capital is from `A`. */
  function LowerChar(c: char): (r: char)
    ensures IsAsciiUpper(c) ==> IsAsciiLower(r) && r as int - 'a' as int == c as int - 'A' as int
    ensures !IsAsciiUpper(c) ==> r == c
    ensures IsWordChar(r) <==> IsWordChar(c)
    ensures IsWhitespace(r) <==> IsWhitespace(c)
    ensures !IsAsciiUpper(r)
  {
    if IsAsciiUpper(c) then (c as int - 'A' as int + 'a' as int) as char else c
  }

  /** `str.lower` with ASCII case mapping. */
  function Lower(s: string): (r: string)
    ensures |r| == |s|
    ensures forall i :: 0 <= i < |s| ==> r[i] == LowerChar(s[i])
  {
    if |s| == 0 then "" else [LowerChar(s[0])] + Lower(s[1..])
  }

  /** The ASCII alphabet of 26 letters starting at `first` (`A` or `a`). */
  function Alphabet(first: char): (r: string)
    requires first == 'A' || first == 'a'
    ensures |r| == 26
  {
    seq(26, i requires 0 <= i < 26 => (first as int + i) as char)
  }

  /** `"ABCDEFGHIJKLMNOPQRSTUVWXYZ".lower()` is
      `"abcdefghijklmnopqrstuvwxyz"`: each capital becomes its own letter. */
  lemma LowerLetters()
    ensures Alphabet('A')[0] == 'A' && Alphabet('A')[25] == 'Z'
    ensures Alphabet('a')[0] == 'a' && Alphabet('a')[25] == 'z'
    ensures Lower(Alphabet('A')) == Alphabet('a')
  {
    var up := Alphabet('A');
    var low := Alphabet('a');
    forall i | 0 <= i < 26
      ensures Lower(up)[i] == low[i]
    {
      assert up[i] as int == 'A' as int + i;
    }
  }

  /** A worked title: `"Intro".lower()` is `"intro"`. */
  lemma LowerIntro()
    ensures Lower("Intro") == "intro"
  {
    var r := Lower("Intro");
    assert r[0] == 'i' && r[1] == 'n' && r[2] == 't' && r[3] == 'r' && r[4] == 'o';
  }

  /** `sub in s` in Python: `sub` occurs at some offset of `s`. */
  predicate Contains(s: string, sub: string)
    decreases |s|
  {
    sub <= s || (|s| > 0 && Contains(s[1..], sub))
  }

  function DigitChar(d: nat): (c: char)
    requires d < 10
    ensures IsAsciiDigit(c)
    ensures c as int - '0' as int == d
  {
    ('0' as int + d) as char
  }

  predicate AllDigits(s: string) {
    forall i :: 0 <= i < |s| ==> IsAsciiDigit(s[i])
  }

  /** `str(n)` for a natural number: its decimal digits, without leading zeros. */
  function NatToString(n: nat): (r: string)
    ensures |r| >= 1
    ensures AllDigits(r)
    ensures r[0] == '0' ==> n == 0
    decreases n
  {
    if n < 10 then [DigitChar(n)] else NatToString(n / 10) + [DigitChar(n % 10)]
  }

  /** Reads a string of decimal digits back as a number (`int(s)`). */
  function ParseNat(s: string): nat
    requires AllDigits(s)
  {
    if |s| == 0 then 0
    else ParseNat(s[..|s| - 1]) * 10 + (s[|s| - 1] as int - '0' as int)
  }

  /** `int(str(n)) == n`. */
  lemma {:induction false} ParseNatToString(n: nat)
    ensures ParseNat(NatToString(n)) == n
    decreases n
  {
    if n >= 10 {
      var s := NatToString(n);
      assert s[..|s| - 1] == NatToString(n / 10);
      ParseNatToString(n / 10);
    }
  }

  /** A smaller number never prints with more digits. */
  lemma {:induction false} NatToStringLengthMonotone(a: nat, b: nat)
    requires a <= b
    ensures |NatToString(a)| <= |NatToString(b)|
    decreases b
  {
    if a >= 10 {
      NatToStringLengthMonotone(a / 10, b / 10);
    }
  }

  /** Different numbers print differently. */
  lemma NatToStringInjective(a: nat, b: nat)
    ensures NatToString(a) == NatToString(b) ==> a == b
  {
    ParseNatToString(a);
    ParseNatToString(b);
  }

  /** The lines of `s` as the `^` anchor of `re.MULTILINE` sees them: the
      pieces between line feeds (`s.split("\n")`), so there is always one
      more line than there are line feeds. */
  function SplitLines(s: string): (r: seq<string>)
    ensures |r| >= 1
    ensures forall i :: 0 <= i < |r| ==> '\n' !in r[i]
  {
    if |s| == 0 then [""]
    else if s[0] == '\n' then [""] + SplitLines(s[1..])
    else
      var rest := SplitLines(s[1..]);
      [[s[0]] + rest[0]] + rest[1..]
  }

  /** `"\n".join(ls)`. */
  function JoinLines(ls: seq<string>): string
    requires |ls| >= 1
  {
    if |ls| == 1 then ls[0] else ls[0] + "\n" + JoinLines(ls[1..])
  }

  predicate NoLineFeeds(ls: seq<string>) {
    forall i :: 0 <= i < |ls| ==> '\n' !in ls[i]
  }

  /** Joining the lines of `s` gives back `s`. */
  lemma {:induction false} JoinSplitLines(s: string)
    ensures JoinLines(SplitLines(s)) == s
    decreases |s|
  {
    if |s| == 0 {
    } else if s[0] == '\n' {
      JoinSplitLines(s[1..]);
      assert s == "" + "\n" + s[1..];
    } else {
      JoinSplitLines(s[1..]);
      var rest := SplitLines(s[1..]);
      if |rest| == 1 {
      } else {
        assert rest[1..][1..] == rest[2..];
        assert JoinLines(rest) == rest[0] + "\n" + JoinLines(rest[1..]);
      }
    }
  }

  /** A line without line feeds glues onto the first line of what follows. */
  lemma {:induction false} SplitLinesPrefix(l: string, x: string)
    requires '\n' !in l
    ensures SplitLines(l + x) == [l + SplitLines(x)[0]] + SplitLines(x)[1..]
    decreases |l|
  {
    if |l| > 0 {
      assert (l + x)[0] == l[0];
      assert (l + x)[1..] == l[1..] + x;
      SplitLinesPrefix(l[1..], x);
      assert [l[0]] + (l[1..] + SplitLines(x)[0]) == l + SplitLines(x)[0];
    } else {
      assert l + x == x;
      var r := SplitLines(x);
      assert r == [r[0]] + r[1..];
      assert l + r[0] == r[0];
    }
  }

  /** A line and a line feed in front of `rest` add that one line. */
  lemma SplitLinesCons(l: string, rest: string)
    requires '\n' !in l
    ensures SplitLines(l + "\n" + rest) == [l] + SplitLines(rest)
  {
    SplitLinesPrefix(l, "\n" + rest);
    assert ("\n" + rest)[1..] == rest;
    assert SplitLines("\n" + rest) == [""] + SplitLines(rest);
    assert l + "" == l;
    assert l + "\n" + rest == l + ("\n" + rest);
  }

  /** Splitting `"\n".join(ls)` gives back `ls` when no line holds a line feed. */
  lemma {:induction false} SplitJoinLines(ls: seq<string>)
    requires |ls| >= 1
    requires NoLineFeeds(ls)
    ensures SplitLines(JoinLines(ls)) == ls
    decreases |ls|
  {
    if |ls| == 1 {
      SplitLinesPrefix(ls[0], "");
      assert ls[0] + "" == ls[0];
    } else {
      SplitJoinLines(ls[1..]);
      var x := "\n" + JoinLines(ls[1..]);
      SplitLinesPrefix(ls[0], x);
      assert x[1..] == JoinLines(ls[1..]);
      assert SplitLines(x) == [""] + ls[1..];
      assert ls[0] + "\n" + JoinLines(ls[1..]) == ls[0] + x;
      assert ls[0] + "" == ls[0];
    }
  }
}
