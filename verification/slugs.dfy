/** `Parser.slugify` with `allow_unicode=False`: the title of a slide turned
    into a file-name-safe stem for its extracted media. */
module Slugs {
  import opened Strings

  /** The characters a slug can hold: `[a-z0-9_-]`. */
  predicate IsSlugChar(c: char) {
    IsAsciiLower(c) || IsAsciiDigit(c) || c == '_' || c == '-'
  }

  /** Only slug characters, and never two hyphens in a row. */
  predicate IsSlug(s: string) {
    && (forall i :: 0 <= i < |s| ==> IsSlugChar(s[i]))
    && (forall i :: 0 <= i < |s| - 1 ==> !(s[i] == '-' && s[i + 1] == '-'))
  }

  /** The ASCII conversion: every non-ASCII character is dropped. The NFKD
      decomposition that precedes it in the source is not modelled, so this is
      exact for ASCII titles only. */
  function AsciiOnly(s: string): (r: string)
    ensures forall i :: 0 <= i < |r| ==> IsAscii(r[i])
    ensures forall c :: c in r <==> c in s && IsAscii(c)
    ensures (forall i :: 0 <= i < |s| ==> IsAscii(s[i])) ==> r == s
  {
    if |s| == 0 then ""
    else (if IsAscii(s[0]) then [s[0]] else []) + AsciiOnly(s[1..])
  }

  /** What `re.sub(r"[^\w\s-]", "", v)` keeps. */
  predicate IsKept(c: char) {
    IsWordChar(c) || IsWhitespace(c) || c == '-'
  }

  /** What `[-\s]+` matches. */
  predicate IsSeparator(c: char) {
    c == '-' || IsWhitespace(c)
  }

  /** `re.sub(r"[^\w\s-]", "", v)`. */
  function RemoveDisallowed(s: string): (r: string)
    ensures forall c :: c in r <==> c in s && IsKept(c)
  {
    if |s| == 0 then ""
    else (if IsKept(s[0]) then [s[0]] else []) + RemoveDisallowed(s[1..])
  }

  /** Leading part of `str.strip()`. */
  function TrimStart(s: string): (r: string)
    ensures |r| <= |s| && r == s[|s| - |r|..]
    ensures |r| > 0 ==> !IsWhitespace(r[0])
  {
    if |s| > 0 && IsWhitespace(s[0]) then TrimStart(s[1..]) else s
  }

  /** What `TrimStart` removes is whitespace. */
  lemma {:induction false} TrimStartDropsWhitespace(s: string)
    ensures AllWhitespace(s[..|s| - |TrimStart(s)|])
    decreases |s|
  {
    if |s| > 0 && IsWhitespace(s[0]) {
      TrimStartDropsWhitespace(s[1..]);
      var n := |s| - |TrimStart(s)|;
      assert s[..n] == [s[0]] + s[1..][..n - 1];
    }
  }

  /** Trailing part of `str.strip()`. */
  function TrimEnd(s: string): (r: string)
    ensures |r| <= |s| && r == s[..|r|]
    ensures |r| > 0 ==> !IsWhitespace(r[|r| - 1])
    ensures |s| > 0 && !IsWhitespace(s[0]) ==> |r| > 0
  {
    if |s| > 0 && IsWhitespace(s[|s| - 1]) then TrimEnd(s[..|s| - 1]) else s
  }

  /** What `TrimEnd` removes is whitespace. */
  lemma {:induction false} TrimEndDropsWhitespace(s: string)
    ensures AllWhitespace(s[|TrimEnd(s)|..])
    decreases |s|
  {
    if |s| > 0 && IsWhitespace(s[|s| - 1]) {
      var u := s[..|s| - 1];
      TrimEndDropsWhitespace(u);
      var n := |TrimEnd(s)|;
      assert s[n..] == u[n..] + [s[|s| - 1]];
    }
  }

  /** `str.strip()`: the whitespace at both ends removed. */
  function Strip(s: string): (r: string)
    ensures forall c :: c in r ==> c in s
    ensures |r| > 0 ==> !IsWhitespace(r[0]) && !IsWhitespace(r[|r| - 1])
  {
    var t := TrimStart(s);
    var r := TrimEnd(t);
    assert forall c :: c in r ==> c in t;
    r
  }

  /** `str.strip()` removes whitespace at the ends and nothing else: the
      result is a slice of the input with only whitespace before and after
      it (and, by `Strip`'s contract, none at its own ends). */
  lemma StripIsSlice(s: string)
    ensures var r := Strip(s);
      exists i :: (0 <= i <= |s| && AllWhitespace(s[..i]) && r <= s[i..] && AllWhitespace(s[i + |r|..]))
  {
    var t := TrimStart(s);
    var r := TrimEnd(t);
    var i := |s| - |t|;
    StripWitness(s, t, r, i);
  }

  lemma StripWitness(s: string, t: string, r: string, i: nat)
    requires t == TrimStart(s) && r == TrimEnd(t) && i == |s| - |t|
    ensures 0 <= i <= |s| && AllWhitespace(s[..i]) && r <= s[i..] && AllWhitespace(s[i + |r|..])
  {
    TrimStartDropsWhitespace(s);
    TrimEndDropsWhitespace(t);
    assert t == s[i..];
    TakeIsPrefix(t, |r|);
    DropDrop(s, i, |r|);
  }

  lemma TakeIsPrefix<T>(t: seq<T>, k: nat)
    requires k <= |t|
    ensures t[..k] <= t
  {
  }

  lemma DropDrop<T>(s: seq<T>, i: nat, k: nat)
    requires i + k <= |s|
    ensures s[i..][k..] == s[i + k..]
  {
  }

  /** Drops the separator run at the front of `s`. */
  function DropSeparators(s: string): (r: string)
    ensures |r| <= |s| && r == s[|s| - |r|..]
    ensures |r| > 0 ==> !IsSeparator(r[0])
  {
    if |s| > 0 && IsSeparator(s[0]) then DropSeparators(s[1..]) else s
  }

  /** `re.sub(r"[-\s]+", "-", v)`: every maximal run of hyphens and
      whitespace becomes one hyphen. */
  function Collapse(s: string): (r: string)
    ensures |s| > 0 ==> |r| > 0
    decreases |s|
  {
    if |s| == 0 then ""
    else if IsSeparator(s[0]) then "-" + Collapse(DropSeparators(s[1..]))
    else [s[0]] + Collapse(s[1..])
  }

  /** Collapsing starts with a hyphen exactly when the input starts with a
      separator. */
  lemma CollapseHead(s: string)
    requires |s| > 0
    ensures Collapse(s)[0] == '-' <==> IsSeparator(s[0])
  {
  }

  /** The collapsed text holds hyphens and the non-separators of the input. */
  lemma {:induction false} CollapseChars(s: string)
    ensures forall i :: 0 <= i < |Collapse(s)| ==>
      Collapse(s)[i] == '-' || (Collapse(s)[i] in s && !IsSeparator(Collapse(s)[i]))
    decreases |s|
  {
    if |s| > 0 {
      var r := Collapse(s);
      var rest := if IsSeparator(s[0]) then DropSeparators(s[1..]) else s[1..];
      var t := Collapse(rest);
      CollapseChars(rest);
      assert r == [r[0]] + t;
      assert forall c :: c in rest ==> c in s;
      forall i | 1 <= i < |r|
        ensures r[i] == '-' || (r[i] in s && !IsSeparator(r[i]))
      {
        assert r[i] == t[i - 1];
      }
    }
  }

  /** The collapsed text never holds two hyphens in a row. */
  lemma {:induction false} CollapseNoDoubleHyphen(s: string)
    ensures forall i :: 0 <= i < |Collapse(s)| - 1 ==> !(Collapse(s)[i] == '-' && Collapse(s)[i + 1] == '-')
    decreases |s|
  {
    if |s| > 0 {
      var r := Collapse(s);
      var rest := if IsSeparator(s[0]) then DropSeparators(s[1..]) else s[1..];
      var t := Collapse(rest);
      CollapseNoDoubleHyphen(rest);
      assert r == [r[0]] + t;
      if |t| > 0 && IsSeparator(s[0]) {
        CollapseHead(rest);
      }
      forall i | 0 <= i < |r| - 1
        ensures !(r[i] == '-' && r[i + 1] == '-')
      {
        if i > 0 {
          assert r[i] == t[i - 1] && r[i + 1] == t[i];
        }
      }
    }
  }

  /** The collapsed text holds hyphens and the non-separators of the input,
      keeps the word characters of the input in order, never holds two
      hyphens in a row, and starts with a hyphen exactly when the input
      starts with a separator. */
  lemma CollapseShape(s: string)
    ensures var r := Collapse(s);
      && (forall i :: 0 <= i < |r| ==> r[i] == '-' || (r[i] in s && !IsSeparator(r[i])))
      && (forall i :: 0 <= i < |r| - 1 ==> !(r[i] == '-' && r[i + 1] == '-'))
      && (|s| > 0 ==> (r[0] == '-' <==> IsSeparator(s[0])))
      && WordChars(r) == WordChars(s)
  {
    WordCharsCollapse(s);
    CollapseChars(s);
    CollapseNoDoubleHyphen(s);
    if |s| > 0 {
      CollapseHead(s);
    }
  }

  /** Collapsing text made of kept, non-upper-case characters gives a slug. */
  lemma CollapseGivesSlug(t: string)
    requires forall c :: c in t ==> IsKept(c) && !IsAsciiUpper(c)
    ensures IsSlug(Collapse(t))
  {
    CollapseShape(t);
    var r := Collapse(t);
    forall i | 0 <= i < |r|
      ensures IsSlugChar(r[i])
    {
      if r[i] != '-' {
        assert r[i] in t;
      }
    }
  }

  /** `slugify(value)` for `allow_unicode=False`: lower-case, keep
      `[\w\s-]`, strip the ends, collapse separator runs to one hyphen. */
  function Slugify(value: string): (r: string)
    ensures IsSlug(r)
  {
    var kept := RemoveDisallowed(Lower(AsciiOnly(value)));
    var stripped := Strip(kept);
    assert forall c :: c in kept ==> !IsAsciiUpper(c);
    assert forall c :: c in stripped ==> IsKept(c) && !IsAsciiUpper(c);
    CollapseGivesSlug(stripped);
    Collapse(stripped)
  }

  /** `AsciiOnly` is a filter: it works character by character, so it
      distributes over concatenation ... */
  lemma {:induction false} AsciiOnlyAppend(a: string, b: string)
    ensures AsciiOnly(a + b) == AsciiOnly(a) + AsciiOnly(b)
    decreases |a|
  {
    if |a| > 0 {
      assert (a + b)[0] == a[0];
      assert (a + b)[1..] == a[1..] + b;
      AsciiOnlyAppend(a[1..], b);
      var h := if IsAscii(a[0]) then [a[0]] else [];
      Assoc(h, AsciiOnly(a[1..]), AsciiOnly(b));
    } else {
      assert a + b == b;
    }
  }

  lemma Assoc<T>(a: seq<T>, b: seq<T>, c: seq<T>)
    ensures a + (b + c) == (a + b) + c
  {
  }

  /** ... and keeps one character exactly when it is ASCII. */
  lemma AsciiOnlyChar(c: char)
    ensures AsciiOnly([c]) == (if IsAscii(c) then [c] else [])
  {
  }

  /** `RemoveDisallowed` is a filter: it distributes over concatenation ... */
  lemma {:induction false} RemoveDisallowedAppend(a: string, b: string)
    ensures RemoveDisallowed(a + b) == RemoveDisallowed(a) + RemoveDisallowed(b)
    decreases |a|
  {
    if |a| > 0 {
      assert (a + b)[0] == a[0];
      assert (a + b)[1..] == a[1..] + b;
      RemoveDisallowedAppend(a[1..], b);
      var h := if IsKept(a[0]) then [a[0]] else [];
      Assoc(h, RemoveDisallowed(a[1..]), RemoveDisallowed(b));
    } else {
      assert a + b == b;
    }
  }

  /** ... and keeps one character exactly when `[\w\s-]` matches it. */
  lemma RemoveDisallowedChar(c: char)
    ensures RemoveDisallowed([c]) == (if IsKept(c) then [c] else [])
  {
  }

  lemma {:induction false} AsciiOnlyLength(s: string)
    ensures |AsciiOnly(s)| <= |s|
    decreases |s|
  {
    if |s| > 0 {
      AsciiOnlyLength(s[1..]);
    }
  }

  lemma {:induction false} RemoveDisallowedLength(s: string)
    ensures |RemoveDisallowed(s)| <= |s|
    decreases |s|
  {
    if |s| > 0 {
      RemoveDisallowedLength(s[1..]);
    }
  }

  lemma {:induction false} CollapseLength(s: string)
    ensures |Collapse(s)| <= |s|
    decreases |s|
  {
    if |s| > 0 {
      if IsSeparator(s[0]) {
        CollapseLength(DropSeparators(s[1..]));
      } else {
        CollapseLength(s[1..]);
      }
    }
  }

  /** Every stage of `slugify` only drops or merges characters: the slug is
      never longer than the title. */
  lemma SlugifyLength(value: string)
    ensures |Slugify(value)| <= |value|
  {
    var lowered := Lower(AsciiOnly(value));
    var kept := RemoveDisallowed(lowered);
    AsciiOnlyLength(value);
    RemoveDisallowedLength(lowered);
    CollapseLength(Strip(kept));
  }

  /** A separator run at the front collapses to one hyphen before the rest. */
  lemma CollapseRun(w: string, rest: string)
    requires |w| > 0 && forall i :: 0 <= i < |w| ==> IsSeparator(w[i])
    requires rest == [] || !IsSeparator(rest[0])
    ensures Collapse(w + rest) == "-" + Collapse(rest)
  {
    assert w == [w[0]] + w[1..];
    Assoc([w[0]], w[1..], rest);
    CollapseSeparator(w[0], w[1..] + rest);
    DropRun(w[1..], rest);
  }

  /** A separator starts a hyphen, and the rest of its run is dropped. */
  lemma CollapseSeparator(c: char, t: string)
    requires IsSeparator(c)
    ensures Collapse([c] + t) == "-" + Collapse(DropSeparators(t))
  {
    assert ([c] + t)[1..] == t;
  }

  lemma {:induction false} DropRun(w: string, rest: string)
    requires forall i :: 0 <= i < |w| ==> IsSeparator(w[i])
    requires rest == [] || !IsSeparator(rest[0])
    ensures DropSeparators(w + rest) == rest
    decreases |w|
  {
    if |w| > 0 {
      assert (w + rest)[1..] == w[1..] + rest;
      DropRun(w[1..], rest);
    } else {
      assert w + rest == rest;
    }
  }

  /** A character that is no separator is kept as it is. */
  lemma CollapseKeeps(c: char, rest: string)
    requires !IsSeparator(c)
    ensures Collapse([c] + rest) == [c] + Collapse(rest)
  {
    assert ([c] + rest)[1..] == rest;
  }

  /** Between two kept characters, a run of spaces, other whitespace or
      hyphens turns into exactly one hyphen. */
  lemma CollapseBetween(c: char, w: string, rest: string)
    requires !IsSeparator(c)
    requires |w| > 0 && forall i :: 0 <= i < |w| ==> IsSeparator(w[i])
    requires rest == [] || !IsSeparator(rest[0])
    ensures Collapse([c] + (w + rest)) == [c] + ("-" + Collapse(rest))
  {
    CollapseKeeps(c, w + rest);
    CollapseRun(w, rest);
  }

  /** The word characters of `s`, in order. */
  function WordChars(s: string): string {
    if |s| == 0 then "" else (if IsWordChar(s[0]) then [s[0]] else []) + WordChars(s[1..])
  }

  lemma {:induction false} WordCharsAppend(a: string, b: string)
    ensures WordChars(a + b) == WordChars(a) + WordChars(b)
    decreases |a|
  {
    if |a| > 0 {
      assert (a + b)[1..] == a[1..] + b;
      WordCharsAppend(a[1..], b);
    } else {
      assert a + b == b;
    }
  }

  lemma {:induction false} WordCharsRemoveDisallowed(s: string)
    ensures WordChars(RemoveDisallowed(s)) == WordChars(s)
    decreases |s|
  {
    if |s| > 0 {
      WordCharsRemoveDisallowed(s[1..]);
      var head := if IsKept(s[0]) then [s[0]] else [];
      WordCharsAppend(head, RemoveDisallowed(s[1..]));
    }
  }

  lemma {:induction false} WordCharsTrimStart(s: string)
    ensures WordChars(TrimStart(s)) == WordChars(s)
    decreases |s|
  {
    if |s| > 0 && IsWhitespace(s[0]) {
      WordCharsTrimStart(s[1..]);
    }
  }

  lemma {:induction false} WordCharsTrimEnd(s: string)
    ensures WordChars(TrimEnd(s)) == WordChars(s)
    decreases |s|
  {
    if |s| > 0 && IsWhitespace(s[|s| - 1]) {
      WordCharsTrimEnd(s[..|s| - 1]);
      WordCharsAppend(s[..|s| - 1], [s[|s| - 1]]);
      assert s[..|s| - 1] + [s[|s| - 1]] == s;
    }
  }

  lemma {:induction false} WordCharsDropSeparators(s: string)
    ensures WordChars(DropSeparators(s)) == WordChars(s)
    decreases |s|
  {
    if |s| > 0 && IsSeparator(s[0]) {
      WordCharsDropSeparators(s[1..]);
    }
  }

  lemma {:induction false} WordCharsCollapse(s: string)
    ensures WordChars(Collapse(s)) == WordChars(s)
    decreases |s|
  {
    if |s| > 0 {
      if IsSeparator(s[0]) {
        var rest := DropSeparators(s[1..]);
        WordCharsCollapse(rest);
        WordCharsDropSeparators(s[1..]);
        WordCharsAppend("-", Collapse(rest));
      } else {
        WordCharsCollapse(s[1..]);
        WordCharsAppend([s[0]], Collapse(s[1..]));
      }
    }
  }

  /** The slug keeps exactly the alphanumerics and underscores of the
      lower-cased ASCII title, in their order; everything else it holds is
      hyphens. */
  lemma SlugifyKeepsWordChars(value: string)
    ensures WordChars(Slugify(value)) == WordChars(Lower(AsciiOnly(value)))
  {
    var lowered := Lower(AsciiOnly(value));
    var kept := RemoveDisallowed(lowered);
    WordCharsRemoveDisallowed(lowered);
    WordCharsTrimStart(kept);
    WordCharsTrimEnd(TrimStart(kept));
    WordCharsCollapse(Strip(kept));
  }

  lemma {:induction false} TrimStartEmpty(s: string)
    requires TrimStart(s) == ""
    ensures forall i :: 0 <= i < |s| ==> IsWhitespace(s[i])
    ensures forall c :: c in s ==> IsWhitespace(c)
    decreases |s|
  {
    if |s| > 0 {
      TrimStartEmpty(s[1..]);
    }
  }

  lemma {:induction false} TrimEndEmpty(s: string)
    requires TrimEnd(s) == ""
    ensures forall i :: 0 <= i < |s| ==> IsWhitespace(s[i])
    decreases |s|
  {
    if |s| > 0 {
      TrimEndEmpty(s[..|s| - 1]);
    }
  }

  /** The slug is empty exactly when the ASCII part of the title has no
      alphanumeric, no underscore and no hyphen: this is when the media
      destination falls back to `slide-N-image`. */
  lemma SlugifyEmptyIff(value: string)
    ensures Slugify(value) == "" <==>
      forall c :: c in value && IsAscii(c) ==> !IsWordChar(c) && c != '-'
  {
    var ascii := AsciiOnly(value);
    var lowered := Lower(ascii);
    var kept := RemoveDisallowed(lowered);
    if Slugify(value) == "" {
      TrimStartEmpty(kept);
      forall c | c in value && IsAscii(c)
        ensures !IsWordChar(c) && c != '-'
      {
        assert c in ascii;
        var i :| 0 <= i < |ascii| && ascii[i] == c;
        assert lowered[i] == LowerChar(c);
        assert lowered[i] in lowered;
        if IsKept(lowered[i]) {
          assert lowered[i] in kept;
        }
      }
    } else {
      var stripped := Strip(kept);
      assert stripped != "";
      var c := stripped[0];
      assert c in kept && !IsWhitespace(c);
      assert c in lowered && IsKept(c);
      var i :| 0 <= i < |lowered| && lowered[i] == c;
      assert ascii[i] in value && IsAscii(ascii[i]);
      assert IsWordChar(ascii[i]) || ascii[i] == '-';
    }
  }

  lemma SlugTail(s: string)
    requires IsSlug(s) && |s| > 0
    ensures IsSlug(s[1..])
  {
    var tail := s[1..];
    assert forall i :: 0 <= i < |tail| ==> tail[i] == s[i + 1];
  }

  /** One step of `Collapse` over a slug: a hyphen stays one hyphen, since
      the next character is no separator; anything else is kept. */
  lemma CollapseSlugStep(s: string)
    requires IsSlug(s) && |s| > 0
    ensures Collapse(s) == [s[0]] + Collapse(s[1..])
  {
    if s[0] == '-' {
      if |s| > 1 {
        SlugHyphenNext(s);
      }
      DropNoSeparators(s[1..]);
    } else {
      assert IsSlugChar(s[0]);
    }
  }

  /** In a slug, a hyphen is followed by no separator. */
  lemma SlugHyphenNext(s: string)
    requires IsSlug(s) && |s| > 1 && s[0] == '-'
    ensures !IsSeparator(s[1..][0])
  {
    assert IsSlugChar(s[1]);
    assert !(s[0] == '-' && s[1] == '-');
  }

  lemma DropNoSeparators(s: string)
    requires |s| > 0 ==> !IsSeparator(s[0])
    ensures DropSeparators(s) == s
  {
  }

  lemma {:induction false} CollapseFrom(s: string)
    requires IsSlug(s)
    ensures Collapse(s) == s
    decreases |s|
  {
    if |s| > 0 {
      SlugTail(s);
      CollapseFrom(s[1..]);
      CollapseSlugStep(s);
      assert s == [s[0]] + s[1..];
    }
  }

  lemma {:induction false} RemoveDisallowedKeepsSlug(s: string)
    requires forall i :: 0 <= i < |s| ==> IsSlugChar(s[i])
    ensures RemoveDisallowed(s) == s
    decreases |s|
  {
    if |s| > 0 {
      RemoveDisallowedKeepsSlug(s[1..]);
    }
  }

  lemma {:induction false} LowerKeepsSlug(s: string)
    requires forall i :: 0 <= i < |s| ==> IsSlugChar(s[i])
    ensures Lower(s) == s
  {
    assert forall i :: 0 <= i < |s| ==> Lower(s)[i] == s[i];
  }

  lemma AsciiOnlyKeepsSlug(s: string)
    requires IsSlug(s)
    ensures AsciiOnly(s) == s
  {
    assert forall i :: 0 <= i < |s| ==> IsAscii(s[i]) by {
      forall i | 0 <= i < |s| ensures IsAscii(s[i]) {
        assert IsSlugChar(s[i]);
      }
    }
  }

  lemma StripKeepsSlug(s: string)
    requires IsSlug(s)
    ensures Strip(s) == s
  {
    if |s| > 0 {
      assert IsSlugChar(s[0]) && IsSlugChar(s[|s| - 1]);
      assert TrimStart(s) == s;
      assert TrimEnd(s) == s;
    }
  }

  /** A string that already is a slug comes back unchanged. */
  lemma SlugifyFixesSlugs(s: string)
    requires IsSlug(s)
    ensures Slugify(s) == s
  {
    AsciiOnlyKeepsSlug(s);
    LowerKeepsSlug(s);
    RemoveDisallowedKeepsSlug(s);
    StripKeepsSlug(s);
    CollapseFrom(s);
  }

  /** Slugifying twice is slugifying once. */
  lemma SlugifyIdempotent(value: string)
    ensures Slugify(Slugify(value)) == Slugify(value)
  {
    SlugifyFixesSlugs(Slugify(value));
  }

  // ---------------------------------------------------------------------
  // Separators and ends
  // ---------------------------------------------------------------------

  /** A non-empty word of slug characters other than the hyphen. */
  predicate IsSlugWord(s: string) {
    |s| > 0 && forall i :: 0 <= i < |s| ==> IsSlugChar(s[i]) && s[i] != '-'
  }

  predicate AllWhitespace(s: string) {
    forall i :: 0 <= i < |s| ==> IsWhitespace(s[i])
  }

  /** A text without separators passes `Collapse` unchanged. */
  lemma {:induction false} CollapseWord(x: string, rest: string)
    requires forall i :: 0 <= i < |x| ==> !IsSeparator(x[i])
    ensures Collapse(x + rest) == x + Collapse(rest)
    decreases |x|
  {
    if |x| > 0 {
      assert x + rest == [x[0]] + (x[1..] + rest);
      CollapseKeeps(x[0], x[1..] + rest);
      CollapseWord(x[1..], rest);
      assert [x[0]] + (x[1..] + Collapse(rest)) == x + Collapse(rest);
    } else {
      assert x + rest == rest;
    }
  }

  /** Text made of characters that `[\w\s-]` keeps and that are not upper
      case. */
  predicate IsPlain(s: string) {
    forall i :: 0 <= i < |s| ==> IsKept(s[i]) && !IsAsciiUpper(s[i])
  }

  /** Plain text passes the first three stages of `slugify` unchanged. */
  lemma PlainText(s: string)
    requires IsPlain(s)
    ensures RemoveDisallowed(Lower(AsciiOnly(s))) == s
  {
    assert forall i :: 0 <= i < |s| ==> IsAscii(s[i]);
    assert Lower(s) == s;
    RemoveDisallowedKeepsKept(s);
  }

  lemma {:induction false} RemoveDisallowedKeepsKept(s: string)
    requires forall i :: 0 <= i < |s| ==> IsKept(s[i])
    ensures RemoveDisallowed(s) == s
    decreases |s|
  {
    if |s| > 0 {
      RemoveDisallowedKeepsKept(s[1..]);
    }
  }

  /** `slugify("x" + w + "y")` is `"x-y"`: spaces, other whitespace and
      hyphens between two words become one hyphen. */
  lemma SlugifyJoinsWords(x: string, w: string, y: string)
    requires IsSlugWord(x) && IsSlugWord(y)
    requires |w| > 0 && forall i :: 0 <= i < |w| ==> IsSeparator(w[i])
    ensures Slugify(x + w + y) == x + "-" + y
  {
    SlugifyOfWords(x, w, y);
    CollapseJoin(x, w, y);
  }

  lemma SlugifyOfWords(x: string, w: string, y: string)
    requires IsSlugWord(x) && IsSlugWord(y)
    requires forall i :: 0 <= i < |w| ==> IsSeparator(w[i])
    ensures Slugify(x + w + y) == Collapse(x + w + y)
  {
    WordsPlain(x, w, y);
    StripWords(x, w, y);
    SlugifyOfPlain(x + w + y);
  }

  /** On text that the first three stages pass through and `strip` keeps,
      `slugify` is just the collapse of separator runs. */
  lemma SlugifyOfPlain(s: string)
    requires IsPlain(s)
    requires Strip(s) == s
    ensures Slugify(s) == Collapse(s)
  {
    PlainText(s);
  }

  lemma WordsPlain(x: string, w: string, y: string)
    requires IsSlugWord(x) && IsSlugWord(y)
    requires forall i :: 0 <= i < |w| ==> IsSeparator(w[i])
    ensures IsPlain(x + w + y)
  {
    var s := x + w + y;
    forall i | 0 <= i < |s|
      ensures IsKept(s[i]) && !IsAsciiUpper(s[i])
    {
      if i < |x| {
        assert s[i] == x[i];
      } else if i < |x| + |w| {
        assert s[i] == w[i - |x|];
      } else {
        assert s[i] == y[i - |x| - |w|];
      }
    }
  }

  lemma StripWords(x: string, w: string, y: string)
    requires IsSlugWord(x) && IsSlugWord(y)
    ensures Strip(x + w + y) == x + w + y
  {
    var s := x + w + y;
    assert s[0] == x[0] && IsSlugChar(x[0]);
    assert s[|s| - 1] == y[|y| - 1] && IsSlugChar(y[|y| - 1]);
    StripKeeps(s);
  }

  /** Text that neither starts nor ends with whitespace is its own strip. */
  lemma StripKeeps(s: string)
    requires |s| > 0 && !IsWhitespace(s[0]) && !IsWhitespace(s[|s| - 1])
    ensures Strip(s) == s
  {
    assert TrimStart(s) == s;
    assert TrimEnd(s) == s;
  }

  lemma CollapseJoin(x: string, w: string, y: string)
    requires IsSlugWord(x) && IsSlugWord(y)
    requires |w| > 0 && forall i :: 0 <= i < |w| ==> IsSeparator(w[i])
    ensures Collapse(x + w + y) == x + "-" + y
  {
    WordHasNoSeparator(x);
    WordHasNoSeparator(y);
    Assoc(x, w, y);
    CollapseWord(x, w + y);
    CollapseRun(w, y);
    CollapseWord(y, "");
    assert y + "" == y;
    Assoc(x, "-", y);
  }

  lemma WordHasNoSeparator(x: string)
    requires IsSlugWord(x)
    ensures forall i :: 0 <= i < |x| ==> !IsSeparator(x[i])
    ensures !IsSeparator(x[0])
  {
  }

  lemma {:induction false} TrimStartPad(w: string, t: string)
    requires AllWhitespace(w)
    ensures TrimStart(w + t) == TrimStart(t)
    decreases |w|
  {
    if |w| > 0 {
      assert (w + t)[0] == w[0];
      assert (w + t)[1..] == w[1..] + t;
      TrimStartPad(w[1..], t);
    } else {
      assert w + t == t;
    }
  }

  lemma {:induction false} TrimEndPad(t: string, w: string)
    requires AllWhitespace(w)
    ensures TrimEnd(t + w) == TrimEnd(t)
    decreases |w|
  {
    if |w| > 0 {
      var u := t + w;
      assert u[|u| - 1] == w[|w| - 1];
      assert u[..|u| - 1] == t + w[..|w| - 1];
      TrimEndPad(t, w[..|w| - 1]);
    } else {
      assert t + w == t;
    }
  }

  /** Trailing whitespace survives `TrimStart` unless everything before it
      was whitespace too. */
  lemma {:induction false} TrimStartThenPad(t: string, w: string)
    requires AllWhitespace(w)
    ensures TrimStart(t + w) == (if TrimStart(t) == "" then "" else TrimStart(t) + w)
    decreases |t|
  {
    if |t| == 0 {
      assert t + w == w + "";
      TrimStartPad(w, "");
    } else if IsWhitespace(t[0]) {
      assert (t + w)[0] == t[0];
      assert (t + w)[1..] == t[1..] + w;
      TrimStartThenPad(t[1..], w);
    } else {
      assert (t + w)[0] == t[0];
    }
  }

  /** Whitespace added at either end does not change `str.strip()`. */
  lemma StripPad(w1: string, t: string, w2: string)
    requires AllWhitespace(w1) && AllWhitespace(w2)
    ensures Strip(w1 + t + w2) == Strip(t)
  {
    assert w1 + t + w2 == w1 + (t + w2);
    TrimStartPad(w1, t + w2);
    TrimStartThenPad(t, w2);
    if TrimStart(t) != "" {
      TrimEndPad(TrimStart(t), w2);
    }
  }

  /** Whitespace is ASCII, lower case and kept: the first three stages of
      `slugify` pass it through. */
  lemma WhitespacePlain(w: string)
    requires AllWhitespace(w)
    ensures AsciiOnly(w) == w && Lower(w) == w && RemoveDisallowed(w) == w
  {
    PlainText(w);
  }

  /** `Lower` maps character by character. */
  lemma LowerAppend(a: string, b: string)
    ensures Lower(a + b) == Lower(a) + Lower(b)
  {
    assert forall i :: 0 <= i < |a + b| ==> Lower(a + b)[i] == (Lower(a) + Lower(b))[i];
  }

  /** The stages before `strip` pass whitespace around a text through. */
  lemma PadThroughFilters(w1: string, x: string, w2: string)
    requires AllWhitespace(w1) && AllWhitespace(w2)
    ensures RemoveDisallowed(Lower(AsciiOnly(w1 + x + w2)))
      == w1 + RemoveDisallowed(Lower(AsciiOnly(x))) + w2
  {
    WhitespacePlain(w1);
    WhitespacePlain(w2);
    var a := AsciiOnly(x);
    var l := Lower(a);
    AsciiOnlyAppend(w1 + x, w2);
    AsciiOnlyAppend(w1, x);
    LowerAppend(w1 + a, w2);
    LowerAppend(w1, a);
    RemoveDisallowedAppend(w1 + l, w2);
    RemoveDisallowedAppend(w1, l);
  }

  /** `slugify` strips only the whitespace at the ends: padding a title with
      whitespace on either side gives the same slug. */
  lemma SlugifyStripsEnds(w1: string, x: string, w2: string)
    requires AllWhitespace(w1) && AllWhitespace(w2)
    ensures Slugify(w1 + x + w2) == Slugify(x)
  {
    PadThroughFilters(w1, x, w2);
    StripPad(w1, RemoveDisallowed(Lower(AsciiOnly(x))), w2);
  }
}
