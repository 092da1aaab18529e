/** `textwrap.dedent`, which `Slide.generateMarkdown` applies to the outline
    text: lines made only of blanks and tabs become empty, the longest
    common leading run of blanks and tabs of the other lines (the margin) is
    found, and it is removed from the start of every line. */
module Textwrap {
  import opened Strings

  predicate IsIndentChar(c: char) {
    c == ' ' || c == '\t'
  }

  /** A line made only of blanks and tabs (possibly none). */
  predicate IsBlank(line: string) {
    forall i :: 0 <= i < |line| ==> IsIndentChar(line[i])
  }

  /** `re.sub('^[ \t]+$', '', ...)` on one line. */
  function Blank(line: string): (r: string)
    ensures IsBlank(line) ==> r == ""
    ensures !IsBlank(line) ==> r == line
  {
    if IsBlank(line) then "" else line
  }

  /** The leading run of blanks and tabs of a line. */
  function Indent(line: string): (r: string)
    ensures r <= line
    ensures forall i :: 0 <= i < |r| ==> IsIndentChar(r[i])
    ensures |r| < |line| ==> !IsIndentChar(line[|r|])
    ensures !IsBlank(line) ==> |r| < |line|
  {
    if |line| > 0 && IsIndentChar(line[0]) then
      var rest := Indent(line[1..]);
      assert !IsBlank(line) ==> !IsBlank(line[1..]) by {
        if !IsBlank(line) {
          var i :| 0 <= i < |line| && !IsIndentChar(line[i]);
          assert line[1..][i - 1] == line[i];
        }
      }
      [line[0]] + rest
    else
      ""
  }

  /** The indents the source's `_leading_whitespace_re.findall` collects:
      one per line holding something other than blanks and tabs. */
  function Indents(lines: seq<string>): seq<string> {
    if |lines| == 0 then []
    else (if IsBlank(lines[0]) then [] else [Indent(lines[0])]) + Indents(lines[1..])
  }

  /** The longest common prefix of two strings. */
  function CommonPrefix(a: string, b: string): (r: string)
    ensures r <= a && r <= b
    ensures |r| < |a| && |r| < |b| ==> a[|r|] != b[|r|]
  {
    if |a| > 0 && |b| > 0 && a[0] == b[0] then [a[0]] + CommonPrefix(a[1..], b[1..]) else ""
  }

  /** One round of the margin loop in `textwrap.dedent`: keep the margin if
      the indent extends it, take the indent if the margin extends it, and
      otherwise cut the margin at the first difference. */
  function MarginStep(margin: string, indent: string): (r: string)
    ensures r <= margin && r <= indent
    ensures |r| < |margin| && |r| < |indent| ==> margin[|r|] != indent[|r|]
  {
    if margin <= indent then margin
    else if indent <= margin then indent
    else CommonPrefix(margin, indent)
  }

  /** A prefix of two strings is a prefix of any common prefix that ends
      where they first differ. */
  lemma CommonPrefixBound(q: string, a: string, b: string, r: string)
    requires r <= a && r <= b
    requires |r| < |a| && |r| < |b| ==> a[|r|] != b[|r|]
    requires q <= a && q <= b
    ensures q <= r
  {
  }

  function FoldMargin(margin: string, indents: seq<string>): string
    decreases |indents|
  {
    if |indents| == 0 then margin else FoldMargin(MarginStep(margin, indents[0]), indents[1..])
  }

  /** The margin; the empty string when there is no indent at all (the
      source's `None`, for which it also leaves the text alone). */
  function Margin(indents: seq<string>): string {
    if |indents| == 0 then "" else FoldMargin(indents[0], indents[1..])
  }

  predicate IsCommonPrefix(p: string, xs: seq<string>) {
    forall i :: 0 <= i < |xs| ==> p <= xs[i]
  }

  lemma {:induction false} FoldMarginIsLongest(m: string, xs: seq<string>)
    ensures FoldMargin(m, xs) <= m
    ensures IsCommonPrefix(FoldMargin(m, xs), xs)
    ensures forall q :: q <= m && IsCommonPrefix(q, xs) ==> q <= FoldMargin(m, xs)
    decreases |xs|
  {
    if |xs| > 0 {
      var m' := MarginStep(m, xs[0]);
      FoldMarginIsLongest(m', xs[1..]);
      forall q | q <= m && IsCommonPrefix(q, xs)
        ensures q <= FoldMargin(m, xs)
      {
        assert q <= xs[0];
        CommonPrefixBound(q, m, xs[0], m');
        assert IsCommonPrefix(q, xs[1..]) by {
          forall i | 0 <= i < |xs[1..]| ensures q <= xs[1..][i] {
            assert xs[1..][i] == xs[i + 1];
          }
        }
      }
      forall i | 0 <= i < |xs|
        ensures FoldMargin(m, xs) <= xs[i]
      {
        if i > 0 {
          assert xs[1..][i - 1] == xs[i];
        }
      }
    }
  }

  /** The margin is the longest common prefix of the indents. */
  lemma MarginIsLongestCommonPrefix(xs: seq<string>)
    requires |xs| > 0
    ensures IsCommonPrefix(Margin(xs), xs)
    ensures forall q :: IsCommonPrefix(q, xs) ==> q <= Margin(xs)
  {
    FoldMarginIsLongest(xs[0], xs[1..]);
    forall q | IsCommonPrefix(q, xs)
      ensures q <= Margin(xs)
    {
      assert q <= xs[0];
      assert IsCommonPrefix(q, xs[1..]) by {
        forall i | 0 <= i < |xs[1..]| ensures q <= xs[1..][i] {
          assert xs[1..][i] == xs[i + 1];
        }
      }
    }
    forall i | 0 <= i < |xs|
      ensures Margin(xs) <= xs[i]
    {
      if i > 0 {
        assert xs[1..][i - 1] == xs[i];
      }
    }
  }

  /** A common prefix that every common prefix extends is the margin. */
  lemma MarginUnique(xs: seq<string>, p: string)
    requires |xs| > 0
    requires IsCommonPrefix(p, xs)
    requires forall q :: IsCommonPrefix(q, xs) ==> q <= p
    ensures Margin(xs) == p
  {
    MarginIsLongestCommonPrefix(xs);
    assert Margin(xs) <= p && p <= Margin(xs);
  }

  /** `re.sub('(?m)^' + margin, '', ...)` on one line. */
  function RemoveMargin(margin: string, line: string): (r: string)
    ensures margin <= line ==> margin + r == line
    ensures !(margin <= line) ==> r == line
  {
    if margin <= line then line[|margin|..] else line
  }

  /** The margin comes off a line that starts with it. */
  lemma RemoveMarginOf(margin: string, rest: string)
    ensures RemoveMargin(margin, margin + rest) == rest
  {
    assert (margin + rest)[..|margin|] == margin;
    assert (margin + rest)[|margin|..] == rest;
  }

  function BlankAll(lines: seq<string>): (r: seq<string>)
    ensures |r| == |lines|
    ensures forall i :: 0 <= i < |r| ==> r[i] == Blank(lines[i])
  {
    if |lines| == 0 then [] else [Blank(lines[0])] + BlankAll(lines[1..])
  }

  function RemoveMarginAll(margin: string, lines: seq<string>): (r: seq<string>)
    ensures |r| == |lines|
    ensures forall i :: 0 <= i < |r| ==> r[i] == RemoveMargin(margin, lines[i])
  {
    if |lines| == 0 then [] else [RemoveMargin(margin, lines[0])] + RemoveMarginAll(margin, lines[1..])
  }

  function DedentLines(lines: seq<string>): (r: seq<string>)
    ensures |r| == |lines|
  {
    var blanked := BlankAll(lines);
    RemoveMarginAll(Margin(Indents(blanked)), blanked)
  }

  /** `textwrap.dedent(text)`. */
  function Dedent(text: string): string {
    JoinLines(DedentLines(SplitLines(text)))
  }

  /** Each line of a blanked list is empty or holds more than blanks. */
  predicate Normalized(lines: seq<string>) {
    forall i :: 0 <= i < |lines| ==> lines[i] == "" || !IsBlank(lines[i])
  }

  /** Each non-blank line's indent starts with the margin. */
  predicate MarginFits(margin: string, lines: seq<string>) {
    forall i :: 0 <= i < |lines| && !IsBlank(lines[i]) ==> margin <= Indent(lines[i])
  }

  lemma {:induction false} IndentsMember(lines: seq<string>, i: nat)
    requires i < |lines| && !IsBlank(lines[i])
    ensures Indent(lines[i]) in Indents(lines)
    decreases |lines|
  {
    if i > 0 {
      assert lines[1..][i - 1] == lines[i];
      IndentsMember(lines[1..], i - 1);
    }
  }

  /** A common prefix of the indents fits every non-blank line. */
  lemma CommonPrefixFits(margin: string, lines: seq<string>)
    requires IsCommonPrefix(margin, Indents(lines))
    ensures MarginFits(margin, lines)
  {
    forall i | 0 <= i < |lines| && !IsBlank(lines[i])
      ensures margin <= Indent(lines[i])
    {
      IndentsMember(lines, i);
    }
  }

  /** A line that starts with a run of indent characters followed by a
      content character has that run as its indent. */
  lemma {:induction false} IndentOfSplit(ind: string, line: string)
    requires ind <= line && |ind| < |line| && !IsIndentChar(line[|ind|])
    requires forall i :: 0 <= i < |ind| ==> IsIndentChar(ind[i])
    ensures Indent(line) == ind
    decreases |ind|
  {
    if |ind| > 0 {
      IndentOfSplit(ind[1..], line[1..]);
    }
  }

  /** After the margin is cut, a non-blank line keeps its content and its
      indent loses exactly the margin. */
  lemma RemoveMarginIndent(margin: string, line: string)
    requires !IsBlank(line) && margin <= Indent(line)
    ensures !IsBlank(RemoveMargin(margin, line))
    ensures Indent(line) == margin + Indent(RemoveMargin(margin, line))
  {
    var ind := Indent(line);
    var r := RemoveMargin(margin, line);
    assert margin <= line;
    assert r == line[|margin|..];
    assert !IsIndentChar(r[|ind| - |margin|]);
    IndentOfSplit(ind[|margin|..], r);
    assert ind == margin + ind[|margin|..];
  }

  /** Each item of `ins` is `m` followed by the item of `outs` at the same
      position. */
  predicate Prefixed(m: string, ins: seq<string>, outs: seq<string>) {
    |ins| == |outs| && forall k :: 0 <= k < |ins| ==> ins[k] == m + outs[k]
  }

  /** Cutting a fitting margin keeps the lines normalized, and each indent
      afterwards is the old one without the margin. */
  lemma IndentsAfterRemove(margin: string, lines: seq<string>)
    requires Normalized(lines) && MarginFits(margin, lines)
    ensures Normalized(RemoveMarginAll(margin, lines))
    ensures |Indents(RemoveMarginAll(margin, lines))| == |Indents(lines)|
    ensures forall k :: 0 <= k < |Indents(lines)| ==>
      Indents(lines)[k] == margin + Indents(RemoveMarginAll(margin, lines))[k]
  {
    IndentsShift(margin, lines);
  }

  /** `IndentsAfterRemove` by induction on the lines, with the pairing of
      the indents kept behind `Prefixed`. */
  lemma {:induction false} IndentsShift(margin: string, lines: seq<string>)
    requires Normalized(lines) && MarginFits(margin, lines)
    ensures Normalized(RemoveMarginAll(margin, lines))
    ensures Prefixed(margin, Indents(lines), Indents(RemoveMarginAll(margin, lines)))
    decreases |lines|
  {
    var out := RemoveMarginAll(margin, lines);
    if |lines| > 0 {
      var rest := out[1..];
      assert rest == RemoveMarginAll(margin, lines[1..]);
      IndentsShift(margin, lines[1..]);
      var head := if IsBlank(lines[0]) then [] else [Indent(lines[0])];
      var head' := if IsBlank(out[0]) then [] else [Indent(out[0])];
      if IsBlank(lines[0]) {
        assert lines[0] == "";
        assert out[0] == "";
      } else {
        RemoveMarginIndent(margin, lines[0]);
      }
      assert Prefixed(margin, head, head');
      assert Indents(lines) == head + Indents(lines[1..]);
      assert Indents(out) == head' + Indents(rest);
      PrefixedAppend(margin, head, Indents(lines[1..]), head', Indents(rest));
    }
  }

  /** Lists that pair up under `Prefixed` still pair up once both are
      extended by such lists. */
  lemma PrefixedAppend(m: string, xs: seq<string>, ys: seq<string>, xs': seq<string>, ys': seq<string>)
    requires Prefixed(m, xs, xs') && Prefixed(m, ys, ys')
    ensures Prefixed(m, xs + ys, xs' + ys')
  {
    forall k | 0 <= k < |xs + ys|
      ensures (xs + ys)[k] == m + (xs' + ys')[k]
    {
      if k >= |xs| {
        assert (xs + ys)[k] == ys[k - |xs|];
      }
    }
  }

  lemma {:induction false} BlankAllNormalized(lines: seq<string>)
    requires Normalized(lines)
    ensures BlankAll(lines) == lines
  {
  }

  lemma {:induction false} RemoveNoMargin(lines: seq<string>)
    ensures RemoveMarginAll("", lines) == lines
  {
    assert forall i :: 0 <= i < |lines| ==> RemoveMargin("", lines[i]) == lines[i];
  }

  /** Prefixing every string of a list with `m` prefixes its common prefixes. */
  lemma ShiftCommonPrefix(m: string, q: string, ins: seq<string>, outs: seq<string>)
    requires |ins| == |outs|
    requires forall k :: 0 <= k < |ins| ==> ins[k] == m + outs[k]
    requires IsCommonPrefix(q, outs)
    ensures IsCommonPrefix(m + q, ins)
  {
    forall k | 0 <= k < |ins|
      ensures m + q <= ins[k]
    {
      assert q <= outs[k];
      assert (m + outs[k])[..|m + q|] == m + q;
    }
  }

  /** Once the margin is cut, the remaining indents share no prefix. */
  lemma MarginAfterRemove(margin: string, lines: seq<string>)
    requires Normalized(lines) && margin == Margin(Indents(lines))
    ensures Margin(Indents(RemoveMarginAll(margin, lines))) == ""
  {
    var ins := Indents(lines);
    if |ins| > 0 {
      MarginIsLongestCommonPrefix(ins);
      CommonPrefixFits(margin, lines);
      IndentsAfterRemove(margin, lines);
      var outs := Indents(RemoveMarginAll(margin, lines));
      forall q | IsCommonPrefix(q, outs)
        ensures q <= ""
      {
        ShiftCommonPrefix(margin, q, ins, outs);
        assert margin + q <= margin;
      }
      MarginUnique(outs, "");
    } else {
      IndentsAfterRemove(margin, lines);
    }
  }

  lemma {:induction false} DedentLinesNoLineFeeds(lines: seq<string>)
    requires NoLineFeeds(lines)
    ensures NoLineFeeds(DedentLines(lines))
  {
    var blanked := BlankAll(lines);
    var margin := Margin(Indents(blanked));
    var out := RemoveMarginAll(margin, blanked);
    forall i | 0 <= i < |out|
      ensures '\n' !in out[i]
    {
      assert '\n' !in blanked[i];
      if margin <= blanked[i] {
        assert out[i] == blanked[i][|margin|..];
      }
    }
  }

  /** Dedenting dedented lines changes nothing. */
  lemma DedentLinesIdempotent(lines: seq<string>)
    ensures DedentLines(DedentLines(lines)) == DedentLines(lines)
  {
    var blanked := BlankAll(lines);
    var margin := Margin(Indents(blanked));
    var out := RemoveMarginAll(margin, blanked);
    assert Normalized(blanked);
    if |Indents(blanked)| > 0 {
      MarginIsLongestCommonPrefix(Indents(blanked));
    }
    CommonPrefixFits(margin, blanked);
    IndentsAfterRemove(margin, blanked);
    BlankAllNormalized(out);
    MarginAfterRemove(margin, blanked);
    RemoveNoMargin(out);
  }

  /** `dedent(dedent(t)) == dedent(t)`: the margin is gone after one pass. */
  lemma DedentIdempotent(text: string)
    ensures Dedent(Dedent(text)) == Dedent(text)
  {
    var out := DedentLines(SplitLines(text));
    DedentLinesNoLineFeeds(SplitLines(text));
    SplitJoinLines(out);
    DedentLinesIdempotent(SplitLines(text));
  }
}
