/** `Slide` (src/odp2md/slide.py): what the walker collects for one page,
    and its Markdown rendering. */
module Slides {
  import opened Strings
  import opened Textwrap

  /** A media entry: the path inside the archive and the destination path. */
  type Media = (string, string)

  datatype Slide = Slide(title: string, text: string, notes: string, media: seq<Media>)

  /** `Slide()`: everything empty. */
  function NewSlide(): (s: Slide)
    ensures s.title == "" && s.text == "" && s.notes == "" && s.media == []
  {
    Slide("", "", "", [])
  }

  /** One line of the outline buffer, `" " * depth + "- " + t + "\n"`. */
  datatype Bullet = Bullet(depth: nat, text: string)

  function BulletBody(b: Bullet): string {
    Spaces(b.depth) + "- " + b.text
  }

  function BulletLine(b: Bullet): string {
    BulletBody(b) + "\n"
  }

  /** The outline buffer made of the given lines, in order. */
  function Bullets(bs: seq<Bullet>): string {
    if |bs| == 0 then "" else BulletLine(bs[0]) + Bullets(bs[1..])
  }

  lemma {:induction false} BulletsAppend(a: seq<Bullet>, b: seq<Bullet>)
    ensures Bullets(a + b) == Bullets(a) + Bullets(b)
    decreases |a|
  {
    if |a| > 0 {
      assert (a + b)[1..] == a[1..] + b;
      BulletsAppend(a[1..], b);
    } else {
      assert a + b == b;
    }
  }

  function MinDepth(bs: seq<Bullet>): (m: nat)
    ensures forall i :: 0 <= i < |bs| ==> m <= bs[i].depth
    ensures |bs| > 0 ==> exists i :: 0 <= i < |bs| && bs[i].depth == m
  {
    if |bs| == 0 then 0
    else if |bs| == 1 then bs[0].depth
    else
      var m := MinDepth(bs[1..]);
      assert exists i :: 0 <= i < |bs[1..]| && bs[1..][i].depth == m;
      if bs[0].depth <= m then bs[0].depth else m
  }

  /** The same lines, each `k` levels shallower. */
  function Shift(bs: seq<Bullet>, k: nat): (r: seq<Bullet>)
    requires forall i :: 0 <= i < |bs| ==> k <= bs[i].depth
    ensures |r| == |bs|
    ensures forall i :: 0 <= i < |bs| ==> r[i] == Bullet(bs[i].depth - k, bs[i].text)
  {
    if |bs| == 0 then [] else [Bullet(bs[0].depth - k, bs[0].text)] + Shift(bs[1..], k)
  }

  function Bodies(bs: seq<Bullet>): (r: seq<string>)
    ensures |r| == |bs|
    ensures forall i :: 0 <= i < |bs| ==> r[i] == BulletBody(bs[i])
  {
    if |bs| == 0 then [] else [BulletBody(bs[0])] + Bodies(bs[1..])
  }

  predicate SingleLine(bs: seq<Bullet>) {
    forall i :: 0 <= i < |bs| ==> '\n' !in bs[i].text
  }

  lemma {:induction false} SplitBullets(bs: seq<Bullet>)
    requires SingleLine(bs)
    ensures SplitLines(Bullets(bs)) == Bodies(bs) + [""]
    decreases |bs|
  {
    if |bs| > 0 {
      var body := BulletBody(bs[0]);
      var rest := Bullets(bs[1..]);
      assert '\n' !in body by {
        assert forall i :: 0 <= i < |body| ==> body[i] == ' ' || body[i] == '-' || body[i] in bs[0].text;
      }
      SplitBullets(bs[1..]);
      assert Bullets(bs) == body + "\n" + rest;
      SplitLinesCons(body, rest);
      assert Bodies(bs) == [body] + Bodies(bs[1..]);
      assert Bodies(bs) + [""] == [body] + (Bodies(bs[1..]) + [""]);
    } else {
      assert SplitLines("") == [""];
    }
  }

  lemma {:induction false} JoinBodies(bs: seq<Bullet>)
    ensures JoinLines(Bodies(bs) + [""]) == Bullets(bs)
    decreases |bs|
  {
    if |bs| > 0 {
      JoinBodies(bs[1..]);
      assert (Bodies(bs) + [""])[1..] == Bodies(bs[1..]) + [""];
    }
  }

  lemma SpacesSplit(a: nat, b: nat)
    requires a <= b
    ensures Spaces(b) == Spaces(a) + Spaces(b - a)
  {
  }

  /** The indent of a bullet line is its depth in blanks. */
  lemma BodyIndent(b: Bullet)
    ensures !IsBlank(BulletBody(b))
    ensures Indent(BulletBody(b)) == Spaces(b.depth)
  {
    var body := BulletBody(b);
    assert body[b.depth] == '-';
    IndentOfSplit(Spaces(b.depth), body);
  }

  lemma {:induction false} BodiesIndents(bs: seq<Bullet>)
    ensures Normalized(Bodies(bs) + [""])
    ensures BlankAll(Bodies(bs) + [""]) == Bodies(bs) + [""]
    ensures |Indents(Bodies(bs) + [""])| == |bs|
    ensures forall i :: 0 <= i < |bs| ==> Indents(Bodies(bs) + [""])[i] == Spaces(bs[i].depth)
    decreases |bs|
  {
    var ls := Bodies(bs) + [""];
    if |bs| > 0 {
      BodyIndent(bs[0]);
      BodiesIndents(bs[1..]);
      assert ls[1..] == Bodies(bs[1..]) + [""];
    } else {
      assert IsBlank("");
    }
    forall i | 0 <= i < |ls| ensures ls[i] == "" || !IsBlank(ls[i]) {
      if i < |bs| {
        BodyIndent(bs[i]);
      }
    }
  }

  /** A bullet line `k` levels deep or more starts with `k` blanks. */
  lemma BodySplit(b: Bullet, k: nat)
    requires k <= b.depth
    ensures BulletBody(b) == Spaces(k) + BulletBody(Bullet(b.depth - k, b.text))
  {
    SpacesSplit(k, b.depth);
    assert (Spaces(k) + Spaces(b.depth - k)) + ("- " + b.text)
      == Spaces(k) + (Spaces(b.depth - k) + ("- " + b.text));
  }

  /** Cutting `k` blanks off a bullet line leaves it `k` levels shallower. */
  lemma RemoveBody(b: Bullet, k: nat)
    requires k <= b.depth
    ensures RemoveMargin(Spaces(k), BulletBody(b)) == BulletBody(Bullet(b.depth - k, b.text))
  {
    BodySplit(b, k);
    RemoveMarginOf(Spaces(k), BulletBody(Bullet(b.depth - k, b.text)));
  }

  lemma RemoveBodies(bs: seq<Bullet>, k: nat)
    requires forall i :: 0 <= i < |bs| ==> k <= bs[i].depth
    ensures RemoveMarginAll(Spaces(k), Bodies(bs) + [""]) == Bodies(Shift(bs, k)) + [""]
  {
    var ls := Bodies(bs) + [""];
    var out := RemoveMarginAll(Spaces(k), ls);
    var want := Bodies(Shift(bs, k)) + [""];
    forall i | 0 <= i < |ls|
      ensures out[i] == want[i]
    {
      if i < |bs| {
        RemoveBody(bs[i], k);
        assert ls[i] == BulletBody(bs[i]);
        assert want[i] == BulletBody(Shift(bs, k)[i]);
      } else {
        assert ls[i] == "" && want[i] == "";
      }
    }
  }

  /** Dedenting the outline buffer takes the smallest depth off every line
      and keeps the relative nesting and the texts. */
  lemma DedentBullets(bs: seq<Bullet>)
    requires SingleLine(bs)
    ensures Dedent(Bullets(bs)) == Bullets(Shift(bs, MinDepth(bs)))
  {
    var m := MinDepth(bs);
    var ls := Bodies(bs) + [""];
    SplitBullets(bs);
    BodiesIndents(bs);
    var ins := Indents(ls);
    if |bs| > 0 {
      assert IsCommonPrefix(Spaces(m), ins) by {
        forall i | 0 <= i < |ins| ensures Spaces(m) <= ins[i] {
          SpacesSplit(m, bs[i].depth);
        }
      }
      var j :| 0 <= j < |bs| && bs[j].depth == m;
      forall q | IsCommonPrefix(q, ins) ensures q <= Spaces(m) {
        assert q <= ins[j];
      }
      MarginUnique(ins, Spaces(m));
    } else {
      assert ins == [];
    }
    RemoveBodies(bs, m);
    JoinBodies(Shift(bs, m));
  }

  /** Pandoc's raw-HTML passthrough is used for these destinations. */
  predicate IsVideo(v: string) {
    Contains(v, ".mp4") || Contains(v, ".mkv")
  }

  /** The embed for one media destination, without its line feed. */
  function MediaEmbed(v: string, blockToHTML: bool): string {
    if blockToHTML && IsVideo(v) then "`![](" + v + ")`{=html}" else "![](" + v + ")"
  }

  /** One line per media entry, in list order; only the destination is used. */
  function MediaLines(media: seq<Media>, blockToHTML: bool): string {
    if |media| == 0 then ""
    else MediaEmbed(media[0].1, blockToHTML) + "\n" + MediaLines(media[1..], blockToHTML)
  }

  /** `Slide.generateMarkdown(blockToHTML)`: the slide with its text
      dedented (the source overwrites `self.text`), and the Markdown. */
  function GenerateMarkdown(s: Slide, blockToHTML: bool): (r: (Slide, string))
    ensures r.0 == s.(text := Dedent(s.text))
  {
    var text := Dedent(s.text);
    (s.(text := text), "## " + s.title + "\n\n" + text + "\n" + MediaLines(s.media, blockToHTML))
  }

  /** The header and the dedented text that open the Markdown of `s`. */
  function Head(s: Slide): string {
    "## " + s.title + "\n\n" + Dedent(s.text) + "\n"
  }

  /** `str(slide)`: `generateMarkdown` with its default `blockToHTML=True`,
      so every video destination comes out as raw HTML and every other one
      as an image. */
  function ToString(s: Slide): (r: (Slide, string))
    ensures r.0 == s.(text := Dedent(s.text))
    ensures Head(s) <= r.1
    ensures SingleLineDests(s.media) ==>
      && |SplitLines(r.1[|Head(s)|..])| == |s.media| + 1
      && forall i :: 0 <= i < |s.media| ==>
           ParseEmbed(SplitLines(r.1[|Head(s)|..])[i])
             == (if IsVideo(s.media[i].1) then RawHtml(s.media[i].1) else Image(s.media[i].1))
  {
    GenerateMarkdownShape(s, true);
    if SingleLineDests(s.media) then
      RenderedMediaLines(s, true);
      GenerateMarkdown(s, true)
    else
      GenerateMarkdown(s, true)
  }

  /** Rendering twice gives the same Markdown and leaves the slide as the
      first call left it. */
  lemma GenerateMarkdownTwice(s: Slide, blockToHTML: bool)
    ensures var (s1, out1) := GenerateMarkdown(s, blockToHTML);
      GenerateMarkdown(s1, blockToHTML) == (s1, out1)
  {
    DedentIdempotent(s.text);
  }

  /** The Markdown starts with the header and the dedented text, and the
      rest is made of the media lines. */
  lemma GenerateMarkdownShape(s: Slide, blockToHTML: bool)
    ensures var out := GenerateMarkdown(s, blockToHTML).1;
      var head := "## " + s.title + "\n\n" + Dedent(s.text) + "\n";
      head <= out && out[|head|..] == MediaLines(s.media, blockToHTML)
  {
  }

  /** What a rendered media line says. */
  datatype Embed = Image(dest: string) | RawHtml(dest: string) | NotAnEmbed

  const ImageOpen := "![]("
  const ImageClose := ")"
  const HtmlOpen := "`![]("
  const HtmlClose := ")`{=html}"

  predicate Wraps(line: string, open: string, close: string) {
    |line| >= |open| + |close| && line[..|open|] == open && line[|line| - |close|..] == close
  }

  /** Reads a rendered media line back. */
  function ParseEmbed(line: string): Embed {
    if Wraps(line, HtmlOpen, HtmlClose) then RawHtml(line[|HtmlOpen|..|line| - |HtmlClose|])
    else if Wraps(line, ImageOpen, ImageClose) then Image(line[|ImageOpen|..|line| - |ImageClose|])
    else NotAnEmbed
  }

  /** The embed a media line should carry: raw HTML exactly for a video when
      HTML blocks are requested, a plain image otherwise. */
  function ExpectedEmbed(v: string, blockToHTML: bool): Embed {
    if blockToHTML && IsVideo(v) then RawHtml(v) else Image(v)
  }

  lemma ParseMediaEmbed(v: string, blockToHTML: bool)
    ensures ParseEmbed(MediaEmbed(v, blockToHTML)) == ExpectedEmbed(v, blockToHTML)
  {
    var line := MediaEmbed(v, blockToHTML);
    if blockToHTML && IsVideo(v) {
      assert line == HtmlOpen + v + HtmlClose;
      assert line[..|HtmlOpen|] == HtmlOpen;
      assert line[|line| - |HtmlClose|..] == HtmlClose;
      assert line[|HtmlOpen|..|line| - |HtmlClose|] == v;
    } else {
      assert line == ImageOpen + v + ImageClose;
      assert line[0] == '!';
      assert !Wraps(line, HtmlOpen, HtmlClose);
      assert line[..|ImageOpen|] == ImageOpen;
      assert line[|line| - |ImageClose|..] == ImageClose;
      assert line[|ImageOpen|..|line| - |ImageClose|] == v;
    }
  }

  predicate SingleLineDests(media: seq<Media>) {
    forall i :: 0 <= i < |media| ==> '\n' !in media[i].1
  }

  lemma MediaEmbedSingleLine(v: string, blockToHTML: bool)
    requires '\n' !in v
    ensures '\n' !in MediaEmbed(v, blockToHTML)
  {
    if blockToHTML && IsVideo(v) {
      assert MediaEmbed(v, blockToHTML) == HtmlOpen + v + HtmlClose;
    } else {
      assert MediaEmbed(v, blockToHTML) == ImageOpen + v + ImageClose;
    }
  }

  /** The media lines split into one line per entry, each reading back as
      the embed its destination calls for, and nothing after the last. */
  lemma {:induction false} MediaLinesRead(media: seq<Media>, blockToHTML: bool)
    requires SingleLineDests(media)
    ensures var lines := SplitLines(MediaLines(media, blockToHTML));
      && |lines| == |media| + 1
      && lines[|media|] == ""
      && forall i :: 0 <= i < |media| ==> ParseEmbed(lines[i]) == ExpectedEmbed(media[i].1, blockToHTML)
    decreases |media|
  {
    if |media| > 0 {
      var embed := MediaEmbed(media[0].1, blockToHTML);
      var rest := MediaLines(media[1..], blockToHTML);
      MediaEmbedSingleLine(media[0].1, blockToHTML);
      MediaLinesRead(media[1..], blockToHTML);
      SplitLinesCons(embed, rest);
      ParseMediaEmbed(media[0].1, blockToHTML);
      var lines := SplitLines(MediaLines(media, blockToHTML));
      assert lines == [embed] + SplitLines(rest);
      forall i | 1 <= i < |media|
        ensures ParseEmbed(lines[i]) == ExpectedEmbed(media[i].1, blockToHTML)
      {
        assert lines[i] == SplitLines(rest)[i - 1];
        assert media[1..][i - 1] == media[i];
      }
    }
  }

  /** After the header and the text, the Markdown holds exactly one line per
      media entry, in list order, each naming only that entry's destination:
      raw HTML for a video when HTML blocks are requested, an image otherwise. */
  lemma RenderedMediaLines(s: Slide, blockToHTML: bool)
    requires SingleLineDests(s.media)
    ensures var out := GenerateMarkdown(s, blockToHTML).1;
      var head := "## " + s.title + "\n\n" + Dedent(s.text) + "\n";
      var lines := SplitLines(out[|head|..]);
      && head <= out
      && |lines| == |s.media| + 1
      && lines[|s.media|] == ""
      && forall i :: 0 <= i < |s.media| ==> ParseEmbed(lines[i]) == ExpectedEmbed(s.media[i].1, blockToHTML)
  {
    GenerateMarkdownShape(s, blockToHTML);
    MediaLinesRead(s.media, blockToHTML);
  }
}
