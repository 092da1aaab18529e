/** odp2pandoc.py, the earliest walker: outline lines without a bullet
    marker, raw media links, no slugs and no dedent. It reads the document
    exactly as the current walker does (same scopes, same title texts, same
    links); only what it writes differs. */
module Pandoc {
  import opened Strings
  import opened Dom
  import opened Scopes
  import Slides
  import Parser
  import Document
  import Walk

  /** odp2pandoc.py's `Slide`: media are the raw `xlink:href` values. */
  datatype Slide = Slide(title: string, text: string, notes: string, media: seq<string>)

  function NewSlide(): (s: Slide)
    ensures s.title == "" && s.text == "" && s.notes == "" && s.media == []
  {
    Slide("", "", "", [])
  }

  /** An outline line of this walker: the indent and the text, no marker. */
  function PlainLine(b: Slides.Bullet): string {
    Spaces(b.depth) + b.text + "\n"
  }

  function PlainLines(bs: seq<Slides.Bullet>): string {
    if |bs| == 0 then "" else PlainLine(bs[0]) + PlainLines(bs[1..])
  }

  lemma {:induction false} PlainLinesAppend(a: seq<Slides.Bullet>, b: seq<Slides.Bullet>)
    ensures PlainLines(a + b) == PlainLines(a) + PlainLines(b)
    decreases |a|
  {
    if |a| > 0 {
      assert (a + b)[1..] == a[1..] + b;
      PlainLinesAppend(a[1..], b);
    } else {
      assert a + b == b;
    }
  }

  /** The fields of odp2pandoc.py's `Parser`. */
  datatype State = State(slides: seq<Slide>, slide: Slide, text: string, depth: nat, scope: Scope)

  function NewParser(): (p: State)
    ensures p.slides == [] && p.text == "" && p.depth == 0 && p.scope == None
  {
    State([], NewSlide(), "", 0, None)
  }

  /** What `handleNode` does to one node before its children: the same scope
      rule, every link of a media holder appended as it is, and an outline
      text appended as its indent, the text and a line feed. In the images
      scope the source only prints. */
  function Step(n: Node, depth: nat, st: State): State {
    var st1 := st.(scope := UpdateScope(n, st.scope));
    var st2 := if IsMediaHolder(n) then st1.(slide := st1.slide.(media := st1.slide.media + Hrefs(n.attrs))) else st1;
    match GetText(n)
    case SomeText(t) =>
      if st2.scope == Outline then st2.(text := st2.text + Spaces(depth) + t + "\n")
      else if st2.scope == Title then st2.(slide := st2.slide.(title := st2.slide.title + t))
      else st2
    case NoText => st2
  }

  /** The body of the `for page in pages` loop of `handleDocument`. */
  function PageStep(page: Node, st: State): (r: State)
    ensures |r.slides| == |st.slides| + 1 && r.slides[..|st.slides|] == st.slides
    ensures r.text == "" && r.depth == 0
  {
    var st0 := st.(depth := 0, slide := NewSlide());
    var walked := Walk.HandleNode(Step, page, st0.depth, st0);
    RunKeeps(Visits(page, 0), st0);
    Walk.WalkIsFlatPass(Step, page, 0, st0);
    var slides := walked.slides + [walked.slide.(text := walked.text)];
    assert slides[..|st.slides|] == walked.slides;
    walked.(slides := slides, text := "")
  }

  function HandleDocument(pages: seq<Node>, st: State): (r: State)
    ensures |r.slides| == |st.slides| + |pages| && r.slides[..|st.slides|] == st.slides
    ensures |pages| > 0 ==> r.text == "" && r.depth == 0
    decreases |pages|
  {
    if |pages| == 0 then st
    else
      var r := HandleDocument(pages[1..], PageStep(pages[0], st));
      assert r.slides[..|st.slides|] == r.slides[..|st.slides| + 1][..|st.slides|];
      r
  }

  /** The pass leaves the finished slides, the depth counter and the
      slide's text and notes alone. */
  lemma {:induction false} RunKeeps(vs: seq<Visit>, st: State)
    ensures var r := Walk.Run(Step, vs, st);
      r.slides == st.slides && r.depth == st.depth && r.slide.text == st.slide.text && r.slide.notes == st.slide.notes
    decreases |vs|
  {
    if |vs| > 0 {
      RunKeeps(vs[..|vs| - 1], st);
      Walk.RunSnoc(Step, vs, st);
    }
  }

  lemma {:induction false} RunScope(vs: seq<Visit>, st: State)
    ensures Walk.Run(Step, vs, st).scope == Parser.ScopeAfter(vs, st.scope)
    decreases |vs|
  {
    if |vs| > 0 {
      RunScope(vs[..|vs| - 1], st);
      Walk.RunSnoc(Step, vs, st);
    }
  }

  lemma StepText(n: Node, depth: nat, st: State)
    ensures Step(n, depth, st).text
      == st.text + (if GetText(n).SomeText? && UpdateScope(n, st.scope) == Outline
                    then PlainLine(Slides.Bullet(depth, n.data)) else "")
  {
  }

  /** The unmarked line the last visit adds, if any. */
  function LastLine(vs: seq<Visit>, s: Scope): string
    requires |vs| > 0
  {
    var last := vs[|vs| - 1];
    if GetText(last.node).SomeText? && Parser.ScopeAfter(vs, s) == Outline
    then PlainLine(Slides.Bullet(last.depth, last.node.data)) else ""
  }

  lemma RunTextStep(vs: seq<Visit>, st: State)
    requires |vs| > 0
    ensures Walk.Run(Step, vs, st).text == Walk.Run(Step, vs[..|vs| - 1], st).text + LastLine(vs, st.scope)
  {
    var init := vs[..|vs| - 1];
    var last := vs[|vs| - 1];
    RunScope(init, st);
    Walk.RunSnoc(Step, vs, st);
    StepText(last.node, last.depth, Walk.Run(Step, init, st));
  }

  lemma PlainLinesStep(vs: seq<Visit>, s: Scope)
    requires |vs| > 0
    ensures PlainLines(Parser.OutlineBullets(vs, s)) == PlainLines(Parser.OutlineBullets(vs[..|vs| - 1], s)) + LastLine(vs, s)
  {
    var last := vs[|vs| - 1];
    var emitted := if GetText(last.node).SomeText? && Parser.ScopeAfter(vs, s) == Outline
      then [Slides.Bullet(last.depth, last.node.data)] else [];
    PlainLinesAppend(Parser.OutlineBullets(vs[..|vs| - 1], s), emitted);
    if emitted != [] {
      assert PlainLines(emitted) == PlainLine(emitted[0]) + PlainLines([]);
    }
  }

  /** The buffer gains one unmarked line per outline text: the same texts at
      the same depths as the bullets of the current walker. */
  lemma {:induction false} RunText(vs: seq<Visit>, st: State)
    ensures Walk.Run(Step, vs, st).text == st.text + PlainLines(Parser.OutlineBullets(vs, st.scope))
    decreases |vs|
  {
    if |vs| > 0 {
      var init := vs[..|vs| - 1];
      RunText(init, st);
      RunTextStep(vs, st);
      PlainLinesStep(vs, st.scope);
      var x := LastLine(vs, st.scope);
      assert st.text + PlainLines(Parser.OutlineBullets(init, st.scope)) + x
        == st.text + (PlainLines(Parser.OutlineBullets(init, st.scope)) + x);
    }
  }

  /** The title gains the same title-scope texts as the current walker's. */
  lemma {:induction false} RunTitle(vs: seq<Visit>, st: State)
    ensures Walk.Run(Step, vs, st).slide.title == st.slide.title + Parser.TitleText(vs, st.scope)
    decreases |vs|
  {
    if |vs| > 0 {
      RunTitle(vs[..|vs| - 1], st);
      RunScope(vs[..|vs| - 1], st);
      Walk.RunSnoc(Step, vs, st);
    }
  }

  /** The media list gains the raw links of the media holders, in order. */
  lemma {:induction false} RunMedia(vs: seq<Visit>, st: State)
    ensures Walk.Run(Step, vs, st).slide.media == st.slide.media + Parser.MediaHrefs(vs)
    decreases |vs|
  {
    if |vs| > 0 {
      RunMedia(vs[..|vs| - 1], st);
      Walk.RunSnoc(Step, vs, st);
    }
  }

  /** The slide a page produces and the scope it leaves for the next page. */
  lemma PageSlide(page: Node, st: State)
    ensures var r := PageStep(page, st);
      var vs := Visits(page, 0);
      var s := r.slides[|st.slides|];
      && s.title == Parser.TitleText(vs, st.scope)
      && s.text == st.text + PlainLines(Parser.OutlineBullets(vs, st.scope))
      && s.notes == ""
      && s.media == Parser.MediaHrefs(vs)
      && r.scope == Parser.ScopeAfter(vs, st.scope)
  {
    var st0 := st.(depth := 0, slide := NewSlide());
    var vs := Visits(page, 0);
    Walk.WalkIsFlatPass(Step, page, 0, st0);
    RunScope(vs, st0);
    RunKeeps(vs, st0);
    RunText(vs, st0);
    RunTitle(vs, st0);
    RunMedia(vs, st0);
  }

  /** Both walkers agree on everything they read: the scope in force, and
      for every finished slide its title and its media links. */
  predicate AgreesWith(p: State, c: Parser.ParserState) {
    && p.scope == c.scope
    && |p.slides| == |c.slides|
    && forall j :: 0 <= j < |p.slides| ==>
         p.slides[j].title == c.slides[j].title && p.slides[j].media == Parser.Sources(c.slides[j].media)
  }

  /** Run over the same pages from agreeing states, this walker and the
      current one produce slides with the same titles and the same media
      links. */
  lemma {:induction false} SameTitlesAndLinks(pages: seq<Node>, p: State, c: Parser.ParserState)
    requires AgreesWith(p, c)
    ensures AgreesWith(HandleDocument(pages, p), Document.HandleDocument(pages, c))
    decreases |pages|
  {
    if |pages| > 0 {
      var p1 := PageStep(pages[0], p);
      var c1 := Document.PageStep(pages[0], c);
      PageSlide(pages[0], p);
      Document.PageSlide(pages[0], c);
      assert AgreesWith(p1, c1) by {
        forall j | 0 <= j < |p1.slides|
          ensures p1.slides[j].title == c1.slides[j].title && p1.slides[j].media == Parser.Sources(c1.slides[j].media)
        {
          if j < |p.slides| {
            assert p1.slides[j] == p1.slides[..|p.slides|][j];
            assert c1.slides[j] == c1.slides[..|c.slides|][j];
          }
        }
      }
      SameTitlesAndLinks(pages[1..], p1, c1);
    }
  }

  // ---------------------------------------------------------------------
  // Rendering
  // ---------------------------------------------------------------------

  function ImageLines(media: seq<string>): string {
    if |media| == 0 then "" else "![](" + media[0] + ")\n" + ImageLines(media[1..])
  }

  /** odp2pandoc.py's `generateMarkdown`: the header, the buffer as it is,
      then one image line per link. */
  function GenerateMarkdown(s: Slide): string {
    "## " + s.title + "\n\n" + s.text + "\n" + ImageLines(s.media)
  }

  /** Each link taken as a media entry whose destination is the link. */
  function AsEntries(media: seq<string>): (r: seq<Slides.Media>)
    ensures |r| == |media|
    ensures forall i :: 0 <= i < |media| ==> r[i] == (media[i], media[i])
  {
    if |media| == 0 then [] else [(media[0], media[0])] + AsEntries(media[1..])
  }

  /** The image lines are the current renderer's media lines without the
      HTML passthrough. */
  lemma {:induction false} ImageLinesAsCurrent(media: seq<string>)
    ensures ImageLines(media) == Slides.MediaLines(AsEntries(media), false)
    decreases |media|
  {
    if |media| > 0 {
      ImageLinesAsCurrent(media[1..]);
      assert AsEntries(media)[1..] == AsEntries(media[1..]);
      assert "![](" + media[0] + ")\n" == "![](" + media[0] + ")" + "\n";
    }
  }

  /** The Markdown is the header and the buffer, with no dedent, followed by
      exactly one line per link, in order, each an image of that link. */
  lemma RenderedLines(s: Slide)
    requires forall i :: 0 <= i < |s.media| ==> '\n' !in s.media[i]
    ensures var out := GenerateMarkdown(s);
      var head := "## " + s.title + "\n\n" + s.text + "\n";
      var lines := SplitLines(out[|head|..]);
      && head <= out
      && |lines| == |s.media| + 1
      && lines[|s.media|] == ""
      && forall i :: 0 <= i < |s.media| ==> Slides.ParseEmbed(lines[i]) == Slides.Image(s.media[i])
  {
    var head := "## " + s.title + "\n\n" + s.text + "\n";
    var entries := AsEntries(s.media);
    ImageLinesAsCurrent(s.media);
    assert GenerateMarkdown(s)[|head|..] == ImageLines(s.media);
    assert Slides.SingleLineDests(entries);
    Slides.MediaLinesRead(entries, false);
  }
}
