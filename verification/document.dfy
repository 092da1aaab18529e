/** `Parser.handleDocument` (src/odp2md/parser.py): one slide per
    `draw:page`, each walked from depth 0 with a fresh slide, its outline
    buffer stored as the slide's text and then cleared. */
module Document {
  import opened Strings
  import opened Dom
  import opened Scopes
  import opened Slides
  import opened Parser
  import Slugs
  import Paths

  /** The body of the `for page in pages` loop. */
  function PageStep(page: Node, st: ParserState): (r: ParserState)
    ensures |r.slides| == |st.slides| + 1 && r.slides[..|st.slides|] == st.slides
    ensures r.text == "" && r.depth == 0 && r.mediaDir == st.mediaDir
  {
    var walked := HandleNode(page, st.(depth := 0, slide := NewSlide()));
    WalkExtends(page, st.(depth := 0, slide := NewSlide()));
    var finished := walked.slide.(text := walked.text);
    assert (walked.slides + [finished])[..|st.slides|] == st.slides;
    walked.(slides := walked.slides + [finished], text := "")
  }

  /** `handleDocument` over the pages `getElementsByTagName` returned. */
  function HandleDocument(pages: seq<Node>, st: ParserState): (r: ParserState)
    ensures |r.slides| == |st.slides| + |pages| && r.slides[..|st.slides|] == st.slides
    ensures r.mediaDir == st.mediaDir
    ensures |pages| > 0 ==> r.text == "" && r.depth == 0
    ensures |pages| == 0 ==> r == st
    decreases |pages|
  {
    if |pages| == 0 then st
    else
      var r := HandleDocument(pages[1..], PageStep(pages[0], st));
      assert r.slides[..|st.slides|] == r.slides[..|st.slides| + 1][..|st.slides|];
      r
  }

  /** The slide a page produces, and what the walk leaves behind for the
      next page: the title is the page's title texts, the text is the
      buffer so far plus one bullet line per outline text, the media are
      the page's links, and the scope carries over instead of being reset. */
  lemma PageSlide(page: Node, st: ParserState)
    ensures var r := PageStep(page, st);
      var vs := Visits(page, 0);
      var s := r.slides[|st.slides|];
      && s.title == TitleText(vs, st.scope)
      && s.text == st.text + Bullets(OutlineBullets(vs, st.scope))
      && s.notes == ""
      && Sources(s.media) == MediaHrefs(vs)
      && r.scope == ScopeAfter(vs, st.scope)
  {
    var st0 := st.(depth := 0, slide := NewSlide());
    var vs := Visits(page, 0);
    WalkIsFlatPass(page, st0);
    RunScope(vs, st0);
    RunKeeps(vs, st0);
    RunText(vs, st0);
    RunTitle(vs, st0);
    RunMedia(vs, st0);
    assert Sources(st0.slide.media) == [];
  }

  /** The media of the slide a page produces are the page's media entries,
      counted from zero and named after the title texts seen so far. */
  lemma PageMedia(page: Node, st: ParserState)
    ensures PageStep(page, st).slides[|st.slides|].media
      == MediaEntries(Visits(page, 0), TitlesFrom("", st.scope), SlideNamer(st.mediaDir, |st.slides|), 0)
  {
    var st0 := st.(depth := 0, slide := NewSlide());
    var vs := Visits(page, 0);
    WalkIsFlatPass(page, st0);
    RunMediaEntries(vs, st0);
    assert [] + MediaEntries(vs, TitlesFrom("", st.scope), SlideNamer(st.mediaDir, |st.slides|), 0)
      == MediaEntries(vs, TitlesFrom("", st.scope), SlideNamer(st.mediaDir, |st.slides|), 0);
  }

  /** Media entry `k` of a slide is named after the slide's index, its own
      index `k`, and the title texts visited before its holder: a title that
      comes after an image does not name it. */
  lemma SlideMediaNamed(page: Node, st: ParserState, k: nat)
    requires k < |PageStep(page, st).slides[|st.slides|].media|
    ensures var s := PageStep(page, st).slides[|st.slides|];
      var vs := Visits(page, 0);
      exists p :: (0 <= p < |vs| && IsMediaHolder(vs[p].node)
        && s.media[k].1 == MediaDestination(st.mediaDir, s.media[k].0, TitleText(vs[..p], st.scope), |st.slides|, k))
  {
    PageMedia(page, st);
    FreshSlideEntryNamed(Visits(page, 0), st.scope, st.mediaDir, |st.slides|, k);
  }

  /** While names are not cut, no two media of one slide share a
      destination. */
  lemma SlideDestinationsDistinct(page: Node, st: ParserState, i: nat, j: nat)
    requires var s := PageStep(page, st).slides[|st.slides|];
      i < |s.media| && j < |s.media| && i != j && ShortNames(s.title, |st.slides|, |s.media|)
    ensures var s := PageStep(page, st).slides[|st.slides|];
      s.media[i].1 != s.media[j].1
  {
    PageSlide(page, st);
    PageMedia(page, st);
    FreshEntriesDistinct(Visits(page, 0), st.scope, st.mediaDir, |st.slides|, i, j);
  }

  /** A slide without a title names its media `slide-N-image-K`, keeping the
      extension of the link in lower case. */
  lemma UntitledSlideMedia(page: Node, st: ParserState, k: nat)
    requires var s := PageStep(page, st).slides[|st.slides|];
      k < |s.media| && s.title == "" && ShortNames("", |st.slides|, |s.media|)
    ensures var s := PageStep(page, st).slides[|st.slides|];
      s.media[k].1 == Paths.Join(st.mediaDir,
        "slide-" + NatToString(|st.slides|) + "-image-" + NatToString(k) + Lower(Paths.SplitExt(s.media[k].0).1))
  {
    PageSlide(page, st);
    PageMedia(page, st);
    UntitledEntries(Visits(page, 0), st.scope, st.mediaDir, |st.slides|, k);
  }

  lemma {:induction false} HandleDocumentAppend(a: seq<Node>, b: seq<Node>, st: ParserState)
    ensures HandleDocument(a + b, st) == HandleDocument(b, HandleDocument(a, st))
    decreases |a|
  {
    if |a| > 0 {
      assert (a + b)[1..] == a[1..] + b;
      HandleDocumentAppend(a[1..], b, PageStep(a[0], st));
    } else {
      assert a + b == b;
    }
  }

  /** Slide `i` of the document is page `i` walked from the state the pages
      before it left. */
  lemma DocumentSlide(pages: seq<Node>, st: ParserState, i: nat)
    requires i < |pages|
    ensures var before := HandleDocument(pages[..i], st);
      HandleDocument(pages, st).slides[|st.slides| + i] == PageStep(pages[i], before).slides[|st.slides| + i]
  {
    var before := HandleDocument(pages[..i], st);
    var after := PageStep(pages[i], before);
    var tail := pages[i..];
    assert pages == pages[..i] + tail;
    HandleDocumentAppend(pages[..i], tail, st);
    assert tail[0] == pages[i] && tail[1..] == pages[i + 1..];
    var r := HandleDocument(tail[1..], after);
    assert HandleDocument(pages, st) == r;
    assert |after.slides| == |st.slides| + i + 1;
    assert r.slides[..|after.slides|] == after.slides;
  }

  /** Every visit of every page, in document order. */
  function AllVisits(pages: seq<Node>): seq<Visit> {
    if |pages| == 0 then [] else Visits(pages[0], 0) + AllVisits(pages[1..])
  }

  lemma {:induction false} ScopeAfterAppend(a: seq<Visit>, b: seq<Visit>, s: Scope)
    ensures ScopeAfter(a + b, s) == ScopeAfter(b, ScopeAfter(a, s))
    decreases |b|
  {
    if |b| > 0 {
      assert (a + b)[..|a + b| - 1] == a + b[..|b| - 1];
      ScopeAfterAppend(a, b[..|b| - 1], s);
    } else {
      assert a + b == a;
    }
  }

  /** The scope is never reset between pages: after the document it is the
      scope of the last marker anywhere in it. */
  lemma {:induction false} DocumentScope(pages: seq<Node>, st: ParserState)
    ensures HandleDocument(pages, st).scope == ScopeAfter(AllVisits(pages), st.scope)
    decreases |pages|
  {
    if |pages| > 0 {
      var next := PageStep(pages[0], st);
      PageSlide(pages[0], st);
      DocumentScope(pages[1..], next);
      ScopeAfterAppend(Visits(pages[0], 0), AllVisits(pages[1..]), st.scope);
    }
  }

  /** Every text node among the visits is a single line. */
  predicate SingleLineTexts(vs: seq<Visit>) {
    forall i :: 0 <= i < |vs| && vs[i].node.Text? ==> '\n' !in vs[i].node.data
  }

  lemma {:induction false} OutlineBulletsSingleLine(vs: seq<Visit>, s: Scope)
    requires SingleLineTexts(vs)
    ensures SingleLine(OutlineBullets(vs, s))
    decreases |vs|
  {
    if |vs| > 0 {
      OutlineBulletsSingleLine(vs[..|vs| - 1], s);
    }
  }

  /** The Markdown of a page whose buffer started empty: the header with the
      title texts, then the outline bullets shifted so the shallowest sits at
      the margin, a blank line, and the media lines. */
  lemma PageMarkdown(page: Node, st: ParserState, blockToHTML: bool)
    requires st.text == ""
    requires SingleLineTexts(Visits(page, 0))
    ensures var s := PageStep(page, st).slides[|st.slides|];
      var bs := OutlineBullets(Visits(page, 0), st.scope);
      GenerateMarkdown(s, blockToHTML).1
        == "## " + TitleText(Visits(page, 0), st.scope) + "\n\n"
           + Bullets(Shift(bs, MinDepth(bs))) + "\n" + MediaLines(s.media, blockToHTML)
  {
    var vs := Visits(page, 0);
    var bs := OutlineBullets(vs, st.scope);
    PageSlide(page, st);
    OutlineBulletsSingleLine(vs, st.scope);
    DedentBullets(bs);
    assert PageStep(page, st).slides[|st.slides|].text == Bullets(bs);
  }

  // ---------------------------------------------------------------------
  // Two concrete documents
  // ---------------------------------------------------------------------

  function Frame(cls: string, children: seq<Node>): Node {
    Element("draw:frame", [("presentation:class", cls)], children)
  }

  function Paragraph(t: string): Node {
    Element("text:p", [], [Text(t)])
  }

  /** An element that is neither a marker nor a media holder does nothing
      itself. */
  lemma QuietStep(n: Node, depth: nat, st: ParserState)
    requires n.Element? && !IsMarker(n) && !IsMediaHolder(n)
    ensures NodeStep(n, depth, st) == st
  {
  }

  /** A marker element that holds no media only sets the scope. */
  lemma MarkerStep(n: Node, depth: nat, st: ParserState)
    requires n.Element? && IsMarker(n) && !IsMediaHolder(n)
    ensures NodeStep(n, depth, st) == st.(scope := MarkedScope(n))
  {
  }

  /** A non-empty text node adds itself to the buffer or the title. */
  lemma TextWalk(t: string, st: ParserState)
    requires t != "" && (st.scope == Outline || st.scope == Title)
    ensures HandleNode(Text(t), st)
      == if st.scope == Outline then st.(text := st.text + BulletLine(Bullet(st.depth, t)))
         else st.(slide := st.slide.(title := st.slide.title + t))
  {
    assert !IsMarker(Text(t)) && !IsMediaHolder(Text(t));
    assert NodeStep(Text(t), st.depth, st) == CaptureText(Text(t), st.depth, st);
  }

  /** The walk of an element with one child. */
  lemma WalkOne(n: Node, st: ParserState)
    requires n.Element? && |n.children| == 1
    ensures HandleNode(n, st)
      == HandleNode(n.children[0], NodeStep(n, st.depth, st).(depth := st.depth + 1)).(depth := st.depth)
  {
    var st1 := NodeStep(n, st.depth, st);
    assert n.children[1..] == [];
    assert HandleChildren(n.children, st1)
      == HandleChildren([], HandleNode(n.children[0], st1.(depth := st1.depth + 1)).(depth := st1.depth));
  }

  /** The walk of an element with two children. */
  lemma WalkTwo(n: Node, st: ParserState)
    requires n.Element? && |n.children| == 2
    ensures var st1 := NodeStep(n, st.depth, st).(depth := st.depth + 1);
      var mid := HandleNode(n.children[0], st1);
      HandleNode(n, st) == HandleNode(n.children[1], mid).(depth := st.depth)
  {
    var d := st.depth;
    var st1 := NodeStep(n, d, st);
    var mid := HandleNode(n.children[0], st1.(depth := d + 1));
    assert n.children[1..] == [n.children[1]];
    assert n.children[1..][1..] == [];
    assert HandleChildren(n.children, st1) == HandleChildren([n.children[1]], mid.(depth := d));
    assert HandleChildren([n.children[1]], mid.(depth := d))
      == HandleChildren([], HandleNode(n.children[1], mid.(depth := d + 1)).(depth := d));
    assert mid.(depth := d + 1) == mid;
  }

  /** Chaining the walks of a quiet element's two children. */
  lemma QuietTwo(n: Node, st: ParserState, mid: ParserState, last: ParserState)
    requires n.Element? && !IsMarker(n) && !IsMediaHolder(n) && |n.children| == 2
    requires HandleNode(n.children[0], st.(depth := st.depth + 1)) == mid
    requires HandleNode(n.children[1], mid) == last
    ensures HandleNode(n, st) == last.(depth := st.depth)
  {
    QuietStep(n, st.depth, st);
    WalkTwo(n, st);
  }

  /** A paragraph adds its text at one level below itself. */
  lemma ParagraphWalk(t: string, st: ParserState)
    requires t != "" && (st.scope == Outline || st.scope == Title)
    ensures HandleNode(Paragraph(t), st)
      == if st.scope == Outline then st.(text := st.text + BulletLine(Bullet(st.depth + 1, t)))
         else st.(slide := st.slide.(title := st.slide.title + t))
  {
    var p := Paragraph(t);
    assert p.children[0] == Text(t);
    QuietStep(p, st.depth, st);
    WalkOne(p, st);
    TextWalk(t, st.(depth := st.depth + 1));
  }

  function Item(t: string): Node {
    Element("text:list-item", [], [Paragraph(t)])
  }

  /** A list item holding one paragraph, in outline scope. */
  lemma ItemWalk(t: string, st: ParserState)
    requires t != "" && st.scope == Outline
    ensures HandleNode(Item(t), st) == st.(text := st.text + BulletLine(Bullet(st.depth + 2, t)))
  {
    var item := Item(t);
    assert item.children[0] == Paragraph(t);
    QuietStep(item, st.depth, st);
    WalkOne(item, st);
    ParagraphWalk(t, st.(depth := st.depth + 1));
  }

  function List2(a: string, b: string): Node {
    Element("text:list", [], [Item(a), Item(b)])
  }

  /** Two items walked one after the other, each at the same depth. */
  lemma ItemsWalk(a: string, b: string, st: ParserState, mid: ParserState, last: ParserState)
    requires a != "" && b != "" && st.scope == Outline
    requires mid == st.(text := st.text + BulletLine(Bullet(st.depth + 2, a)))
    requires last == mid.(text := mid.text + BulletLine(Bullet(st.depth + 2, b)))
    ensures HandleNode(Item(a), st) == mid && HandleNode(Item(b), mid) == last
  {
    ItemWalk(a, st);
    ItemWalk(b, mid);
  }

  /** A quiet element holding two items, in outline scope. */
  lemma TwoItemWalk(list: Node, a: string, b: string, st: ParserState)
    requires list.Element? && !IsMarker(list) && !IsMediaHolder(list)
    requires |list.children| == 2 && list.children[0] == Item(a) && list.children[1] == Item(b)
    requires a != "" && b != "" && st.scope == Outline
    ensures HandleNode(list, st)
      == st.(text := st.text + BulletLine(Bullet(st.depth + 3, a)) + BulletLine(Bullet(st.depth + 3, b)))
  {
    var d := st.depth;
    var st1 := st.(depth := d + 1);
    var mid := st1.(text := st.text + BulletLine(Bullet(d + 3, a)));
    var last := mid.(text := mid.text + BulletLine(Bullet(d + 3, b)));
    ItemsWalk(a, b, st1, mid, last);
    QuietTwo(list, st, mid, last);
  }

  /** A two-item list, in outline scope. */
  lemma ListWalk(a: string, b: string, st: ParserState)
    requires a != "" && b != "" && st.scope == Outline
    ensures HandleNode(List2(a, b), st)
      == st.(text := st.text + BulletLine(Bullet(st.depth + 3, a)) + BulletLine(Bullet(st.depth + 3, b)))
  {
    TwoItemWalk(List2(a, b), a, b, st);
  }

  /** An outline frame holding such a list. */
  lemma OutlineFrameWalk(a: string, b: string, st: ParserState)
    requires a != "" && b != ""
    ensures HandleNode(Frame("outline", [List2(a, b)]), st)
      == st.(scope := Outline,
             text := st.text + BulletLine(Bullet(st.depth + 4, a)) + BulletLine(Bullet(st.depth + 4, b)))
  {
    var frame := Frame("outline", [List2(a, b)]);
    assert frame.attrs[0] == ("presentation:class", "outline");
    assert IsMarker(frame) && MarkedScope(frame) == Outline;
    assert frame.children[0] == List2(a, b);
    MarkerStep(frame, st.depth, st);
    WalkOne(frame, st);
    ListWalk(a, b, st.(scope := Outline, depth := st.depth + 1));
  }

  /** A title frame holding one paragraph. */
  lemma TitleFrameWalk(t: string, st: ParserState)
    requires t != ""
    ensures HandleNode(Frame("title", [Paragraph(t)]), st)
      == st.(scope := Title, slide := st.slide.(title := st.slide.title + t))
  {
    var frame := Frame("title", [Paragraph(t)]);
    assert frame.attrs[0] == ("presentation:class", "title");
    assert IsMarker(frame) && MarkedScope(frame) == Title;
    assert frame.children[0] == Paragraph(t);
    MarkerStep(frame, st.depth, st);
    WalkOne(frame, st);
    ParagraphWalk(t, st.(scope := Title, depth := st.depth + 1));
  }

  /** A page with a title frame and a two-item outline list. */
  function Page(t: string, a: string, b: string): Node {
    Element("draw:page", [], [Frame("title", [Paragraph(t)]), Frame("outline", [List2(a, b)])])
  }

  /** A title frame and then an outline frame, walked at the same depth. */
  lemma FramesWalk(t: string, a: string, b: string, st: ParserState, mid: ParserState, last: ParserState)
    requires t != "" && a != "" && b != ""
    requires mid == st.(scope := Title, slide := st.slide.(title := st.slide.title + t))
    requires last == mid.(scope := Outline,
                          text := st.text + BulletLine(Bullet(st.depth + 4, a)) + BulletLine(Bullet(st.depth + 4, b)))
    ensures HandleNode(Frame("title", [Paragraph(t)]), st) == mid
    ensures HandleNode(Frame("outline", [List2(a, b)]), mid) == last
  {
    TitleFrameWalk(t, st);
    OutlineFrameWalk(a, b, mid);
  }

  /** A quiet element holding a title frame and then an outline frame. */
  lemma TwoFrameWalk(page: Node, t: string, a: string, b: string, st: ParserState)
    requires page.Element? && !IsMarker(page) && !IsMediaHolder(page)
    requires |page.children| == 2
    requires page.children[0] == Frame("title", [Paragraph(t)])
    requires page.children[1] == Frame("outline", [List2(a, b)])
    requires t != "" && b != "" && a != ""
    ensures HandleNode(page, st)
      == st.(scope := Outline,
             slide := st.slide.(title := st.slide.title + t),
             text := st.text + BulletLine(Bullet(st.depth + 5, a)) + BulletLine(Bullet(st.depth + 5, b)))
  {
    var d := st.depth;
    var st1 := st.(depth := d + 1);
    var mid := st1.(scope := Title, slide := st.slide.(title := st.slide.title + t));
    var last := mid.(scope := Outline,
                     text := st.text + BulletLine(Bullet(d + 5, a)) + BulletLine(Bullet(d + 5, b)));
    FramesWalk(t, a, b, st1, mid, last);
    QuietTwo(page, st, mid, last);
  }

  /** The walk of such a page: the title frame fills the title, and the
      list items land five levels below the page in the buffer. */
  lemma PageWalk(t: string, a: string, b: string, st: ParserState)
    requires t != "" && b != "" && a != ""
    ensures HandleNode(Page(t, a, b), st)
      == st.(scope := Outline,
             slide := st.slide.(title := st.slide.title + t),
             text := st.text + BulletLine(Bullet(st.depth + 5, a)) + BulletLine(Bullet(st.depth + 5, b)))
  {
    TwoFrameWalk(Page(t, a, b), t, a, b, st);
  }

  lemma TwoBullets(x: Bullet, y: Bullet)
    ensures Bullets([x, y]) == BulletLine(x) + BulletLine(y)
  {
    assert [x, y][1..] == [y];
    assert Bullets([y]) == BulletLine(y) + Bullets([]);
  }

  /** The slide such a page yields from a new parser. */
  lemma PageToSlide(t: string, a: string, b: string, mediaDir: string)
    requires t != "" && a != "" && b != ""
    ensures HandleDocument([Page(t, a, b)], NewParser(mediaDir)).slides[0]
      == Slide(t, Bullets([Bullet(5, a), Bullet(5, b)]), "", [])
  {
    var st := NewParser(mediaDir);
    PageWalk(t, a, b, st.(depth := 0, slide := NewSlide()));
    assert HandleDocument([Page(t, a, b)], st) == HandleDocument([], PageStep(Page(t, a, b), st));
    TwoBullets(Bullet(5, a), Bullet(5, b));
  }

  /** The list items sit five levels below the page, yet the rendered
      Markdown has them at the margin. */
  lemma PageToMarkdown(t: string, a: string, b: string, mediaDir: string)
    requires t != "" && a != "" && b != ""
    requires '\n' !in a && '\n' !in b
    ensures ToString(HandleDocument([Page(t, a, b)], NewParser(mediaDir)).slides[0]).1
      == "## " + t + "\n\n- " + a + "\n- " + b + "\n\n"
  {
    PageToSlide(t, a, b, mediaDir);
    var bs := [Bullet(5, a), Bullet(5, b)];
    DedentBullets(bs);
    assert MinDepth(bs) == 5;
    var shifted := Shift(bs, 5);
    assert shifted == [Bullet(0, a), Bullet(0, b)];
    TwoBullets(shifted[0], shifted[1]);
    var slide := Slide(t, Bullets(bs), "", []);
    assert MediaLines(slide.media, true) == "";
    MarkdownOfTwo(t, a, b);
  }

  lemma MarkdownOfTwo(t: string, a: string, b: string)
    ensures "## " + t + "\n\n" + (BulletLine(Bullet(0, a)) + BulletLine(Bullet(0, b))) + "\n" + ""
      == "## " + t + "\n\n- " + a + "\n- " + b + "\n\n"
  {
    assert Spaces(0) == "";
    var lhs := "## " + t + "\n\n" + (BulletLine(Bullet(0, a)) + BulletLine(Bullet(0, b))) + "\n" + "";
    var rhs := "## " + t + "\n\n- " + a + "\n- " + b + "\n\n";
    assert |lhs| == |rhs|;
    forall i | 0 <= i < |lhs| ensures lhs[i] == rhs[i] {
      var k := |"## " + t + "\n\n"|;
      if i < k {
      } else if i < k + 2 + |a| {
      } else if i < k + 2 + |a| + 3 {
      } else {
      }
    }
  }

  /** A `notes` frame selects no scope, and the scope is not reset between
      pages: the speaker notes on the page after an outline come out as a
      bullet of that slide's text. */
  lemma NotesAfterOutlineBecomeBullets(t: string, a: string, b: string, note: string, mediaDir: string)
    requires t != "" && a != "" && b != "" && note != ""
    ensures var notesPage := Element("draw:page", [], [Frame("notes", [Paragraph(note)])]);
      var doc := HandleDocument([Page(t, a, b), notesPage], NewParser(mediaDir));
      doc.slides[1].text == "   - " + note + "\n" && doc.slides[1].notes == ""
  {
    var notesPage := Element("draw:page", [], [Frame("notes", [Paragraph(note)])]);
    var frame := Frame("notes", [Paragraph(note)]);
    var st := NewParser(mediaDir);
    PageWalk(t, a, b, st.(depth := 0, slide := NewSlide()));
    var st1 := PageStep(Page(t, a, b), st);
    assert st1.scope == Outline;
    var newPage := st1.(depth := 0, slide := NewSlide());
    assert frame.attrs[0] == ("presentation:class", "notes");
    assert !IsMarker(notesPage) && !IsMarker(frame);
    assert notesPage.children[0] == frame && frame.children[0] == Paragraph(note);
    QuietStep(notesPage, 0, newPage);
    QuietStep(frame, 1, newPage.(depth := 1));
    WalkOne(notesPage, newPage);
    WalkOne(frame, newPage.(depth := 1));
    ParagraphWalk(note, newPage.(depth := 2));
    assert HandleNode(notesPage, newPage) == newPage.(text := BulletLine(Bullet(3, note)));
    var st2 := PageStep(notesPage, st1);
    assert st2.slides[1].text == BulletLine(Bullet(3, note));
    assert Spaces(3) == "   ";
    assert [Page(t, a, b), notesPage][1..] == [notesPage];
    assert HandleDocument([Page(t, a, b), notesPage], st) == HandleDocument([], st2);
  }
}
