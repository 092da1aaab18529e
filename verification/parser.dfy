/** `Parser` (src/odp2md/parser.py): the recursive walk over each
    `draw:page` that fills one `Slide` per page, and the naming of the
    media files it finds. The parser's fields become an explicit state
    record threaded through pure functions. */
module Parser {
  import opened Strings
  import opened Dom
  import opened Scopes
  import opened Slides
  import Slugs
  import Paths

  /** `Parser.__init__` sets this; `Parser.open` replaces it by its argument. */
  const DefaultMediaDirectory := "media"

  /** Media slugs are cut to this many characters. */
  const SlugLimit := 128

  /** The fields of a `Parser`: `slides`, `currentSlide`, `currentText`,
      `currentDepth`, `currentScope` and `mediaDirectory`. */
  datatype ParserState = ParserState(
    slides: seq<Slide>,
    slide: Slide,
    text: string,
    depth: nat,
    scope: Scope,
    mediaDir: string)

  /** A new parser whose media directory is `mediaDir`. The source starts
      with no current slide at all; `HandleDocument` installs a fresh one
      before each page, so an empty slide stands in for it here. */
  function NewParser(mediaDir: string): (p: ParserState)
    ensures p.slides == [] && p.text == "" && p.depth == 0 && p.scope == None
    ensures p.mediaDir == mediaDir
  {
    ParserState([], NewSlide(), "", 0, None, mediaDir)
  }

  /** The state `Parser.__init__` builds: an empty parser whose media
      directory is `"media"`. */
  function InitParser(): (p: ParserState)
    ensures p.slides == [] && p.text == "" && p.depth == 0 && p.scope == None
    ensures p.mediaDir == "media"
  {
    NewParser(DefaultMediaDirectory)
  }

  /** `Parser.open` changes only the media directory of a fresh parser, and
      its default argument gives back the state `__init__` built. */
  lemma OpenSetsMediaDirectory(mediaDir: string)
    ensures NewParser(mediaDir) == InitParser().(mediaDir := mediaDir)
    ensures NewParser("media") == InitParser()
  {
  }

  // ---------------------------------------------------------------------
  // Media destinations
  // ---------------------------------------------------------------------

  /** The slug before its index: the slugified title, or `slide-N-image`
      when that is empty. */
  function SlugBase(title: string, slideIndex: nat): string {
    var slug := Slugs.Slugify(title);
    if |slug| < 1 then "slide-" + NatToString(slideIndex) + "-image" else slug
  }

  /** The slug with `-K` appended, cut to `SlugLimit` characters. */
  function MediaSlug(title: string, slideIndex: nat, mediaIndex: nat): (r: string)
    ensures |r| <= SlugLimit
    ensures r <= SlugBase(title, slideIndex) + "-" + NatToString(mediaIndex)
    ensures |SlugBase(title, slideIndex) + "-" + NatToString(mediaIndex)| <= SlugLimit ==>
      r == SlugBase(title, slideIndex) + "-" + NatToString(mediaIndex)
    ensures |SlugBase(title, slideIndex) + "-" + NatToString(mediaIndex)| > SlugLimit ==>
      r == (SlugBase(title, slideIndex) + "-" + NatToString(mediaIndex))[..SlugLimit]
  {
    var slug := SlugBase(title, slideIndex) + "-" + NatToString(mediaIndex);
    if |slug| > SlugLimit then slug[..SlugLimit] else slug
  }

  /** `os.path.join(mediaDirectory, slug + ext.lower())` for the media at
      `href`. */
  function MediaDestination(mediaDir: string, href: string, title: string, slideIndex: nat, mediaIndex: nat): string {
    var ext := Paths.SplitExt(href).1;
    Paths.Join(mediaDir, MediaSlug(title, slideIndex, mediaIndex) + Lower(ext))
  }

  /** The slug is not cut: its index suffix is intact. */
  predicate Untruncated(title: string, slideIndex: nat, mediaIndex: nat) {
    |SlugBase(title, slideIndex)| + 1 + |NatToString(mediaIndex)| <= SlugLimit
  }

  /** An empty slug falls back to `slide-N-image-K`. */
  lemma FallbackSlug(title: string, slideIndex: nat, mediaIndex: nat)
    requires Slugs.Slugify(title) == ""
    requires Untruncated(title, slideIndex, mediaIndex)
    ensures MediaSlug(title, slideIndex, mediaIndex)
      == "slide-" + NatToString(slideIndex) + "-image-" + NatToString(mediaIndex)
  {
  }

  predicate NoChar(s: string, c: char) {
    forall i :: 0 <= i < |s| ==> s[i] != c
  }

  lemma NoCharConcat(a: string, b: string, c: char)
    requires NoChar(a, c) && NoChar(b, c)
    ensures NoChar(a + b, c)
  {
    assert forall i :: |a| <= i < |a + b| ==> (a + b)[i] == b[i - |a|];
  }

  lemma DigitsNoChar(n: nat, c: char)
    requires !IsAsciiDigit(c)
    ensures NoChar(NatToString(n), c)
  {
  }

  lemma SlugBaseNoChar(title: string, slideIndex: nat, c: char)
    requires !Slugs.IsSlugChar(c) && c !in "slide-image"
    ensures NoChar(SlugBase(title, slideIndex), c)
  {
    var slug := Slugs.Slugify(title);
    if |slug| < 1 {
      var digits := NatToString(slideIndex);
      DigitsNoChar(slideIndex, c);
      NoCharConcat("slide-", digits, c);
      NoCharConcat("slide-" + digits, "-image", c);
    } else {
      assert forall i :: 0 <= i < |slug| ==> Slugs.IsSlugChar(slug[i]);
    }
  }

  lemma SlugBaseChars(title: string, slideIndex: nat)
    ensures |SlugBase(title, slideIndex)| > 0
    ensures NoChar(SlugBase(title, slideIndex), '.')
    ensures NoChar(SlugBase(title, slideIndex), '/')
  {
    SlugBaseNoChar(title, slideIndex, '.');
    SlugBaseNoChar(title, slideIndex, '/');
  }

  /** The last hyphen of `b + "-" + d` is the one before `d` when `d` has none. */
  lemma LastHyphen(b: string, d: string)
    requires NoChar(d, '-')
    ensures Paths.LastIndexOf(b + "-" + d, '-') == |b|
  {
    var s := b + "-" + d;
    assert s[|b|] == '-';
    NoHyphenAfter(b, d);
    Paths.LastIndexOfIs(s, '-', |b|);
  }

  lemma NoHyphenAfter(b: string, d: string)
    requires NoChar(d, '-')
    ensures Paths.NotAfter(b + "-" + d, '-', |b|)
  {
    var s := b + "-" + d;
    forall j | |b| < j < |s|
      ensures s[j] != '-'
    {
      assert s[j] == d[j - |b| - 1];
    }
  }

  /** The part before the first dot. */
  function BeforeDot(s: string): string {
    if |s| == 0 || s[0] == '.' then "" else [s[0]] + BeforeDot(s[1..])
  }

  lemma {:induction false} BeforeDotOfJoin(a: string, b: string)
    requires NoChar(a, '.')
    requires b == "" || b[0] == '.'
    ensures BeforeDot(a + b) == a
    decreases |a|
  {
    if |a| > 0 {
      assert (a + b)[1..] == a[1..] + b;
      BeforeDotOfJoin(a[1..], b);
    } else {
      assert a + b == b;
    }
  }

  /** An uncut slug determines its index, whatever the titles were. */
  lemma MediaSlugDeterminesIndex(t1: string, n1: nat, k1: nat, t2: string, n2: nat, k2: nat)
    requires Untruncated(t1, n1, k1) && Untruncated(t2, n2, k2)
    ensures MediaSlug(t1, n1, k1) == MediaSlug(t2, n2, k2) ==> k1 == k2
  {
    var d1 := NatToString(k1);
    var d2 := NatToString(k2);
    var f1 := SlugBase(t1, n1) + "-" + d1;
    var f2 := SlugBase(t2, n2) + "-" + d2;
    assert MediaSlug(t1, n1, k1) == f1 && MediaSlug(t2, n2, k2) == f2;
    DigitsAfterLastHyphen(SlugBase(t1, n1), d1);
    DigitsAfterLastHyphen(SlugBase(t2, n2), d2);
    if f1 == f2 {
      NatToStringInjective(k1, k2);
    }
  }

  /** The digits of an index are what follows the last hyphen of the slug. */
  lemma DigitsAfterLastHyphen(b: string, d: string)
    requires NoChar(d, '-')
    ensures var s := b + "-" + d;
      0 <= Paths.LastIndexOf(s, '-') < |s| && s[Paths.LastIndexOf(s, '-') + 1..] == d
  {
    LastHyphen(b, d);
    var s := b + "-" + d;
    assert s[|b| + 1..] == d;
  }

  lemma MediaSlugShape(title: string, slideIndex: nat, mediaIndex: nat)
    ensures |MediaSlug(title, slideIndex, mediaIndex)| > 0
    ensures NoChar(MediaSlug(title, slideIndex, mediaIndex), '.')
    ensures MediaSlug(title, slideIndex, mediaIndex)[0] != '/'
  {
    SlugBaseChars(title, slideIndex);
    var full := SlugBase(title, slideIndex) + "-" + NatToString(mediaIndex);
    assert NoChar(full, '.');
    assert full[0] != '/';
  }

  /** Two media of one slide (or of any slides) whose slugs are not cut
      get different destinations unless their indices agree; this is what
      the `-K` suffix is for. */
  lemma DestinationsDistinct(
    mediaDir: string,
    h1: string, t1: string, n1: nat, k1: nat,
    h2: string, t2: string, n2: nat, k2: nat)
    requires Untruncated(t1, n1, k1) && Untruncated(t2, n2, k2)
    ensures MediaDestination(mediaDir, h1, t1, n1, k1) == MediaDestination(mediaDir, h2, t2, n2, k2) ==> k1 == k2
  {
    var s1 := MediaSlug(t1, n1, k1);
    var s2 := MediaSlug(t2, n2, k2);
    var e1 := Lower(Paths.SplitExt(h1).1);
    var e2 := Lower(Paths.SplitExt(h2).1);
    MediaSlugShape(t1, n1, k1);
    MediaSlugShape(t2, n2, k2);
    Paths.SplitExtShape(h1);
    Paths.SplitExtShape(h2);
    Paths.JoinInjective(mediaDir, s1 + e1, s2 + e2);
    if MediaDestination(mediaDir, h1, t1, n1, k1) == MediaDestination(mediaDir, h2, t2, n2, k2) {
      BeforeDotOfJoin(s1, e1);
      BeforeDotOfJoin(s2, e2);
      MediaSlugDeterminesIndex(t1, n1, k1, t2, n2, k2);
    }
  }

  /** Media names stay uncut on a slide whose title is `title` and which
      holds `count` media: a slugified title or prefix of it, or the
      `slide-N-image` fallback, leaves room for every index below `count`. */
  predicate ShortNames(title: string, slideIndex: nat, count: nat) {
    && |title| + 1 + |NatToString(count)| <= SlugLimit
    && 13 + |NatToString(slideIndex)| + |NatToString(count)| <= SlugLimit
  }

  lemma ShortNamesUntruncated(title: string, t: string, slideIndex: nat, k: nat, count: nat)
    requires |t| <= |title| && k <= count
    requires ShortNames(title, slideIndex, count)
    ensures Untruncated(t, slideIndex, k)
  {
    Slugs.SlugifyLength(t);
    NatToStringLengthMonotone(k, count);
  }

  /** A slugified title of 127 characters or more leaves no room for the
      index: every media of the slide gets the same slug. */
  lemma LongTitleLosesIndex(title: string, slideIndex: nat, k1: nat, k2: nat)
    requires |Slugs.Slugify(title)| >= SlugLimit - 1
    ensures MediaSlug(title, slideIndex, k1) == MediaSlug(title, slideIndex, k2)
  {
    var base := Slugs.Slugify(title);
    var f1 := base + "-" + NatToString(k1);
    var f2 := base + "-" + NatToString(k2);
    assert f1[..SlugLimit] == (base + "-")[..SlugLimit] == f2[..SlugLimit];
  }

  /** So under a long title, two media of one slide whose links have the same
      lower-cased extension get the same destination, and the later copy
      overwrites the earlier one. */
  lemma LongTitleSharesDestination(mediaDir: string, h1: string, h2: string, title: string, slideIndex: nat, k1: nat, k2: nat)
    requires |Slugs.Slugify(title)| >= SlugLimit - 1
    requires Lower(Paths.SplitExt(h1).1) == Lower(Paths.SplitExt(h2).1)
    ensures MediaDestination(mediaDir, h1, title, slideIndex, k1) == MediaDestination(mediaDir, h2, title, slideIndex, k2)
  {
    LongTitleLosesIndex(title, slideIndex, k1, k2);
  }

  // ---------------------------------------------------------------------
  // The walk
  // ---------------------------------------------------------------------

  /** Links numbered from `start`, each paired with the destination `dest`
      gives it under its number. */
  function Numbered(hrefs: seq<string>, start: nat, dest: (string, nat) -> string): (r: seq<Media>)
    ensures |r| == |hrefs|
    decreases |hrefs|
  {
    if |hrefs| == 0 then []
    else [(hrefs[0], dest(hrefs[0], start))] + Numbered(hrefs[1..], start + 1, dest)
  }

  lemma {:induction false} NumberedEntries(hrefs: seq<string>, start: nat, dest: (string, nat) -> string)
    ensures forall j :: 0 <= j < |hrefs| ==>
      Numbered(hrefs, start, dest)[j] == (hrefs[j], dest(hrefs[j], start + j))
    decreases |hrefs|
  {
    if |hrefs| > 0 {
      var r := Numbered(hrefs, start, dest);
      var rest := Numbered(hrefs[1..], start + 1, dest);
      NumberedEntries(hrefs[1..], start + 1, dest);
      forall j | 1 <= j < |hrefs|
        ensures r[j] == (hrefs[j], dest(hrefs[j], start + j))
      {
        assert r[j] == rest[j - 1];
        assert hrefs[1..][j - 1] == hrefs[j];
      }
    }
  }

  /** The destination of every media of one slide, by link and index. */
  function SlideDestination(mediaDir: string, title: string, slideIndex: nat): (string, nat) -> string {
    (href: string, mediaIndex: nat) => MediaDestination(mediaDir, href, title, slideIndex, mediaIndex)
  }

  /** The `xlink:href` loop of `handleNode`: each link becomes one media
      entry, named after the title collected so far, the number of finished
      slides and the number of media already on the slide (`start` plus the
      links before it). */
  function CaptureMedia(hrefs: seq<string>, mediaDir: string, title: string, slideIndex: nat, start: nat): (r: seq<Media>)
    ensures |r| == |hrefs|
  {
    Numbered(hrefs, start, SlideDestination(mediaDir, title, slideIndex))
  }

  /** Entry `j` pairs link `j` with the destination for media index
      `start + j`: the earlier entries of the slide are not renumbered. */
  lemma CaptureMediaEntries(hrefs: seq<string>, mediaDir: string, title: string, slideIndex: nat, start: nat)
    ensures forall j :: 0 <= j < |hrefs| ==>
      CaptureMedia(hrefs, mediaDir, title, slideIndex, start)[j]
        == (hrefs[j], MediaDestination(mediaDir, hrefs[j], title, slideIndex, start + j))
  {
    NumberedEntries(hrefs, start, SlideDestination(mediaDir, title, slideIndex));
  }

  /** The text part of `handleNode`: non-empty text becomes a bullet line in
      outline scope and joins the title in title scope. */
  function CaptureText(n: Node, depth: nat, st: ParserState): ParserState {
    match GetText(n)
    case SomeText(t) =>
      if st.scope == Outline then st.(text := st.text + BulletLine(Bullet(depth, t)))
      else if st.scope == Title then st.(slide := st.slide.(title := st.slide.title + t))
      else st
    case NoText => st
  }

  /** Everything `handleNode` does to one node before its children, with the
      depth it is visited at. */
  function NodeStep(n: Node, depth: nat, st: ParserState): ParserState {
    var st1 := st.(scope := UpdateScope(n, st.scope));
    var st2 :=
      if IsMediaHolder(n) then
        var media := CaptureMedia(Hrefs(n.attrs), st.mediaDir, st.slide.title, |st.slides|, |st.slide.media|);
        st1.(slide := st1.slide.(media := st1.slide.media + media))
      else st1;
    CaptureText(n, depth, st2)
  }

  /** What a walk may change: it appends to the buffer, the title and the
      media list, and leaves everything else alone. */
  predicate Extends(st: ParserState, r: ParserState) {
    && r.slides == st.slides
    && r.mediaDir == st.mediaDir
    && st.text <= r.text
    && st.slide.title <= r.slide.title
    && st.slide.media <= r.slide.media
    && r.slide.text == st.slide.text
    && r.slide.notes == st.slide.notes
  }

  /** `Parser.handleNode(node)`. */
  function HandleNode(n: Node, st: ParserState): (r: ParserState)
    ensures r.depth == st.depth
    decreases n
  {
    var st1 := NodeStep(n, st.depth, st);
    if n.Element? then HandleChildren(n.children, st1) else st1
  }

  /** The `for c in node.childNodes` loop: one level deeper for each child,
      and back again after it. */
  function HandleChildren(cs: seq<Node>, st: ParserState): (r: ParserState)
    ensures r.depth == st.depth
    decreases cs
  {
    if |cs| == 0 then st
    else
      var st1 := HandleNode(cs[0], st.(depth := st.depth + 1));
      HandleChildren(cs[1..], st1.(depth := st1.depth - 1))
  }

  /** One node's own work only appends. */
  lemma StepExtends(n: Node, depth: nat, st: ParserState)
    ensures Extends(st, NodeStep(n, depth, st))
  {
  }

  /** The walk only extends the buffer, the title and the media list, and
      leaves the finished slides alone. */
  lemma {:induction false} WalkExtends(n: Node, st: ParserState)
    ensures Extends(st, HandleNode(n, st))
    decreases n
  {
    StepExtends(n, st.depth, st);
    if n.Element? {
      ChildrenExtend(n.children, NodeStep(n, st.depth, st));
    }
  }

  lemma {:induction false} ChildrenExtend(cs: seq<Node>, st: ParserState)
    ensures Extends(st, HandleChildren(cs, st))
    decreases cs
  {
    if |cs| > 0 {
      var st1 := HandleNode(cs[0], st.(depth := st.depth + 1));
      WalkExtends(cs[0], st.(depth := st.depth + 1));
      ChildrenExtend(cs[1..], st1.(depth := st1.depth - 1));
    }
  }

  // ---------------------------------------------------------------------
  // The walk as a flat pass over the visits
  // ---------------------------------------------------------------------

  /** One visit processed on its own, at the depth recorded in it. */
  function Run(vs: seq<Visit>, st: ParserState): ParserState {
    if |vs| == 0 then st else Run(vs[1..], NodeStep(vs[0].node, vs[0].depth, st))
  }

  lemma {:induction false} RunAppend(a: seq<Visit>, b: seq<Visit>, st: ParserState)
    ensures Run(a + b, st) == Run(b, Run(a, st))
    decreases |a|
  {
    if |a| > 0 {
      assert (a + b)[1..] == a[1..] + b;
      RunAppend(a[1..], b, NodeStep(a[0].node, a[0].depth, st));
    } else {
      assert a + b == b;
    }
  }

  /** The stored depth plays no part in a visit. */
  lemma {:induction false} RunDepth(vs: seq<Visit>, st: ParserState, k: nat)
    ensures Run(vs, st.(depth := k)) == Run(vs, st).(depth := k)
    decreases |vs|
  {
    if |vs| > 0 {
      var n := vs[0].node;
      assert NodeStep(n, vs[0].depth, st.(depth := k)) == NodeStep(n, vs[0].depth, st).(depth := k);
      RunDepth(vs[1..], NodeStep(n, vs[0].depth, st), k);
    }
  }

  /** The recursive walk is a flat pass over the nodes in document order,
      each processed at its distance below the page root (plus the depth the
      walk starts at): depth is restored after every child, while the scope
      set by one node carries on to every later node. */
  lemma {:induction false} WalkIsFlatPass(n: Node, st: ParserState)
    ensures HandleNode(n, st) == Run(Visits(n, st.depth), st).(depth := st.depth)
    decreases n
  {
    var st1 := NodeStep(n, st.depth, st);
    if n.Element? {
      ChildrenAreFlatPass(n.children, st1);
      assert Visits(n, st.depth) == [Visit(n, st.depth)] + VisitsAll(n.children, st.depth + 1);
    }
  }

  lemma {:induction false} ChildrenAreFlatPass(cs: seq<Node>, st: ParserState)
    ensures HandleChildren(cs, st) == Run(VisitsAll(cs, st.depth + 1), st).(depth := st.depth)
    decreases cs
  {
    if |cs| > 0 {
      var d := st.depth;
      var deeper := st.(depth := d + 1);
      WalkIsFlatPass(cs[0], deeper);
      var st1 := HandleNode(cs[0], deeper);
      var mid := Run(Visits(cs[0], d + 1), st);
      RunDepth(Visits(cs[0], d + 1), st, d + 1);
      assert st1 == mid.(depth := d + 1);
      var back := st1.(depth := d);
      assert back == mid.(depth := d);
      ChildrenAreFlatPass(cs[1..], back);
      RunDepth(VisitsAll(cs[1..], d + 1), mid, d);
      RunAppend(Visits(cs[0], d + 1), VisitsAll(cs[1..], d + 1), st);
    }
  }

  // ---------------------------------------------------------------------
  // What the pass collects, read off the visits directly
  // ---------------------------------------------------------------------

  /** The scope in force after the visits: that of the last marker among
      them, or `s` when there is none. */
  function ScopeAfter(vs: seq<Visit>, s: Scope): Scope {
    if |vs| == 0 then s
    else if IsMarker(vs[|vs| - 1].node) then MarkedScope(vs[|vs| - 1].node)
    else ScopeAfter(vs[..|vs| - 1], s)
  }

  /** The bullets the visits emit: each non-empty text node in outline scope
      at its own depth. */
  function OutlineBullets(vs: seq<Visit>, s: Scope): seq<Bullet> {
    if |vs| == 0 then []
    else
      var last := vs[|vs| - 1];
      OutlineBullets(vs[..|vs| - 1], s)
        + (if GetText(last.node).SomeText? && ScopeAfter(vs, s) == Outline
           then [Bullet(last.depth, last.node.data)] else [])
  }

  /** The title text the visits contribute: every non-empty text node in
      title scope. */
  function TitleText(vs: seq<Visit>, s: Scope): string {
    if |vs| == 0 then ""
    else
      var last := vs[|vs| - 1];
      TitleText(vs[..|vs| - 1], s)
        + (if GetText(last.node).SomeText? && ScopeAfter(vs, s) == Title then last.node.data else "")
  }

  /** The links of the media holders among the visits, in order. */
  function MediaHrefs(vs: seq<Visit>): seq<string> {
    if |vs| == 0 then []
    else
      var last := vs[|vs| - 1];
      MediaHrefs(vs[..|vs| - 1]) + (if IsMediaHolder(last.node) then Hrefs(last.node.attrs) else [])
  }

  /** The source path of each media entry. */
  function Sources(media: seq<Media>): (r: seq<string>)
    ensures |r| == |media|
  {
    if |media| == 0 then [] else [media[0].0] + Sources(media[1..])
  }

  lemma {:induction false} SourcesIndex(media: seq<Media>)
    ensures forall i :: 0 <= i < |media| ==> Sources(media)[i] == media[i].0
    decreases |media|
  {
    if |media| > 0 {
      SourcesIndex(media[1..]);
      forall i | 1 <= i < |media|
        ensures Sources(media)[i] == media[i].0
      {
        assert Sources(media)[i] == Sources(media[1..])[i - 1];
      }
    }
  }

  lemma {:induction false} SourcesAppend(a: seq<Media>, b: seq<Media>)
    ensures Sources(a + b) == Sources(a) + Sources(b)
    decreases |a|
  {
    if |a| > 0 {
      assert (a + b)[1..] == a[1..] + b;
      SourcesAppend(a[1..], b);
    } else {
      assert a + b == b;
    }
  }

  lemma RunSnoc(vs: seq<Visit>, st: ParserState)
    requires |vs| > 0
    ensures Run(vs, st)
      == NodeStep(vs[|vs| - 1].node, vs[|vs| - 1].depth, Run(vs[..|vs| - 1], st))
  {
    var init := vs[..|vs| - 1];
    var last := vs[|vs| - 1];
    assert vs == init + [last];
    RunAppend(init, [last], st);
  }

  /** The scope after the pass is that of the last marker visited. */
  lemma {:induction false} RunScope(vs: seq<Visit>, st: ParserState)
    ensures Run(vs, st).scope == ScopeAfter(vs, st.scope)
    decreases |vs|
  {
    if |vs| > 0 {
      RunScope(vs[..|vs| - 1], st);
      RunSnoc(vs, st);
    }
  }

  /** The pass leaves the finished slides, the media directory, and the
      slide's text and notes alone. */
  lemma {:induction false} RunKeeps(vs: seq<Visit>, st: ParserState)
    ensures Run(vs, st).slides == st.slides && Run(vs, st).mediaDir == st.mediaDir
    ensures Run(vs, st).slide.text == st.slide.text && Run(vs, st).slide.notes == st.slide.notes
    decreases |vs|
  {
    if |vs| > 0 {
      RunKeeps(vs[..|vs| - 1], st);
      RunSnoc(vs, st);
    }
  }

  lemma NodeStepText(n: Node, depth: nat, st: ParserState)
    ensures NodeStep(n, depth, st).text
      == st.text + (if GetText(n).SomeText? && UpdateScope(n, st.scope) == Outline
                    then BulletLine(Bullet(depth, n.data)) else "")
  {
  }

  /** The bullet line the last visit adds, if any. */
  function LastLine(vs: seq<Visit>, s: Scope): string
    requires |vs| > 0
  {
    var last := vs[|vs| - 1];
    if GetText(last.node).SomeText? && ScopeAfter(vs, s) == Outline
    then BulletLine(Bullet(last.depth, last.node.data)) else ""
  }

  /** The pass's last step adds `LastLine` to the buffer. */
  lemma RunTextStep(vs: seq<Visit>, st: ParserState)
    requires |vs| > 0
    ensures Run(vs, st).text == Run(vs[..|vs| - 1], st).text + LastLine(vs, st.scope)
  {
    var init := vs[..|vs| - 1];
    var last := vs[|vs| - 1];
    RunScope(init, st);
    RunSnoc(vs, st);
    NodeStepText(last.node, last.depth, Run(init, st));
  }

  /** The bullets of the visits render as those of all but the last, then
      `LastLine`. */
  lemma BulletsStep(vs: seq<Visit>, s: Scope)
    requires |vs| > 0
    ensures Bullets(OutlineBullets(vs, s)) == Bullets(OutlineBullets(vs[..|vs| - 1], s)) + LastLine(vs, s)
  {
    var last := vs[|vs| - 1];
    var emitted := if GetText(last.node).SomeText? && ScopeAfter(vs, s) == Outline
      then [Bullet(last.depth, last.node.data)] else [];
    BulletsAppend(OutlineBullets(vs[..|vs| - 1], s), emitted);
    if emitted != [] {
      assert Bullets(emitted) == BulletLine(emitted[0]) + Bullets([]);
    }
  }

  /** The buffer gains one bullet line per outline text, in order. */
  lemma {:induction false} RunText(vs: seq<Visit>, st: ParserState)
    ensures Run(vs, st).text == st.text + Bullets(OutlineBullets(vs, st.scope))
    decreases |vs|
  {
    if |vs| > 0 {
      var init := vs[..|vs| - 1];
      RunText(init, st);
      RunTextStep(vs, st);
      BulletsStep(vs, st.scope);
      var x := LastLine(vs, st.scope);
      assert st.text + Bullets(OutlineBullets(init, st.scope)) + x
        == st.text + (Bullets(OutlineBullets(init, st.scope)) + x);
    }
  }

  /** The title gains every title-scope text, in order. */
  lemma {:induction false} RunTitle(vs: seq<Visit>, st: ParserState)
    ensures Run(vs, st).slide.title == st.slide.title + TitleText(vs, st.scope)
    decreases |vs|
  {
    if |vs| > 0 {
      RunTitle(vs[..|vs| - 1], st);
      RunScope(vs[..|vs| - 1], st);
      RunSnoc(vs, st);
    }
  }

  /** One visit appends the links of a media holder to the media list; any
      other node leaves the list alone. */
  lemma NodeStepMedia(n: Node, depth: nat, st: ParserState)
    ensures var media := NodeStep(n, depth, st).slide.media;
      && Sources(media) == Sources(st.slide.media) + (if IsMediaHolder(n) then Hrefs(n.attrs) else [])
      && st.slide.media <= media
      && (!IsMediaHolder(n) ==> media == st.slide.media)
  {
    NodeStepMediaIs(n, depth, st);
    if IsMediaHolder(n) {
      AppendCaptured(st.slide.media, Hrefs(n.attrs), st.mediaDir, st.slide.title, |st.slides|);
    } else {
      assert st.slide.media + [] == st.slide.media;
    }
  }

  /** Each link of a media holder is named after the title collected before
      the holder, the number of finished slides, and its own position on the
      slide. */
  lemma NodeStepMediaNamed(n: Node, depth: nat, st: ParserState)
    requires IsMediaHolder(n)
    ensures var media := NodeStep(n, depth, st).slide.media;
      var hrefs := Hrefs(n.attrs);
      var before := |st.slide.media|;
      && |media| == before + |hrefs|
      && forall j :: 0 <= j < |hrefs| ==>
           media[before + j] == (hrefs[j], MediaDestination(st.mediaDir, hrefs[j], st.slide.title, |st.slides|, before + j))
  {
    NodeStepMediaIs(n, depth, st);
    AppendCaptured(st.slide.media, Hrefs(n.attrs), st.mediaDir, st.slide.title, |st.slides|);
  }

  /** Appending the entries captured for `hrefs` after `prev`. */
  lemma AppendCaptured(prev: seq<Media>, hrefs: seq<string>, mediaDir: string, title: string, slideIndex: nat)
    ensures var media := prev + CaptureMedia(hrefs, mediaDir, title, slideIndex, |prev|);
      && Sources(media) == Sources(prev) + hrefs
      && prev <= media
      && |media| == |prev| + |hrefs|
      && forall j :: 0 <= j < |hrefs| ==>
           media[|prev| + j] == (hrefs[j], MediaDestination(mediaDir, hrefs[j], title, slideIndex, |prev| + j))
  {
    var captured := CaptureMedia(hrefs, mediaDir, title, slideIndex, |prev|);
    SourcesAppend(prev, captured);
    CaptureMediaEntries(hrefs, mediaDir, title, slideIndex, |prev|);
    SourcesIndex(captured);
    assert Sources(captured) == hrefs;
  }

  /** The media list after one visit, by construction. */
  lemma NodeStepMediaIs(n: Node, depth: nat, st: ParserState)
    ensures NodeStep(n, depth, st).slide.media
      == st.slide.media
         + (if IsMediaHolder(n)
            then CaptureMedia(Hrefs(n.attrs), st.mediaDir, st.slide.title, |st.slides|, |st.slide.media|)
            else [])
  {
  }

  /** The links of the last visit, if it is a media holder. */
  function LastHrefs(vs: seq<Visit>): seq<string>
    requires |vs| > 0
  {
    var last := vs[|vs| - 1];
    if IsMediaHolder(last.node) then Hrefs(last.node.attrs) else []
  }

  lemma MediaHrefsStep(vs: seq<Visit>)
    requires |vs| > 0
    ensures MediaHrefs(vs) == MediaHrefs(vs[..|vs| - 1]) + LastHrefs(vs)
  {
  }

  lemma RunMediaStep(vs: seq<Visit>, st: ParserState)
    requires |vs| > 0
    ensures Sources(Run(vs, st).slide.media) == Sources(Run(vs[..|vs| - 1], st).slide.media) + LastHrefs(vs)
  {
    var last := vs[|vs| - 1];
    RunSnoc(vs, st);
    NodeStepMedia(last.node, last.depth, Run(vs[..|vs| - 1], st));
  }

  /** The media list gains one entry per link of each media holder, in order. */
  lemma {:induction false} RunMedia(vs: seq<Visit>, st: ParserState)
    ensures Sources(Run(vs, st).slide.media) == Sources(st.slide.media) + MediaHrefs(vs)
    decreases |vs|
  {
    if |vs| > 0 {
      var init := vs[..|vs| - 1];
      RunMedia(init, st);
      RunMediaStep(vs, st);
      var extra := LastHrefs(vs);
      MediaHrefsStep(vs);
      assert (Sources(st.slide.media) + MediaHrefs(init)) + extra
        == Sources(st.slide.media) + (MediaHrefs(init) + extra);
    }
  }

  /** How one slide names its media: given the title collected so far, the
      destination of a link under its index on the slide. */
  type Namer = string -> (string, nat) -> string

  /** The namer of slide `slideIndex`, writing into `mediaDir`. */
  function SlideNamer(mediaDir: string, slideIndex: nat): Namer {
    (title: string) => SlideDestination(mediaDir, title, slideIndex)
  }

  /** The title a slide has collected by the time the walk reaches a point,
      given the visits before that point. */
  type Titles = seq<Visit> -> string

  /** The titles of a slide that starts with `title`, in scope `s`. */
  function TitlesFrom(title: string, s: Scope): Titles {
    (vs: seq<Visit>) => title + TitleText(vs, s)
  }

  /** The media entries the visits capture, read off the visits: the links of
      each holder in order, each named by `name` after the title collected
      before its holder, and under the number of links before it (counted
      from `start`). */
  function MediaEntries(vs: seq<Visit>, titles: Titles, name: Namer, start: nat): seq<Media> {
    if |vs| == 0 then []
    else
      MediaEntries(vs[..|vs| - 1], titles, name, start)
        + LastEntries(vs, titles, name, start + |MediaHrefs(vs[..|vs| - 1])|)
  }

  /** The entries the last visit adds, if it is a media holder. */
  function LastEntries(vs: seq<Visit>, titles: Titles, name: Namer, start: nat): seq<Media>
    requires |vs| > 0
  {
    var last := vs[|vs| - 1];
    if IsMediaHolder(last.node)
    then Numbered(Hrefs(last.node.attrs), start, name(titles(vs[..|vs| - 1])))
    else []
  }

  lemma {:induction false} MediaEntriesStep(vs: seq<Visit>, titles: Titles, name: Namer, start: nat)
    requires |vs| > 0
    ensures MediaEntries(vs, titles, name, start)
      == MediaEntries(vs[..|vs| - 1], titles, name, start)
         + LastEntries(vs, titles, name, start + |MediaHrefs(vs[..|vs| - 1])|)
  {
  }

  /** `MediaEntriesStep` with its two parts named by the caller. */
  lemma MediaEntriesParts(vs: seq<Visit>, titles: Titles, name: Namer, start: nat, before: seq<Media>, extra: seq<Media>)
    requires |vs| > 0
    requires before == MediaEntries(vs[..|vs| - 1], titles, name, start)
    requires extra == LastEntries(vs, titles, name, start + |MediaHrefs(vs[..|vs| - 1])|)
    ensures MediaEntries(vs, titles, name, start) == before + extra
  {
    MediaEntriesStep(vs, titles, name, start);
  }

  /** One entry per link of the holders among the visits. */
  lemma {:induction false} MediaEntriesLength(vs: seq<Visit>, titles: Titles, name: Namer, start: nat)
    ensures |MediaEntries(vs, titles, name, start)| == |MediaHrefs(vs)|
    decreases |vs|
  {
    if |vs| > 0 {
      var init := vs[..|vs| - 1];
      MediaEntriesLength(init, titles, name, start);
      MediaEntriesStep(vs, titles, name, start);
    }
  }

  /** The pass's last step adds `LastEntries` to the media list, numbered
      from the entries already there. */
  lemma RunMediaEntriesStep(vs: seq<Visit>, st: ParserState, start: nat)
    requires |vs| > 0
    requires start == |Run(vs[..|vs| - 1], st).slide.media|
    ensures Run(vs, st).slide.media
      == Run(vs[..|vs| - 1], st).slide.media
         + LastEntries(vs, TitlesFrom(st.slide.title, st.scope), SlideNamer(st.mediaDir, |st.slides|), start)
  {
    var init := vs[..|vs| - 1];
    var last := vs[|vs| - 1];
    RunSnoc(vs, st);
    RunKeeps(init, st);
    RunTitle(init, st);
    NodeStepMediaIs(last.node, last.depth, Run(init, st));
  }

  /** `whole` is `prev` then `extra`, and `prev` is `base` then `before`:
      so `whole` is `base` then `all`, where `all` is `before` then `extra`. */
  lemma AppendChain<T>(whole: seq<T>, prev: seq<T>, base: seq<T>, before: seq<T>, extra: seq<T>, all: seq<T>)
    requires whole == prev + extra && prev == base + before && all == before + extra
    ensures whole == base + all
  {
    assert (base + before) + extra == base + (before + extra);
  }

  /** The pass appends exactly `MediaEntries` to the media list. */
  lemma {:induction false} RunMediaEntries(vs: seq<Visit>, st: ParserState)
    ensures Run(vs, st).slide.media
      == st.slide.media
         + MediaEntries(vs, TitlesFrom(st.slide.title, st.scope), SlideNamer(st.mediaDir, |st.slides|), |st.slide.media|)
    decreases |vs|
  {
    if |vs| > 0 {
      var init := vs[..|vs| - 1];
      var k := |st.slide.media|;
      var titles := TitlesFrom(st.slide.title, st.scope);
      var name := SlideNamer(st.mediaDir, |st.slides|);
      var start := k + |MediaHrefs(init)|;
      var before := MediaEntries(init, titles, name, k);
      var extra := LastEntries(vs, titles, name, start);
      var all := MediaEntries(vs, titles, name, k);
      MediaEntriesParts(vs, titles, name, k, before, extra);
      RunMediaEntries(init, st);
      MediaEntriesLength(init, titles, name, k);
      var prev := Run(init, st).slide.media;
      assert prev == st.slide.media + before;
      assert |prev| == start;
      RunMediaEntriesStep(vs, st, start);
      AppendChain(Run(vs, st).slide.media, prev, st.slide.media, before, extra, all);
    } else {
      NoVisitsNoEntries(vs, st);
    }
  }

  lemma NoVisitsNoEntries(vs: seq<Visit>, st: ParserState)
    requires |vs| == 0
    ensures Run(vs, st).slide.media
      == st.slide.media
         + MediaEntries(vs, TitlesFrom(st.slide.title, st.scope), SlideNamer(st.mediaDir, |st.slides|), |st.slide.media|)
  {
    assert st.slide.media + [] == st.slide.media;
  }

  /** Entry `k` is named after the title collected before its holder and
      after its own position. */
  lemma MediaEntryNamed(vs: seq<Visit>, titles: Titles, name: Namer, start: nat, k: nat)
    requires k < |MediaEntries(vs, titles, name, start)|
    ensures var e := MediaEntries(vs, titles, name, start)[k];
      exists p :: (0 <= p < |vs| && IsMediaHolder(vs[p].node) && e.1 == name(titles(vs[..p]))(e.0, start + k))
  {
    var p := EntryHolder(vs, titles, name, start, k);
  }

  /** The holder `p` whose links include entry `k`. */
  lemma {:induction false} EntryHolder(vs: seq<Visit>, titles: Titles, name: Namer, start: nat, k: nat) returns (p: nat)
    requires k < |MediaEntries(vs, titles, name, start)|
    ensures var e := MediaEntries(vs, titles, name, start)[k];
      p < |vs| && IsMediaHolder(vs[p].node) && e.1 == name(titles(vs[..p]))(e.0, start + k)
    decreases |vs|
  {
    var init := vs[..|vs| - 1];
    if k < |MediaEntries(init, titles, name, start)| {
      EarlierEntry(vs, titles, name, start, k);
      p := EntryHolder(init, titles, name, start, k);
      assert init[..p] == vs[..p] && init[p] == vs[p];
    } else {
      LatestEntry(vs, titles, name, start, k);
      p := |vs| - 1;
      assert vs[..p] == init;
    }
  }

  /** An entry captured before the last visit keeps its place. */
  lemma EarlierEntry(vs: seq<Visit>, titles: Titles, name: Namer, start: nat, k: nat)
    requires |vs| > 0 && k < |MediaEntries(vs[..|vs| - 1], titles, name, start)|
    ensures k < |MediaEntries(vs, titles, name, start)|
    ensures MediaEntries(vs, titles, name, start)[k] == MediaEntries(vs[..|vs| - 1], titles, name, start)[k]
  {
    MediaEntriesStep(vs, titles, name, start);
  }

  /** An entry captured by the last visit is named after the title before it. */
  lemma LatestEntry(vs: seq<Visit>, titles: Titles, name: Namer, start: nat, k: nat)
    requires |vs| > 0
    requires |MediaEntries(vs[..|vs| - 1], titles, name, start)| <= k < |MediaEntries(vs, titles, name, start)|
    ensures IsMediaHolder(vs[|vs| - 1].node)
    ensures var e := MediaEntries(vs, titles, name, start)[k];
      e.1 == name(titles(vs[..|vs| - 1]))(e.0, start + k)
  {
    var n := |MediaHrefs(vs[..|vs| - 1])|;
    LatestEntryIs(vs, titles, name, start, k);
    LastEntryNamed(vs, titles, name, start + n, k - n);
  }

  /** Such an entry is one of the entries the last visit adds. */
  lemma LatestEntryIs(vs: seq<Visit>, titles: Titles, name: Namer, start: nat, k: nat)
    requires |vs| > 0
    requires |MediaEntries(vs[..|vs| - 1], titles, name, start)| <= k < |MediaEntries(vs, titles, name, start)|
    ensures var n := |MediaHrefs(vs[..|vs| - 1])|;
      var extra := LastEntries(vs, titles, name, start + n);
      n <= k && k - n < |extra| && MediaEntries(vs, titles, name, start)[k] == extra[k - n]
  {
    var init := vs[..|vs| - 1];
    var n := |MediaHrefs(init)|;
    MediaEntriesLength(init, titles, name, start);
    MediaEntriesStep(vs, titles, name, start);
    AppendIndex(MediaEntries(init, titles, name, start), LastEntries(vs, titles, name, start + n), k);
  }

  lemma AppendIndex<T>(a: seq<T>, b: seq<T>, k: nat)
    requires |a| <= k < |a| + |b|
    ensures (a + b)[k] == b[k - |a|]
  {
  }

  /** The entries of a holder visited last are named after the title texts
      before it. */
  lemma LastEntryNamed(vs: seq<Visit>, titles: Titles, name: Namer, start: nat, j: nat)
    requires |vs| > 0 && j < |LastEntries(vs, titles, name, start)|
    ensures IsMediaHolder(vs[|vs| - 1].node)
    ensures var e := LastEntries(vs, titles, name, start)[j];
      e.1 == name(titles(vs[..|vs| - 1]))(e.0, start + j)
  {
    var last := vs[|vs| - 1];
    if IsMediaHolder(last.node) {
      NumberedEntries(Hrefs(last.node.attrs), start, name(titles(vs[..|vs| - 1])));
    }
  }

  lemma SlideNamerApply(mediaDir: string, slideIndex: nat, title: string, href: string, k: nat)
    ensures SlideNamer(mediaDir, slideIndex)(title)(href, k) == MediaDestination(mediaDir, href, title, slideIndex, k)
  {
  }

  /** Entry `k` of a slide that starts untitled and empty is named after
      the slide's index, its own index `k`, and the title texts visited
      before its holder. */
  lemma FreshSlideEntryNamed(vs: seq<Visit>, s: Scope, mediaDir: string, slideIndex: nat, k: nat)
    requires k < |MediaEntries(vs, TitlesFrom("", s), SlideNamer(mediaDir, slideIndex), 0)|
    ensures var e := MediaEntries(vs, TitlesFrom("", s), SlideNamer(mediaDir, slideIndex), 0)[k];
      exists p :: (0 <= p < |vs| && IsMediaHolder(vs[p].node)
        && e.1 == MediaDestination(mediaDir, e.0, TitleText(vs[..p], s), slideIndex, k))
  {
    var p := FreshEntryHolder(vs, s, mediaDir, slideIndex, k);
  }

  lemma FreshEntryHolder(vs: seq<Visit>, s: Scope, mediaDir: string, slideIndex: nat, k: nat) returns (p: nat)
    requires k < |MediaEntries(vs, TitlesFrom("", s), SlideNamer(mediaDir, slideIndex), 0)|
    ensures var e := MediaEntries(vs, TitlesFrom("", s), SlideNamer(mediaDir, slideIndex), 0)[k];
      p < |vs| && IsMediaHolder(vs[p].node)
      && e.1 == MediaDestination(mediaDir, e.0, TitleText(vs[..p], s), slideIndex, k)
  {
    var titles := TitlesFrom("", s);
    var name := SlideNamer(mediaDir, slideIndex);
    var e := MediaEntries(vs, titles, name, 0)[k];
    p := EntryHolder(vs, titles, name, 0, k);
    var t := TitleText(vs[..p], s);
    assert titles(vs[..p]) == t by {
      assert "" + t == t;
    }
    SlideNamerApply(mediaDir, slideIndex, t, e.0, k);
  }

  /** While names are not cut, no two entries of a fresh slide share a
      destination. */
  lemma FreshEntriesDistinct(vs: seq<Visit>, s: Scope, mediaDir: string, slideIndex: nat, i: nat, j: nat)
    requires var es := MediaEntries(vs, TitlesFrom("", s), SlideNamer(mediaDir, slideIndex), 0);
      i < |es| && j < |es| && i != j && ShortNames(TitleText(vs, s), slideIndex, |es|)
    ensures var es := MediaEntries(vs, TitlesFrom("", s), SlideNamer(mediaDir, slideIndex), 0);
      es[i].1 != es[j].1
  {
    var es := MediaEntries(vs, TitlesFrom("", s), SlideNamer(mediaDir, slideIndex), 0);
    var title := TitleText(vs, s);
    var p := FreshEntryHolder(vs, s, mediaDir, slideIndex, i);
    var q := FreshEntryHolder(vs, s, mediaDir, slideIndex, j);
    TitleTextPrefix(vs, s, p);
    TitleTextPrefix(vs, s, q);
    ShortNamesUntruncated(title, TitleText(vs[..p], s), slideIndex, i, |es|);
    ShortNamesUntruncated(title, TitleText(vs[..q], s), slideIndex, j, |es|);
    DestinationsDistinct(
      mediaDir,
      es[i].0, TitleText(vs[..p], s), slideIndex, i,
      es[j].0, TitleText(vs[..q], s), slideIndex, j);
  }

  /** A fresh slide that gains no title names its media `slide-N-image-K`. */
  lemma UntitledEntries(vs: seq<Visit>, s: Scope, mediaDir: string, slideIndex: nat, k: nat)
    requires var es := MediaEntries(vs, TitlesFrom("", s), SlideNamer(mediaDir, slideIndex), 0);
      k < |es| && TitleText(vs, s) == "" && ShortNames("", slideIndex, |es|)
    ensures var e := MediaEntries(vs, TitlesFrom("", s), SlideNamer(mediaDir, slideIndex), 0)[k];
      e.1 == Paths.Join(mediaDir,
        "slide-" + NatToString(slideIndex) + "-image-" + NatToString(k) + Lower(Paths.SplitExt(e.0).1))
  {
    var es := MediaEntries(vs, TitlesFrom("", s), SlideNamer(mediaDir, slideIndex), 0);
    var p := FreshEntryHolder(vs, s, mediaDir, slideIndex, k);
    TitleTextPrefix(vs, s, p);
    var t := TitleText(vs[..p], s);
    assert t == "";
    ShortNamesUntruncated("", t, slideIndex, k, |es|);
    UntitledDestination(mediaDir, es[k].0, slideIndex, k);
  }

  /** With no title at all, the destination of media `k` is
      `slide-N-image-K` plus the lower-cased extension. */
  lemma UntitledDestination(mediaDir: string, href: string, slideIndex: nat, k: nat)
    requires Untruncated("", slideIndex, k)
    ensures MediaDestination(mediaDir, href, "", slideIndex, k)
      == Paths.Join(mediaDir, "slide-" + NatToString(slideIndex) + "-image-" + NatToString(k) + Lower(Paths.SplitExt(href).1))
  {
    Slugs.SlugifyLength("");
    FallbackSlug("", slideIndex, k);
  }

  /** The title texts before a point are a prefix of all of them. */
  lemma {:induction false} TitleTextPrefix(vs: seq<Visit>, s: Scope, p: nat)
    requires p <= |vs|
    ensures TitleText(vs[..p], s) <= TitleText(vs, s)
    decreases |vs|
  {
    if p < |vs| {
      var init := vs[..|vs| - 1];
      TitleTextPrefix(init, s, p);
      assert init[..p] == vs[..p];
    } else {
      assert vs[..p] == vs;
    }
  }
}
