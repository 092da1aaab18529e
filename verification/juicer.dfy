/** odp-juicer.py, an early walker with a nested-list renderer. Its walk
    glues outline texts into one buffer without separators, copies that
    buffer (not the text) into the title, never stores the buffer on the
    slide, and never resets the depth counter between pages. */
module Juicer {
  import opened Strings
  import opened Dom
  import opened Scopes
  import Slides
  import Parser
  import Walk

  // ---------------------------------------------------------------------
  // The nested-list renderer
  // ---------------------------------------------------------------------

  /** An element of a slide's `text`: a value or a nested list. */
  datatype Item = Leaf(value: string) | Nested(items: seq<Item>)

  /** `Slide.generateMarkdownBody(d, depth)`. */
  function Body(d: seq<Item>, depth: nat): string
    decreases d
  {
    if |d| == 0 then "" else ItemBody(d[0], depth) + Body(d[1..], depth)
  }

  function ItemBody(v: Item, depth: nat): string
    decreases v
  {
    match v
    case Nested(items) => Body(items, depth + 1)
    case Leaf(x) => Tabs(depth) + "- " + x + "\n"
  }

  /** A value and the nesting level it sits at. */
  datatype Entry = Entry(level: nat, value: string)

  /** The values of a nested list in reading order, each with its level. */
  function Leaves(d: seq<Item>, depth: nat): (r: seq<Entry>)
    ensures forall i :: 0 <= i < |r| ==> r[i].level >= depth
    decreases d
  {
    if |d| == 0 then [] else ItemLeaves(d[0], depth) + Leaves(d[1..], depth)
  }

  function ItemLeaves(v: Item, depth: nat): (r: seq<Entry>)
    ensures forall i :: 0 <= i < |r| ==> r[i].level >= depth
    decreases v
  {
    match v
    case Nested(items) => Leaves(items, depth + 1)
    case Leaf(x) => [Entry(depth, x)]
  }

  /** One line: a tab per level, a dash, the value. */
  function EntryLine(e: Entry): string {
    Tabs(e.level) + "- " + e.value
  }

  function EntryLines(es: seq<Entry>): string {
    if |es| == 0 then "" else EntryLine(es[0]) + "\n" + EntryLines(es[1..])
  }

  lemma {:induction false} EntryLinesAppend(a: seq<Entry>, b: seq<Entry>)
    ensures EntryLines(a + b) == EntryLines(a) + EntryLines(b)
    decreases |a|
  {
    if |a| > 0 {
      assert (a + b)[1..] == a[1..] + b;
      EntryLinesAppend(a[1..], b);
    } else {
      assert a + b == b;
    }
  }

  /** The body is one line per value, in reading order, indented by one tab
      per level of nesting. */
  lemma {:induction false} BodyIsEntryLines(d: seq<Item>, depth: nat)
    ensures Body(d, depth) == EntryLines(Leaves(d, depth))
    decreases d
  {
    if |d| > 0 {
      ItemBodyIsEntryLines(d[0], depth);
      BodyIsEntryLines(d[1..], depth);
      EntryLinesAppend(ItemLeaves(d[0], depth), Leaves(d[1..], depth));
    }
  }

  lemma {:induction false} ItemBodyIsEntryLines(v: Item, depth: nat)
    ensures ItemBody(v, depth) == EntryLines(ItemLeaves(v, depth))
    decreases v
  {
    match v
    case Nested(items) => BodyIsEntryLines(items, depth + 1);
    case Leaf(x) =>
      assert EntryLines([Entry(depth, x)]) == EntryLine(Entry(depth, x)) + "\n" + EntryLines([]);
  }

  lemma {:induction false} SplitEntryLines(es: seq<Entry>)
    requires forall i :: 0 <= i < |es| ==> '\n' !in es[i].value
    ensures var lines := SplitLines(EntryLines(es));
      && |lines| == |es| + 1
      && lines[|es|] == ""
      && forall i :: 0 <= i < |es| ==> lines[i] == EntryLine(es[i])
    decreases |es|
  {
    if |es| == 0 {
      assert SplitLines("") == [""];
    } else {
      var line := EntryLine(es[0]);
      assert '\n' !in line by {
        assert forall k :: 0 <= k < |Tabs(es[0].level)| ==> Tabs(es[0].level)[k] == '\t';
      }
      SplitEntryLines(es[1..]);
      SplitLinesCons(line, EntryLines(es[1..]));
      var lines := SplitLines(EntryLines(es));
      assert lines == [line] + SplitLines(EntryLines(es[1..]));
      forall i | 1 <= i < |es| ensures lines[i] == EntryLine(es[i]) {
        assert es[1..][i - 1] == es[i];
      }
    }
  }

  /** Split into lines, the body has exactly one line per value and nothing
      after the last line feed. */
  lemma BodyLines(d: seq<Item>, depth: nat)
    requires forall i :: 0 <= i < |Leaves(d, depth)| ==> '\n' !in Leaves(d, depth)[i].value
    ensures var es := Leaves(d, depth);
      var lines := SplitLines(Body(d, depth));
      && |lines| == |es| + 1
      && lines[|es|] == ""
      && forall i :: 0 <= i < |es| ==> lines[i] == Tabs(es[i].level) + "- " + es[i].value
  {
    BodyIsEntryLines(d, depth);
    SplitEntryLines(Leaves(d, depth));
  }

  /** A list with no values renders as nothing, however deeply it nests;
      in particular a new slide's `[[]]`. */
  lemma EmptyBody(d: seq<Item>, depth: nat)
    requires Leaves(d, depth) == []
    ensures Body(d, depth) == ""
  {
    BodyIsEntryLines(d, depth);
  }

  // ---------------------------------------------------------------------
  // Slides and their rendering
  // ---------------------------------------------------------------------

  /** The `name` attribute only `handlePage` ever sets. */
  datatype Name = NoName | Named(value: string)

  /** odp-juicer.py's `Slide`. */
  datatype Slide = Slide(title: string, text: seq<Item>, notes: seq<string>, media: seq<string>, name: Name)

  const UnknownTitle := "Unknown"

  function NewSlide(): (s: Slide)
    ensures s.title == UnknownTitle && s.text == [Nested([])] && s.notes == [] && s.media == []
    ensures s.name == NoName && Leaves(s.text, 0) == []
  {
    var s := Slide(UnknownTitle, [Nested([])], [], [], NoName);
    assert Leaves(s.text, 0) == ItemLeaves(Nested([]), 0) + Leaves([], 0);
    s
  }

  /** The result of `generateMarkdown`: the text, or the attribute error a
      slide without a name raises. */
  datatype Rendering = Markdown(out: string) | MissingName

  /** `Slide.generateMarkdown`: a header with the slide's name, then the
      body of its text. */
  function GenerateMarkdown(s: Slide): (r: Rendering)
    ensures r.MissingName? <==> s.name.NoName?
  {
    match s.name
    case NoName => MissingName
    case Named(n) => Markdown("## " + n + "\n" + Body(s.text, 0))
  }

  /** A named slide renders as its header line followed by one line per
      value of its text. */
  lemma NamedSlideMarkdown(s: Slide, n: string)
    requires s.name == Named(n)
    ensures GenerateMarkdown(s) == Markdown("## " + n + "\n" + EntryLines(Leaves(s.text, 0)))
  {
    BodyIsEntryLines(s.text, 0);
  }

  // ---------------------------------------------------------------------
  // The walk
  // ---------------------------------------------------------------------

  /** The fields of `ODPJuicer` (the unused `doc` left out). */
  datatype State = State(slides: seq<Slide>, slide: Slide, text: string, depth: nat, scope: Scope)

  function NewJuicer(): (p: State)
    ensures p.slides == [] && p.text == "" && p.depth == 0 && p.scope == None
  {
    State([], NewSlide(), "", 0, None)
  }

  /** What `handleNode` does to one node before its children: the same scope
      rule; an outline text appends its indent and itself with no separator;
      a title text appends the whole buffer to the title. */
  function Step(n: Node, depth: nat, st: State): State {
    var st1 := st.(scope := UpdateScope(n, st.scope));
    match GetText(n)
    case SomeText(t) =>
      if st1.scope == Outline then st1.(text := st1.text + Spaces(depth) + t)
      else if st1.scope == Title then st1.(slide := st1.slide.(title := st1.slide.title + st1.text))
      else st1
    case NoText => st1
  }

  /** The outline texts glued as this walker glues them. */
  function Glued(bs: seq<Slides.Bullet>): string {
    if |bs| == 0 then "" else Spaces(bs[0].depth) + bs[0].text + Glued(bs[1..])
  }

  lemma {:induction false} GluedAppend(a: seq<Slides.Bullet>, b: seq<Slides.Bullet>)
    ensures Glued(a + b) == Glued(a) + Glued(b)
    decreases |a|
  {
    if |a| > 0 {
      assert (a + b)[1..] == a[1..] + b;
      GluedAppend(a[1..], b);
    } else {
      assert a + b == b;
    }
  }

  /** What the title gains: at each title-scope text, the buffer as it
      stands then (`buffer` plus the outline texts glued so far). */
  function TitleCopies(vs: seq<Visit>, s: Scope, buffer: string): string {
    if |vs| == 0 then ""
    else
      var init := vs[..|vs| - 1];
      var last := vs[|vs| - 1];
      TitleCopies(init, s, buffer)
        + (if GetText(last.node).SomeText? && Parser.ScopeAfter(vs, s) == Title
           then buffer + Glued(Parser.OutlineBullets(init, s)) else "")
  }

  lemma {:induction false} RunScope(vs: seq<Visit>, st: State)
    ensures Walk.Run(Step, vs, st).scope == Parser.ScopeAfter(vs, st.scope)
    decreases |vs|
  {
    if |vs| > 0 {
      RunScope(vs[..|vs| - 1], st);
      Walk.RunSnoc(Step, vs, st);
    }
  }

  /** The pass touches only the scope, the buffer and the title. */
  lemma {:induction false} RunKeeps(vs: seq<Visit>, st: State)
    ensures var r := Walk.Run(Step, vs, st);
      r.slides == st.slides && r.depth == st.depth && r.slide == st.slide.(title := r.slide.title)
    decreases |vs|
  {
    if |vs| > 0 {
      RunKeeps(vs[..|vs| - 1], st);
      Walk.RunSnoc(Step, vs, st);
    }
  }

  lemma StepText(n: Node, depth: nat, st: State)
    ensures Step(n, depth, st).text
      == st.text + (if GetText(n).SomeText? && UpdateScope(n, st.scope) == Outline
                    then Spaces(depth) + n.data else "")
  {
  }

  /** What the last visit glues onto the buffer, if anything. */
  function LastGlued(vs: seq<Visit>, s: Scope): string
    requires |vs| > 0
  {
    var last := vs[|vs| - 1];
    if GetText(last.node).SomeText? && Parser.ScopeAfter(vs, s) == Outline
    then Spaces(last.depth) + last.node.data else ""
  }

  lemma RunTextStep(vs: seq<Visit>, st: State)
    requires |vs| > 0
    ensures Walk.Run(Step, vs, st).text == Walk.Run(Step, vs[..|vs| - 1], st).text + LastGlued(vs, st.scope)
  {
    var init := vs[..|vs| - 1];
    var last := vs[|vs| - 1];
    RunScope(init, st);
    Walk.RunSnoc(Step, vs, st);
    StepText(last.node, last.depth, Walk.Run(Step, init, st));
  }

  lemma GluedStep(vs: seq<Visit>, s: Scope)
    requires |vs| > 0
    ensures Glued(Parser.OutlineBullets(vs, s)) == Glued(Parser.OutlineBullets(vs[..|vs| - 1], s)) + LastGlued(vs, s)
  {
    var last := vs[|vs| - 1];
    var emitted := if GetText(last.node).SomeText? && Parser.ScopeAfter(vs, s) == Outline
      then [Slides.Bullet(last.depth, last.node.data)] else [];
    GluedAppend(Parser.OutlineBullets(vs[..|vs| - 1], s), emitted);
    if emitted != [] {
      assert Glued(emitted) == Spaces(last.depth) + last.node.data + Glued([]);
    }
  }

  /** The buffer gains every outline text after its indent, with nothing
      between them. */
  lemma {:induction false} RunText(vs: seq<Visit>, st: State)
    ensures Walk.Run(Step, vs, st).text == st.text + Glued(Parser.OutlineBullets(vs, st.scope))
    decreases |vs|
  {
    if |vs| > 0 {
      var init := vs[..|vs| - 1];
      RunText(init, st);
      RunTextStep(vs, st);
      GluedStep(vs, st.scope);
      var x := LastGlued(vs, st.scope);
      assert st.text + Glued(Parser.OutlineBullets(init, st.scope)) + x
        == st.text + (Glued(Parser.OutlineBullets(init, st.scope)) + x);
    }
  }

  /** The title gains a copy of the buffer at each title-scope text; the
      text itself never reaches it. */
  lemma {:induction false} RunTitle(vs: seq<Visit>, st: State)
    ensures Walk.Run(Step, vs, st).slide.title == st.slide.title + TitleCopies(vs, st.scope, st.text)
    decreases |vs|
  {
    if |vs| > 0 {
      var init := vs[..|vs| - 1];
      RunTitle(init, st);
      RunScope(init, st);
      RunText(init, st);
      Walk.RunSnoc(Step, vs, st);
    }
  }

  /** No title-scope text comes after an outline text. */
  predicate TitleFirst(vs: seq<Visit>, s: Scope) {
    |vs| == 0 ||
      (TitleFirst(vs[..|vs| - 1], s)
       && (GetText(vs[|vs| - 1].node).SomeText? && Parser.ScopeAfter(vs, s) == Title
           ==> Parser.OutlineBullets(vs[..|vs| - 1], s) == []))
  }

  /** With the buffer empty and the title before the outline, as on a usual
      page, the title copies nothing but empty buffers and stays `Unknown`. */
  lemma {:induction false} TitleStaysUnknown(vs: seq<Visit>, s: Scope)
    requires TitleFirst(vs, s)
    ensures TitleCopies(vs, s, "") == ""
    decreases |vs|
  {
    if |vs| > 0 {
      TitleStaysUnknown(vs[..|vs| - 1], s);
    }
  }

  /** The body of the `for page in pages` loop: a new slide, the walk from
      the depth counter as it stands, the slide stored without its text,
      the buffer (printed in the source) cleared. */
  function PageStep(page: Node, st: State): (r: State)
    ensures |r.slides| == |st.slides| + 1 && r.slides[..|st.slides|] == st.slides
    ensures r.text == "" && r.depth == st.depth
  {
    var st0 := st.(slide := NewSlide());
    var walked := Walk.HandleNode(Step, page, st.depth, st0);
    Walk.WalkIsFlatPass(Step, page, st.depth, st0);
    RunKeeps(Visits(page, st.depth), st0);
    var slides := walked.slides + [walked.slide];
    assert slides[..|st.slides|] == walked.slides;
    walked.(slides := slides, text := "")
  }

  function HandleDocument(pages: seq<Node>, st: State): (r: State)
    ensures |r.slides| == |st.slides| + |pages| && r.slides[..|st.slides|] == st.slides
    ensures r.depth == st.depth
    ensures |pages| > 0 ==> r.text == ""
    decreases |pages|
  {
    if |pages| == 0 then st
    else
      var r := HandleDocument(pages[1..], PageStep(pages[0], st));
      assert r.slides[..|st.slides|] == r.slides[..|st.slides| + 1][..|st.slides|];
      r
  }

  /** The slide a page produces: `Unknown` plus the buffer copies as its
      title, and the text, notes, media and name of a new slide. */
  lemma PageSlide(page: Node, st: State)
    ensures var r := PageStep(page, st);
      var vs := Visits(page, st.depth);
      var s := r.slides[|st.slides|];
      && s.title == UnknownTitle + TitleCopies(vs, st.scope, st.text)
      && s.text == [Nested([])] && s.notes == [] && s.media == [] && s.name == NoName
      && r.scope == Parser.ScopeAfter(vs, st.scope)
  {
    var st0 := st.(slide := NewSlide());
    var vs := Visits(page, st.depth);
    Walk.WalkIsFlatPass(Step, page, st.depth, st0);
    RunKeeps(vs, st0);
    RunScope(vs, st0);
    RunTitle(vs, st0);
  }

  /** Every slide the document yields has an empty body and no name, so
      rendering it raises instead of producing Markdown. */
  lemma {:induction false} DocumentSlidesUnrenderable(pages: seq<Node>, st: State, i: nat)
    requires i < |pages|
    ensures var s := HandleDocument(pages, st).slides[|st.slides| + i];
      Leaves(s.text, 0) == [] && GenerateMarkdown(s) == MissingName
    decreases |pages|
  {
    var next := PageStep(pages[0], st);
    PageSlide(pages[0], st);
    var r := HandleDocument(pages, st);
    assert r == HandleDocument(pages[1..], next);
    if i == 0 {
      assert r.slides[|st.slides|] == r.slides[..|next.slides|][|st.slides|];
    } else {
      DocumentSlidesUnrenderable(pages[1..], next, i - 1);
    }
  }
}
