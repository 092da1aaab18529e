# odp2md in Dafny

A model of the core of odp2md, a converter from OpenDocument presentations
(`.odp`) to Markdown. The converter reads `content.xml` and walks the tree of
each `draw:page`. On the way it collects each slide's title, its outline
bullets and its media links. Each slide is then rendered as a Markdown section.

The model has these parts:

- **Dom**: the parsed XML tree and the walk order.
  - `Element`, `Text` and every other node kind.
  - `hasAttributeWithValue` and `getTextFromNode`.
  - The node-by-node order in which the recursive walk meets the tree.
- **Scopes**: the `Scope` enum and the rule by which `presentation:class`
  changes it.
- **Strings**, **Slugs**, **Paths** and **Textwrap**: small string
  functions for the library calls the converter relies on.
  - `str.lower` and `str(n)`.
  - `slugify` with its regular expressions.
  - `os.path.splitext` and `os.path.join` (POSIX).
  - `textwrap.dedent`.
- **Slides**: the `Slide` record and `generateMarkdown`, meaning the dedent,
  the header, and one image or raw-HTML video line per media entry.
- **Parser** and **Document**: the current walker (`handleNode`) and driver
  (`handleDocument`) of `src/odp2md/parser.py`.
  - The parser's fields are an immutable state record that each function
    threads along.
  - Proved: the recursive walk is a flat pass over the visits in document
    order (`Parser.WalkIsFlatPass`).
  - That pass is also described independently: the scope after the last
    marker, the outline bullets, the title texts and the media links, each
    defined from the list of visits. Lemmas tie the walk to each of these.
  - `src/odp2md/odp2md.py` and `odp2md/__init__.py` hold copies of the same
    classes that differ only in formatting. They are modelled once, and the
    table cites them next to `parser.py`.
- **Walk**, **Pandoc** and **Juicer**: the two earlier walkers.
  - Walk is the recursion they share, generic in the per-node work.
  - `odp2pandoc.py` writes unmarked outline lines and raw links.
    `Pandoc.SameTitlesAndLinks` proves it reads the same titles and links
    as the current walker.
  - `odp-juicer.py` has a nested-list renderer, a title that copies the
    buffer, and slides that cannot be rendered.

Two behaviours of the code that a reader may not expect:

- `handleDocument` resets only the depth, the current slide and the buffer
  between pages, not the scope (`src/odp2md/parser.py:107-114`). A page that
  has no title or outline marker therefore keeps the scope of the page
  before it. `Document.DocumentScope` states this, and
  `Document.NotesAfterOutlineBecomeBullets` shows the effect on a speaker
  notes frame.
- A slug is cut to 128 characters after its index is appended. A long
  title therefore gives every media entry of a slide the same slug
  (`Parser.LongTitleLosesIndex`), so entries whose links have the same
  lower-cased extension share a destination
  (`Parser.LongTitleSharesDestination`). Below that bound the destinations
  are distinct (`Parser.DestinationsDistinct`,
  `Document.SlideDestinationsDistinct`).

## Model

| member | source | states |
|---|---|---|
| Dom.HasAttributeWithValue | src/odp2md/parser.py:25-31 | true exactly when the node has attributes (is an element) and one of them has that name and that value |
| Dom.AnyAttributeIs | src/odp2md/odp2md.py:89-95 | the loop over `attributes.items()` finds a match exactly when some attribute is that (name, value) pair |
| Dom.GetText | src/odp2md/parser.py:20-23 | yields text exactly for a text node whose data is non-empty, and then yields that data |
| Scopes.ScopeRule | src/odp2md/parser.py:65-68 | only an element changes the scope; `presentation:class` = `title` selects TITLE; otherwise `outline` selects OUTLINE; a node with neither keeps the scope |
| Slugs.Slugify | src/odp2md/parser.py:46-62 | the slug holds only `[a-z0-9_-]` and never two hyphens in a row |
| Slugs.SlugifyKeepsWordChars | src/odp2md/parser.py:61-62 | the slug keeps exactly the alphanumerics and underscores of the lower-cased ASCII title, in order |
| Slugs.SlugifyEmptyIff | src/odp2md/parser.py:56-62 | the slug is empty exactly when the ASCII part of the title has no alphanumeric, underscore or hyphen |
| Slugs.SlugifyFixesSlugs | odp2md/__init__.py:125-126 | a string that already is a slug comes back unchanged |
| Slugs.SlugifyIdempotent | src/odp2md/odp2md.py:110-126 | slugifying a slug changes nothing |
| Slugs.SlugifyJoinsWords | src/odp2md/parser.py:61-62 | two words of `[a-z0-9_]` with a run of spaces, other whitespace or hyphens between them slugify to the two words joined by one hyphen |
| Slugs.SlugifyStripsEnds | src/odp2md/parser.py:56-62 | whitespace added at the start or end of a title does not change its slug |
| Slugs.RemoveDisallowed | src/odp2md/parser.py:61 | keeps exactly the characters that are word characters, whitespace or hyphens |
| Slugs.RemoveDisallowedAppend | src/odp2md/parser.py:61 | the removal distributes over concatenation, so it keeps characters in order and with their multiplicity |
| Slugs.RemoveDisallowedChar | src/odp2md/parser.py:61 | one character is kept exactly when `[\w\s-]` matches it |
| Slugs.Strip | src/odp2md/parser.py:61 | the result has no whitespace at either end and holds only characters of the input |
| Slugs.StripIsSlice | src/odp2md/parser.py:61 | the result is a slice of the input with only whitespace before and after it |
| Slugs.StripPad | src/odp2md/parser.py:61 | whitespace added at either end does not change the result |
| Slugs.TrimStartDropsWhitespace | src/odp2md/parser.py:61 | what the leading trim removes is whitespace |
| Slugs.TrimEndDropsWhitespace | src/odp2md/parser.py:61 | what the trailing trim removes is whitespace |
| Slugs.CollapseShape | src/odp2md/parser.py:62 | every run of hyphens and whitespace becomes one hyphen: no two hyphens in a row, the word characters kept in order, and a leading run becomes a leading hyphen |
| Slugs.CollapseWord | src/odp2md/parser.py:62 | text without hyphens or whitespace is kept as it is |
| Slugs.CollapseBetween | src/odp2md/parser.py:62 | a run of hyphens and whitespace between two kept characters becomes exactly one hyphen between them |
| Slugs.AsciiOnly | src/odp2md/parser.py:56-60 | the result is the ASCII characters of the input, and an ASCII input is kept as it is |
| Slugs.AsciiOnlyAppend | src/odp2md/parser.py:56-60 | the conversion distributes over concatenation, so it keeps the ASCII characters in order and with their multiplicity |
| Slugs.AsciiOnlyChar | src/odp2md/parser.py:56-60 | one character is kept exactly when it is ASCII |
| Strings.NatToStringInjective | src/odp2md/parser.py:80 | different media counts print as different decimal strings |
| Strings.LowerChar | src/odp2md/parser.py:75 | `lower()` on one character: a capital becomes the small letter at the same place in the alphabet, anything else is kept, and word characters and whitespace stay what they were |
| Strings.LowerLetters | src/odp2md/parser.py:61 | `lower()` turns `A` to `Z` into `a` to `z`, letter by letter |
| Strings.LowerIntro | src/odp2md/parser.py:61 | a worked case: the title `Intro` lower-cases to `intro` |
| Paths.SplitExtShape | src/odp2md/parser.py:74 | a non-empty extension is one dot followed by neither a slash nor another dot, and the root's final component is not made of dots alone |
| Paths.SplitExtFindsExtension | src/odp2md/parser.py:74 | a dot in the final component with a non-dot character before it in that component yields a non-empty extension |
| Paths.Join | src/odp2md/parser.py:84 | an absolute second part replaces the directory; otherwise a slash is inserted exactly when the directory is non-empty and does not already end with one |
| Paths.JoinInjective | odp2md/__init__.py:148 | joining relative names onto one directory keeps different names apart |
| Textwrap.MarginIsLongestCommonPrefix | src/odp2md/slide.py:13 | the margin dedent removes is a common prefix of all indents and extends every other common prefix |
| Textwrap.DedentIdempotent | src/odp2md/slide.py:13 | dedenting dedented text changes nothing |
| Slides.NewSlide | src/odp2md/slide.py:5-9 | a new slide has empty title, text, notes and media |
| Slides.DedentBullets | src/odp2md/odp2md.py:49 | dedenting an outline buffer takes the smallest depth off every bullet and keeps texts, order and relative depths |
| Slides.GenerateMarkdown | src/odp2md/slide.py:11-24 | the slide is left with its text replaced by the dedented text and everything else unchanged |
| Slides.GenerateMarkdownTwice | src/odp2md/slide.py:13 | rendering again gives the same Markdown and the same slide |
| Slides.GenerateMarkdownShape | odp2md/__init__.py:48-62 | the Markdown starts with the header and the dedented text, and the rest is exactly the media lines |
| Slides.ParseMediaEmbed | src/odp2md/slide.py:17-23 | a media line reads back as raw HTML exactly for a `.mp4`/`.mkv` destination when HTML blocks are on, and as an image otherwise |
| Slides.MediaLinesRead | src/odp2md/odp2md.py:51-59 | the media lines split into exactly one line per entry, in order, each naming only its destination |
| Slides.RenderedMediaLines | src/odp2md/slide.py:14-23 | after the header and text comes one line per media entry, in order, each the embed its destination calls for |
| Slides.ToString | src/odp2md/slide.py:27-28 | `str(slide)` renders with HTML blocks on: video destinations become raw HTML, all others images |
| Parser.NewParser | src/odp2md/parser.py:12-18 | a new parser has no slides, an empty buffer, depth 0, scope NONE and the given media directory |
| Parser.InitParser | src/odp2md/parser.py:12-18 | the constructor leaves no slides, an empty buffer, depth 0, scope NONE and the media directory `media` |
| Parser.OpenSetsMediaDirectory | src/odp2md/parser.py:117 | `open` replaces only the media directory of the constructed parser; its default `"media"` gives back that parser unchanged |
| Parser.MediaSlug | src/odp2md/parser.py:77-81 | the slug is at most 128 characters, a prefix of base + `-K`, all of it when that fits and its first 128 characters when longer |
| Parser.FallbackSlug | src/odp2md/parser.py:78-80 | an empty slugified title gives `slide-N-image-K` |
| Parser.MediaSlugShape | odp2md/__init__.py:142-146 | the slug is never empty, has no dot and does not start with a slash |
| Parser.MediaSlugDeterminesIndex | src/odp2md/parser.py:80 | two uncut slugs that are equal carry the same media index, whatever their titles |
| Parser.DestinationsDistinct | src/odp2md/odp2md.py:141-148 | two media entries with uncut slugs and different indices get different destinations |
| Parser.LongTitleLosesIndex | src/odp2md/parser.py:81 | a slugified title of 127 or more characters gives every media index of a slide the same slug |
| Parser.LongTitleSharesDestination | src/odp2md/parser.py:74-84 | with such a title, two links of a slide with the same lower-cased extension get the same destination whatever their media indices |
| Parser.ShortNamesUntruncated | src/odp2md/parser.py:77-81 | a title no longer than a short one and an index no larger than the count give a slug that is not cut |
| Parser.CaptureMediaEntries | src/odp2md/parser.py:70-85 | entry j pairs link j with the destination for media index start + j; the slide's earlier entries are not renumbered |
| Parser.NodeStepMedia | src/odp2md/parser.py:70-85 | a media holder appends exactly its links, in order, to the slide's media sources; any other node appends none |
| Parser.NodeStepMediaNamed | src/odp2md/parser.py:70-85 | the entry for a holder's link j is named from the slide's title so far, the number of finished slides and the media count before the node plus j |
| Parser.HandleNode | src/odp2md/parser.py:64-101 | the depth comes back to its value on entry |
| Parser.WalkExtends | src/odp2md/parser.py:64-101 | the walk only appends to the buffer, the title and the media list, and leaves the finished slides, the media directory and the slide's text and notes alone |
| Parser.HandleChildren | odp2md/__init__.py:162-165 | the child loop restores the depth |
| Parser.WalkIsFlatPass | src/odp2md/parser.py:98-101 | the recursive walk equals one pass over the nodes in document order, each at its distance below the start |
| Parser.ChildrenAreFlatPass | src/odp2md/odp2md.py:162-165 | the child loop equals one pass over the children's subtrees one level deeper |
| Parser.RunScope | odp2md/__init__.py:130-133 | after a pass the scope is that of the last marker visited, or the starting scope |
| Parser.RunText | src/odp2md/parser.py:87-96 | the buffer gains `" "*D + "- " + t + "\n"` for each non-empty text in outline scope, in order, and nothing else |
| Parser.RunTitle | src/odp2md/odp2md.py:153-157 | the title gains every non-empty text met in title scope, in order |
| Parser.RunMedia | src/odp2md/odp2md.py:134-149 | the media list gains the links of the image and plugin elements, in order |
| Parser.RunMediaEntries | src/odp2md/parser.py:70-93 | a pass appends, for each holder in order, its links paired with destinations named from the title gathered before that holder, the slide index and the running media count |
| Parser.MediaEntryNamed | src/odp2md/parser.py:77-84 | entry k of those is named from the title as it stood at some earlier holder visit and from media index start + k |
| Parser.FreshSlideEntryNamed | src/odp2md/parser.py:77-84 | on a fresh slide, entry k is the destination for its link, index k and the title texts met before some holder |
| Parser.FreshEntriesDistinct | src/odp2md/parser.py:77-84 | on a fresh slide whose final title and media count give uncut slugs, different entries have different destinations |
| Parser.UntitledEntries | src/odp2md/parser.py:78-84 | on a fresh slide without title texts, entry k is `slide-N-image-K` plus the lower-cased extension under the media directory |
| Parser.UntitledDestination | src/odp2md/parser.py:78-84 | with an empty title the slug falls back to `slide-N-image`, so media K goes to `slide-N-image-K` plus the lower-cased extension under the media directory |
| Parser.TitleTextPrefix | src/odp2md/parser.py:92-93 | the title gathered before any visit is a prefix of the final title |
| Parser.RunKeeps | odp2md/__init__.py:128-165 | a pass keeps the finished slides, the media directory, and the slide's text and notes |
| Document.PageStep | src/odp2md/parser.py:107-114 | one page adds exactly one slide after the kept earlier ones and leaves the buffer empty and the depth 0 |
| Document.HandleDocument | src/odp2md/parser.py:103-114 | one slide per page, earlier slides kept; buffer empty and depth 0 after a non-empty document; nothing changes for none |
| Document.PageSlide | src/odp2md/parser.py:108-112 | a page's slide has the title texts as title, the buffer's bullets as text, empty notes and the page's links, and the scope carries over |
| Document.PageMedia | src/odp2md/parser.py:70-112 | a page's slide holds exactly the page's entries, numbered from 0 and named with the page's slide index |
| Document.SlideMediaNamed | src/odp2md/parser.py:77-84 | media entry k of a page's slide is the destination for its link, the number of earlier slides, index k and the title texts met before some holder of the page |
| Document.SlideDestinationsDistinct | src/odp2md/parser.py:77-84 | two media entries of one slide get different destinations when its title and media count give uncut slugs |
| Document.UntitledSlideMedia | src/odp2md/parser.py:78-80 | an untitled slide names media entry k `slide-N-image-K` plus the lower-cased extension, N being the number of earlier slides |
| Document.HandleDocumentAppend | src/odp2md/odp2md.py:171-178 | handling pages a then b is handling a, then b from where a left off |
| Document.DocumentSlide | src/odp2md/odp2md.py:167-178 | slide i is the slide of page i walked from the state the earlier pages left |
| Document.DocumentScope | odp2md/__init__.py:168-180 | the scope after a document is that of the last marker over all pages: it is never reset |
| Document.PageMarkdown | src/odp2md/slide.py:13-14 | a page's Markdown is the header, the outline bullets shifted so the shallowest is at the margin, a blank line, and the media lines |
| Document.PageToSlide | src/odp2md/parser.py:103-112 | a page with a title frame and a two-item outline list gives a slide with that title and two bullets at depth 5 |
| Document.PageToMarkdown | src/odp2md/slide.py:11-24 | that page renders as `## t`, a blank line, `- a`, `- b` and a blank line |
| Document.NotesAfterOutlineBecomeBullets | src/odp2md/parser.py:103-114 | a notes frame on the page after an outline comes out as a bullet of the second slide's text, and its notes stay empty |
| Walk.WalkIsFlatPass | odp2pandoc.py:125-128 | for any per-node work, the recursive walk equals one pass over the visits in document order |
| Walk.ChildrenAreFlatPass | odp-juicer.py:131-134 | for any per-node work, the child loop equals one pass over the children's subtrees one level deeper |
| Pandoc.NewSlide | odp2pandoc.py:41-45 | a new slide is empty |
| Pandoc.NewParser | odp2pandoc.py:65-70 | a new parser has no slides, an empty buffer, depth 0 and scope NONE |
| Pandoc.RunScope | odp2pandoc.py:99-107 | the scope after a pass is that of the last marker, as in the current walker |
| Pandoc.RunText | odp2pandoc.py:115-123 | the buffer gains `" "*D + t + "\n"`, with no bullet marker, for the current walker's outline bullets |
| Pandoc.RunTitle | odp2pandoc.py:120-121 | the title gains the same title texts as in the current walker |
| Pandoc.RunMedia | odp2pandoc.py:109-112 | the media list gains the raw links of image and plugin elements, in order |
| Pandoc.RunKeeps | odp2pandoc.py:97-128 | a pass keeps the finished slides, the depth, and the slide's text and notes |
| Pandoc.PageStep | odp2pandoc.py:135-143 | one page adds exactly one slide after the kept earlier ones and leaves the buffer empty and the depth 0 |
| Pandoc.HandleDocument | odp2pandoc.py:131-143 | one slide per page, earlier slides kept, buffer empty and depth 0 afterwards |
| Pandoc.PageSlide | odp2pandoc.py:137-141 | a page's slide has the title texts, unmarked outline lines as text, empty notes and the raw links |
| Pandoc.SameTitlesAndLinks | odp2pandoc.py:97-143 | on the same pages this walker and the current one keep the same scope and give every slide the same title and media links |
| Pandoc.ImageLinesAsCurrent | odp2pandoc.py:49-50 | the image lines are the current renderer's media lines with HTML blocks off, taking each link as its destination |
| Pandoc.RenderedLines | odp2pandoc.py:47-51 | the Markdown is the header and the undedented buffer, then one image line per link, in order |
| Juicer.Leaves | odp-juicer.py:52-57 | every value of a nested list sits at least at the starting level |
| Juicer.BodyIsEntryLines | odp-juicer.py:50-58 | the body is one tab-indented `- v` line per value, in reading order, at its nesting level |
| Juicer.BodyLines | odp-juicer.py:52-57 | split into lines, the body has exactly one line per value and nothing after the last line feed |
| Juicer.EmptyBody | odp-juicer.py:45 | a list without values, such as `[[]]`, renders as the empty string |
| Juicer.NewSlide | odp-juicer.py:43-47 | a new slide has title `Unknown`, text `[[]]`, empty notes and media, and no name |
| Juicer.GenerateMarkdown | odp-juicer.py:60-66 | rendering fails exactly when the slide has no name |
| Juicer.NamedSlideMarkdown | odp-juicer.py:62-64 | a named slide renders as `## name` followed by one line per value of its text |
| Juicer.NewJuicer | odp-juicer.py:79-85 | a new juicer has no slides, an empty buffer, depth 0 and scope NONE |
| Juicer.RunScope | odp-juicer.py:114-120 | the scope after a pass is that of the last marker, as in the current walker |
| Juicer.RunText | odp-juicer.py:125-126 | the buffer gains `" "*D + t` per outline text with no separator, glued in the current walker's bullet order |
| Juicer.RunTitle | odp-juicer.py:127-128 | at each title-scope text the title gains the buffer as it stands then, not the text |
| Juicer.RunKeeps | odp-juicer.py:112-134 | a pass keeps the finished slides, the depth, and the slide's text, notes, media and name |
| Juicer.TitleStaysUnknown | odp-juicer.py:127-128 | with an empty buffer and the title before the outline, the title gains nothing and stays `Unknown` |
| Juicer.PageStep | odp-juicer.py:141-147 | one page adds exactly one slide, empties the buffer and keeps the depth counter (it is never reset) |
| Juicer.HandleDocument | odp-juicer.py:137-147 | one slide per page, earlier slides kept, buffer empty afterwards, depth as before |
| Juicer.PageSlide | odp-juicer.py:142-144 | a page's slide is a new slide whose title gained the buffer copies; its text is never set |
| Juicer.DocumentSlidesUnrenderable | odp-juicer.py:137-147 | every slide of a document has an empty body and no name, so rendering it fails |

## Left out

- Reading the archive and extracting media (`Parser.open`): ZIP access, `print`, `extract`, `makedirs` and `rename` are file I/O. So is the `KeyError` report for a missing archive entry.
- XML parsing and `getElementsByTagName("draw:page")`: `minidom` is not part of this model. A document is given as the sequence of its page trees in document order.
- `handlePage` and `debugNode`: nothing calls them.
- Slugs.AsciiOnly: drops every non-ASCII character instead of first applying the Unicode NFKD decomposition. Unicode tables are not part of this model, so an accented letter is lost rather than kept as its base letter.
- Slugs.Slugify: only the `allow_unicode=False` branch, because no caller passes the flag.
- Parser.MediaDestination: lower-cases the extension with ASCII case mapping only. Python's `ext.lower()` (src/odp2md/parser.py:75) also lower-cases non-ASCII letters, and Unicode case tables are not part of this model.
- Paths.Join and Paths.SplitExt: POSIX semantics only.
- Slides.RenderedMediaLines: stated for destinations without line feeds. A line feed inside a destination would split one media line into two.
- Slides.ToString: its per-line reading is stated for destinations without line feeds, for the same reason.
- Pandoc.RenderedLines: stated for links without line feeds. A line feed inside a link would split one image line into two.
- Slides.DedentBullets: stated for bullet texts without line feeds. A line feed inside a text would start a new line that dedent measures on its own.
- Document.PageMarkdown: stated for pages whose texts and links have no line feeds, for the same two reasons.
- The `print` of a title in the IMAGES scope of `odp2pandoc.py` is output only. No marker ever selects that scope.
- The `print` of the buffer in `odp-juicer.py` is output only, and the juicer's unused `doc` field is left out. The juicer's `Scope` has no IMAGES member, and the shared scope type is used for it.
- The command line and packaging are not modelled: `src/odp2md/app.py`, `src/odp2md/__main__.py`, `setup.py`, and the `App`/`main` code of the other files. The `--blocks` option is parsed but never forwarded (src/odp2md/app.py:60-64, 82), so rendering always runs with HTML blocks on.
- Node kinds other than elements and text nodes are one constructor, `Other`. The walker never matches them.
