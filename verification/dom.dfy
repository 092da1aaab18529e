/** The parsed `content.xml` tree as the walker sees it through
    `xml.dom.minidom`: elements with their attributes in document order,
    text nodes, and every other node kind (comments, CDATA sections,
    processing instructions), which the walker never matches. */
module Dom {

  type Attribute = (string, string)

  datatype Node =
    | Element(name: string, attrs: seq<Attribute>, children: seq<Node>)
    | Text(data: string)
    | Other

  /** `node.childNodes`. */
  function ChildNodes(n: Node): seq<Node> {
    if n.Element? then n.children else []
  }

  /** `Parser.hasAttributeWithValue`: a node without attributes (anything but
      an element, `attributes == None`) never matches; otherwise some
      attribute has exactly this name and this value. */
  function HasAttributeWithValue(n: Node, name: string, value: string): (r: bool)
    ensures r <==> n.Element? && exists i :: 0 <= i < |n.attrs| && n.attrs[i] == (name, value)
  {
    n.Element? && AnyAttributeIs(n.attrs, name, value)
  }

  /** The `for` loop of `hasAttributeWithValue` over `attributes.items()`. */
  function AnyAttributeIs(attrs: seq<Attribute>, name: string, value: string): (r: bool)
    ensures r <==> exists i :: 0 <= i < |attrs| && attrs[i] == (name, value)
  {
    if |attrs| == 0 then false
    else if attrs[0].0 == name && attrs[0].1 == value then true
    else
      var r := AnyAttributeIs(attrs[1..], name, value);
      assert r <==> exists i :: 1 <= i < |attrs| && attrs[i] == (name, value) by {
        forall i | 1 <= i < |attrs| ensures attrs[i] == attrs[1..][i - 1] { }
      }
      r
  }

  datatype MaybeText = NoText | SomeText(value: string)

  /** `Parser.getTextFromNode`: the data of a text node, when not empty. */
  function GetText(n: Node): (r: MaybeText)
    ensures r.SomeText? <==> n.Text? && |n.data| > 0
    ensures r.SomeText? ==> r.value == n.data
  {
    if n.Text? && |n.data| > 0 then SomeText(n.data) else NoText
  }

  /** `node.nodeName in ["draw:image", "draw:plugin"]`. */
  predicate IsMediaHolder(n: Node) {
    n.Element? && (n.name == "draw:image" || n.name == "draw:plugin")
  }

  /** The value of every `xlink:href` attribute, in attribute order. */
  function Hrefs(attrs: seq<Attribute>): seq<string> {
    if |attrs| == 0 then []
    else (if attrs[0].0 == "xlink:href" then [attrs[0].1] else []) + Hrefs(attrs[1..])
  }

  /** A node reached by the walk, with the depth it is reached at. */
  datatype Visit = Visit(node: Node, depth: nat)

  /** The walk order: the node itself at `depth`, then each child's subtree in
      document order, one level deeper. */
  function Visits(n: Node, depth: nat): (r: seq<Visit>)
    ensures |r| >= 1 && r[0] == Visit(n, depth)
    decreases n
  {
    if n.Element? then [Visit(n, depth)] + VisitsAll(n.children, depth + 1) else [Visit(n, depth)]
  }

  function VisitsAll(cs: seq<Node>, depth: nat): seq<Visit>
    decreases cs
  {
    if |cs| == 0 then [] else Visits(cs[0], depth) + VisitsAll(cs[1..], depth)
  }
}
