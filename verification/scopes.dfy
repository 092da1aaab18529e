/** `Scope` (src/odp2md/scope.py) and the rule by which a node's
    `presentation:class` attribute changes it. */
module Scopes {
  import opened Dom

  datatype Scope = None | Title | Outline | Notes | Images

  /** The node carries a `presentation:class` the walker reacts to. */
  predicate IsMarker(n: Node) {
    HasAttributeWithValue(n, "presentation:class", "title")
      || HasAttributeWithValue(n, "presentation:class", "outline")
  }

  /** The scope a marker selects; `title` wins if a node carried both. */
  function MarkedScope(n: Node): (s: Scope)
    requires IsMarker(n)
    ensures s == Title || s == Outline
  {
    if HasAttributeWithValue(n, "presentation:class", "title") then Title else Outline
  }

  /** The first statement of `handleNode`: a marker sets the scope, any
      other node (including one without attributes) keeps it. */
  function UpdateScope(n: Node, s: Scope): Scope {
    if IsMarker(n) then MarkedScope(n) else s
  }

  /** A `presentation:class` attribute whose value selects a scope. */
  predicate IsClassMarker(a: Attribute) {
    a.0 == "presentation:class" && (a.1 == "title" || a.1 == "outline")
  }

  /** The scope rule in terms of the node's attributes: only an element can
      change the scope; a `presentation:class` of exactly `title` selects the
      title scope, otherwise one of exactly `outline` selects the outline
      scope, and a node carrying neither keeps the scope it found. */
  lemma ScopeRule(n: Node, s: Scope)
    ensures UpdateScope(n, s) != s ==> n.Element?
    ensures (n.Element? && exists i :: 0 <= i < |n.attrs| && n.attrs[i] == ("presentation:class", "title"))
      ==> UpdateScope(n, s) == Title
    ensures (n.Element? && exists i :: 0 <= i < |n.attrs| && n.attrs[i] == ("presentation:class", "outline"))
      && !(exists i :: 0 <= i < |n.attrs| && n.attrs[i] == ("presentation:class", "title"))
      ==> UpdateScope(n, s) == Outline
    ensures !(n.Element? && exists i :: 0 <= i < |n.attrs| && IsClassMarker(n.attrs[i]))
      ==> UpdateScope(n, s) == s
  {
  }
}
