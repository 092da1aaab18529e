/** The recursion the two earlier walkers (odp2pandoc.py and odp-juicer.py)
    share: visit a node, then each child one level deeper, the depth counter
    restored after each child. The per-node work is a parameter; the depth
    counter is the walk's own parameter, which makes "restored after each
    child" hold by construction. */
module Walk {
  import opened Dom

  /** `handleNode(node)` for a walker whose per-node work is `step`. */
  function HandleNode<S>(step: (Node, nat, S) -> S, n: Node, depth: nat, s: S): S
    decreases n
  {
    var s1 := step(n, depth, s);
    if n.Element? then HandleChildren(step, n.children, depth + 1, s1) else s1
  }

  function HandleChildren<S>(step: (Node, nat, S) -> S, cs: seq<Node>, depth: nat, s: S): S
    decreases cs
  {
    if |cs| == 0 then s else HandleChildren(step, cs[1..], depth, HandleNode(step, cs[0], depth, s))
  }

  /** The same work done over a flat list of visits. */
  function Run<S>(step: (Node, nat, S) -> S, vs: seq<Visit>, s: S): S {
    if |vs| == 0 then s else Run(step, vs[1..], step(vs[0].node, vs[0].depth, s))
  }

  lemma {:induction false} RunAppend<S>(step: (Node, nat, S) -> S, a: seq<Visit>, b: seq<Visit>, s: S)
    ensures Run(step, a + b, s) == Run(step, b, Run(step, a, s))
    decreases |a|
  {
    if |a| > 0 {
      assert (a + b)[1..] == a[1..] + b;
      RunAppend(step, a[1..], b, step(a[0].node, a[0].depth, s));
    } else {
      assert a + b == b;
    }
  }

  lemma RunSnoc<S>(step: (Node, nat, S) -> S, vs: seq<Visit>, s: S)
    requires |vs| > 0
    ensures Run(step, vs, s) == step(vs[|vs| - 1].node, vs[|vs| - 1].depth, Run(step, vs[..|vs| - 1], s))
  {
    assert vs == vs[..|vs| - 1] + [vs[|vs| - 1]];
    RunAppend(step, vs[..|vs| - 1], [vs[|vs| - 1]], s);
  }

  /** The recursive walk does the per-node work once per node, in document
      order, each at its distance below the start plus the starting depth. */
  lemma {:induction false} WalkIsFlatPass<S>(step: (Node, nat, S) -> S, n: Node, depth: nat, s: S)
    ensures HandleNode(step, n, depth, s) == Run(step, Visits(n, depth), s)
    decreases n
  {
    if n.Element? {
      ChildrenAreFlatPass(step, n.children, depth + 1, step(n, depth, s));
    }
  }

  lemma {:induction false} ChildrenAreFlatPass<S>(step: (Node, nat, S) -> S, cs: seq<Node>, depth: nat, s: S)
    ensures HandleChildren(step, cs, depth, s) == Run(step, VisitsAll(cs, depth), s)
    decreases cs
  {
    if |cs| > 0 {
      WalkIsFlatPass(step, cs[0], depth, s);
      ChildrenAreFlatPass(step, cs[1..], depth, HandleNode(step, cs[0], depth, s));
      RunAppend(step, Visits(cs[0], depth), VisitsAll(cs[1..], depth), s);
    }
  }
}
