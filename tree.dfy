/** Option, the stock "value or nothing" wrapper used for absent fields and not-found results. */
module Wrappers {
  datatype Option<+T> = None | Some(value: T)
}

/**
 * The import-time profile tree that every operation of the analysis engine works on.
 *
 * A profile node carries a list of display labels, an optional self-time and, once the
 * aggregator has run, a cumulative total. A node that has a list of children (even an
 * empty one) is internal; a node without one is a leaf. The two cases are the two
 * constructors of `Node`.
 */
module ProfileTree {
  import opened Wrappers

  /** The display labels of a node: one or more, the first being the node's name. */
  type Labels = t: seq<string> | |t| >= 1 witness [""]

  datatype Node =
    | Leaf(text: Labels, value: Option<real>, totalTime: Option<real>)
    | Internal(text: Labels, value: Option<real>, children: seq<Node>, totalTime: Option<real>)

  /** The identifying name of a node, its first label. */
  function Name(n: Node): string
  {
    n.text[0]
  }

  /** The node's own duration; a node without a recorded value counts as 0. */
  function SelfTime(n: Node): real
  {
    if n.value.Some? then n.value.value else 0.0
  }

  /** The cumulative total of a node; only read on nodes the aggregator has annotated. */
  function Total(n: Node): real
  {
    if n.totalTime.Some? then n.totalTime.value else 0.0
  }

  /** Number of nodes in a subtree, and in a sequence of subtrees. */
  function Size(n: Node): nat
  {
    match n
    case Leaf(_, _, _) => 1
    case Internal(_, _, cs, _) => 1 + ForestSize(cs)
  }

  function ForestSize(q: seq<Node>): nat
  {
    if q == [] then 0 else Size(q[0]) + ForestSize(q[1..])
  }

  lemma {:induction false} ForestSizeAppend(p: seq<Node>, q: seq<Node>)
    ensures ForestSize(p + q) == ForestSize(p) + ForestSize(q)
  {
    if p == [] {
      assert p + q == q;
    } else {
      assert (p + q)[0] == p[0] && (p + q)[1..] == p[1..] + q;
      ForestSizeAppend(p[1..], q);
    }
  }

  /** Dequeuing the head of a queue and enqueuing its children leaves fewer nodes to visit. */
  lemma ForestSizeExpand(q: seq<Node>)
    requires q != []
    ensures ForestSize(q[1..]) < ForestSize(q)
    ensures q[0].Internal? ==> ForestSize(q[1..] + q[0].children) < ForestSize(q)
  {
    if q[0].Internal? {
      ForestSizeAppend(q[1..], q[0].children);
    }
  }

  /**
   * A small raw profile used by the worked examples: a root with a leaf `A` (0.1) and
   * an internal node `B` (0.5) whose only child is the leaf `C` (0.2).
   */
  function ExampleTree(): Node
  {
    Internal(["root"], None, [
      Leaf(["A"], Some(0.1), None),
      Internal(["B"], Some(0.5), [Leaf(["C"], Some(0.2), None)], None)
    ], None)
  }

  /** `d` lies strictly below `a`: it is a child of `a` or lies below one of its children. */
  ghost predicate StrictlyBelow(d: Node, a: Node)
  {
    a.Internal? && exists c :: c in a.children && (d == c || StrictlyBelow(d, c))
  }

  /** The tree with every cumulative total erased: what the raw profile looked like. */
  function Strip(n: Node): Node
  {
    match n
    case Leaf(t, v, _) => Leaf(t, v, None)
    case Internal(t, v, cs, _) => Internal(t, v, StripAll(cs), None)
  }

  function StripAll(cs: seq<Node>): (r: seq<Node>)
    ensures |r| == |cs|
  {
    if cs == [] then [] else [Strip(cs[0])] + StripAll(cs[1..])
  }

  lemma {:induction false} StripAllAt(cs: seq<Node>, i: nat)
    requires i < |cs|
    ensures StripAll(cs)[i] == Strip(cs[i])
  {
    if i > 0 {
      StripAllAt(cs[1..], i - 1);
    }
  }

  /** Two sequences strip alike exactly when they strip alike element by element. */
  lemma StripAllPointwise(a: seq<Node>, b: seq<Node>)
    requires |a| == |b|
    ensures StripAll(a) == StripAll(b) <==> forall i :: 0 <= i < |a| ==> Strip(a[i]) == Strip(b[i])
  {
    forall i | 0 <= i < |a|
      ensures StripAll(a)[i] == Strip(a[i]) && StripAll(b)[i] == Strip(b[i])
    {
      StripAllAt(a, i);
      StripAllAt(b, i);
    }
  }
}
