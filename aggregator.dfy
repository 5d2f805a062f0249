/**
 * The aggregator, `calculate_total_time`: a post-order walk that annotates every node
 * with its cumulative total (own value plus the totals of its children) and returns the
 * root's total.
 *
 * The source mutates the unshared tree in place; here the walk returns the annotated
 * tree. `Strip` (erase every total) says that nothing but the totals changed.
 */
module Aggregator {
  import opened Wrappers
  import opened ProfileTree

  /** Sum of the totals of a sequence of sibling nodes. */
  function SumTotals(cs: seq<Node>): real
  {
    if cs == [] then 0.0 else Total(cs[0]) + SumTotals(cs[1..])
  }

  /** What the loop over the children adds to the node's own value. */
  function ChildTotals(n: Node): real
  {
    match n
    case Leaf(_, _, _) => 0.0
    case Internal(_, _, cs, _) => SumTotals(cs)
  }

  /**
   * The summation invariant: every node of the subtree carries a total equal to its
   * own value plus the totals of its children (just its value for a leaf).
   */
  ghost predicate Aggregated(n: Node)
  {
    n.totalTime == Some(SelfTime(n) + ChildTotals(n)) &&
    (n.Internal? ==> forall c :: c in n.children ==> Aggregated(c))
  }

  /** Independent reference: the sum of the self-times of every node in a subtree. */
  function SubtreeValue(n: Node): real
  {
    match n
    case Leaf(_, _, _) => SelfTime(n)
    case Internal(_, _, cs, _) => SelfTime(n) + ForestValue(cs)
  }

  function ForestValue(q: seq<Node>): real
  {
    if q == [] then 0.0 else SubtreeValue(q[0]) + ForestValue(q[1..])
  }

  lemma {:induction false} SumTotalsAppend(p: seq<Node>, q: seq<Node>)
    ensures SumTotals(p + q) == SumTotals(p) + SumTotals(q)
  {
    if p == [] {
      assert p + q == q;
    } else {
      assert (p + q)[0] == p[0] && (p + q)[1..] == p[1..] + q;
      SumTotalsAppend(p[1..], q);
    }
  }

  lemma {:induction false} ForestValueAppend(p: seq<Node>, q: seq<Node>)
    ensures ForestValue(p + q) == ForestValue(p) + ForestValue(q)
  {
    if p == [] {
      assert p + q == q;
    } else {
      assert (p + q)[0] == p[0] && (p + q)[1..] == p[1..] + q;
      ForestValueAppend(p[1..], q);
    }
  }

  /** One round of the aggregation loop: adding the next child keeps the running sum equal to the value of the children so far. */
  lemma AppendAggregatedChild(done: seq<Node>, cs: seq<Node>, i: nat, child: Node)
    requires i < |cs| && |done| == i
    requires SumTotals(done) == ForestValue(cs[..i])
    requires Total(child) == SubtreeValue(cs[i])
    ensures SumTotals(done + [child]) == SumTotals(done) + Total(child)
    ensures SumTotals(done + [child]) == ForestValue(cs[..i + 1])
  {
    SumTotalsAppend(done, [child]);
    ForestValueAppend(cs[..i], [cs[i]]);
    assert cs[..i + 1] == cs[..i] + [cs[i]];
  }

  /**
   * `calculate_total_time`: annotates every node of the subtree with its cumulative
   * total and returns the annotated subtree together with the root's total.
   */
  method CalculateTotalTime(node: Node) returns (updated: Node, total: real)
    ensures Strip(updated) == Strip(node)
    ensures Aggregated(updated)
    ensures updated.totalTime == Some(total)
    ensures total == SubtreeValue(node)
    decreases node
  {
    match node
    case Leaf(t, v, _) =>
      total := SelfTime(node);
      updated := Leaf(t, v, Some(total));
    case Internal(t, v, cs, _) =>
      total := SelfTime(node);
      var done: seq<Node> := [];
      for i := 0 to |cs|
        invariant |done| == i
        invariant forall j :: 0 <= j < i ==> Strip(done[j]) == Strip(cs[j]) && Aggregated(done[j])
        invariant total == SelfTime(node) + SumTotals(done)
        invariant SumTotals(done) == ForestValue(cs[..i])
      {
        var child, childTotal := CalculateTotalTime(cs[i]);
        AppendAggregatedChild(done, cs, i, child);
        done := done + [child];
        total := total + childTotal;
      }
      assert cs[..|cs|] == cs;
      StripAllPointwise(done, cs);
      updated := Internal(t, v, done, Some(total));
      assert forall c :: c in done ==> Aggregated(c);
  }

  /** On an aggregated tree every total is the sum of all self-times in its subtree. */
  lemma {:induction false} AggregatedTotalIsSubtreeValue(n: Node)
    requires Aggregated(n)
    ensures n.totalTime == Some(SubtreeValue(n))
    decreases n, 1
  {
    if n.Internal? {
      AggregatedForestSum(n.children);
    }
  }

  lemma {:induction false} AggregatedForestSum(q: seq<Node>)
    requires forall c :: c in q ==> Aggregated(c)
    ensures SumTotals(q) == ForestValue(q)
    decreases q, 0
  {
    if q != [] {
      AggregatedTotalIsSubtreeValue(q[0]);
      AggregatedForestSum(q[1..]);
    }
  }

  /**
   * The annotation is determined by the raw tree: two aggregated trees that agree once
   * totals are erased are equal. Hence running the aggregator a second time on its own
   * output (whose stripped form is unchanged) reproduces that output exactly.
   */
  lemma {:induction false} AggregationIsUnique(a: Node, b: Node)
    requires Aggregated(a) && Aggregated(b)
    requires Strip(a) == Strip(b)
    ensures a == b
    decreases a
  {
    match a
    case Leaf(_, _, _) =>
    case Internal(_, _, ca, _) =>
      var cb := b.children;
      StripAllPointwise(ca, cb);
      forall i | 0 <= i < |ca|
        ensures ca[i] == cb[i]
      {
        assert ca[i] in ca && cb[i] in cb;
        AggregationIsUnique(ca[i], cb[i]);
      }
      assert ca == cb;
  }

  /** Every self-time in the subtree is non-negative (what the profile loader produces). */
  ghost predicate NonNegative(n: Node)
  {
    SelfTime(n) >= 0.0 && (n.Internal? ==> forall c :: c in n.children ==> NonNegative(c))
  }

  lemma {:induction false} SumTotalsBounds(q: seq<Node>)
    requires forall c :: c in q ==> Total(c) >= 0.0
    ensures SumTotals(q) >= 0.0
    ensures forall c :: c in q ==> Total(c) <= SumTotals(q)
  {
    if q != [] {
      assert forall c :: c in q[1..] ==> c in q;
      SumTotalsBounds(q[1..]);
    }
  }

  /**
   * With non-negative values, a node's total is non-negative and at least the total
   * of each of its children.
   */
  lemma {:induction false} TotalDominatesChildren(n: Node)
    requires Aggregated(n) && NonNegative(n)
    ensures Total(n) >= 0.0
    ensures n.Internal? ==> forall c :: c in n.children ==> Total(c) <= Total(n)
    decreases n
  {
    if n.Internal? {
      forall c | c in n.children
        ensures Total(c) >= 0.0
      {
        TotalDominatesChildren(c);
      }
      SumTotalsBounds(n.children);
    }
  }

  /** Running the aggregator twice yields the same tree and the same total. */
  method AggregateTwice(node: Node) returns (first: Node, second: Node, firstTotal: real, secondTotal: real)
    ensures first == second && firstTotal == secondTotal
    ensures first.totalTime == Some(SubtreeValue(node))
  {
    first, firstTotal := CalculateTotalTime(node);
    second, secondTotal := CalculateTotalTime(first);
    AggregationIsUnique(first, second);
  }
}
