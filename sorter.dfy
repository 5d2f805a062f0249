/**
 * The sorter, `sort_nodes_by_total_time`: every internal node's children are put in
 * descending order of cumulative total, stably, level by level.
 *
 * `StableSortDesc` stands for the language's built-in stable sort called with the total
 * as key and reverse order; `SortedTree` is the specification of the whole walk and
 * `SortNodesByTotalTime` the walk itself, which orders a node's children first and then
 * descends into them.
 */
module Sorter {
  import opened Wrappers
  import opened ProfileTree
  import opened Aggregator

  /** Descending by total: no later element has a larger total than an earlier one. */
  predicate NonIncreasing(s: seq<Node>)
  {
    forall i, j :: 0 <= i < j < |s| ==> Total(s[i]) >= Total(s[j])
  }

  /**
   * Puts `x` in front of the first element whose total is at most its own, so that
   * `x` precedes the elements of `s` with an equal total.
   */
  function Insert(x: Node, s: seq<Node>): (r: seq<Node>)
    ensures |r| == |s| + 1
    ensures multiset(r) == multiset(s) + multiset{x}
    ensures forall y :: y in r <==> y == x || y in s
    ensures r != [] && (r[0] == x || (s != [] && r[0] == s[0]))
  {
    if s == [] || Total(s[0]) <= Total(x) then [x] + s
    else
      var rest := Insert(x, s[1..]);
      assert s == [s[0]] + s[1..];
      [s[0]] + rest
  }

  /** The stable descending sort by total applied to a node's children. */
  function StableSortDesc(s: seq<Node>): (r: seq<Node>)
    ensures |r| == |s|
    ensures forall x :: x in r ==> x in s
    ensures NonIncreasing(r)
  {
    if s == [] then []
    else
      assert s == [s[0]] + s[1..];
      InsertKeepsOrder(s[0], StableSortDesc(s[1..]));
      Insert(s[0], StableSortDesc(s[1..]))
  }

  lemma {:induction false} InsertKeepsOrder(x: Node, s: seq<Node>)
    requires NonIncreasing(s)
    ensures NonIncreasing(Insert(x, s))
  {
    var r := Insert(x, s);
    if s == [] || Total(s[0]) <= Total(x) {
      assert r == [x] + s;
      forall i, j | 0 <= i < j < |r|
        ensures Total(r[i]) >= Total(r[j])
      {
        if i == 0 {
          assert Total(x) >= Total(s[0]) >= Total(s[j - 1]);
        } else {
          assert r[i] == s[i - 1] && r[j] == s[j - 1];
        }
      }
    } else {
      var rest := Insert(x, s[1..]);
      assert r == [s[0]] + rest;
      InsertKeepsOrder(x, s[1..]);
      assert Total(s[0]) >= Total(rest[0]) by {
        if rest[0] != x {
          assert s[1..] != [] && rest[0] == s[1];
        }
      }
      forall i, j | 0 <= i < j < |r|
        ensures Total(r[i]) >= Total(r[j])
      {
        if i == 0 {
          assert r[j] == rest[j - 1];
          if j > 1 {
            assert Total(rest[0]) >= Total(rest[j - 1]);
          }
        } else {
          assert r[i] == rest[i - 1] && r[j] == rest[j - 1];
        }
      }
    }
  }

  /** The sort is a permutation: every child is kept, as often as it occurred. */
  lemma {:induction false} SortIsPermutation(s: seq<Node>)
    ensures multiset(StableSortDesc(s)) == multiset(s)
  {
    if s != [] {
      SortIsPermutation(s[1..]);
      assert s == [s[0]] + s[1..];
    }
  }

  /** The subsequence of `s` whose elements have total `t`, in their original order. */
  function WithTotal(s: seq<Node>, t: real): seq<Node>
  {
    if s == [] then []
    else (if Total(s[0]) == t then [s[0]] else []) + WithTotal(s[1..], t)
  }

  lemma {:induction false} InsertIsStable(x: Node, s: seq<Node>, t: real)
    requires NonIncreasing(s)
    ensures WithTotal(Insert(x, s), t) == WithTotal([x] + s, t)
  {
    if s == [] || Total(s[0]) <= Total(x) {
    } else {
      // s[0] is strictly larger than x, so it comes first either way.
      InsertIsStable(x, s[1..], t);
      var r := Insert(x, s);
      assert r[0] == s[0] && r[1..] == Insert(x, s[1..]);
      assert ([x] + s)[1..] == s;
      assert ([x] + s[1..])[1..] == s[1..];
      if Total(x) == t {
        // s[0] is not selected; nor is any element of s[1..] larger than t.
        assert WithTotal(r, t) == WithTotal(Insert(x, s[1..]), t);
        assert WithTotal([x] + s, t) == [x] + WithTotal(s, t);
        assert WithTotal(s, t) == WithTotal(s[1..], t);
        assert WithTotal([x] + s[1..], t) == [x] + WithTotal(s[1..], t);
      } else {
        assert WithTotal([x] + s, t) == WithTotal(s, t);
        assert WithTotal([x] + s[1..], t) == WithTotal(s[1..], t);
      }
    }
  }

  /** Stability: among children with equal totals, the sort keeps their input order. */
  lemma {:induction false} SortIsStable(s: seq<Node>, t: real)
    ensures WithTotal(StableSortDesc(s), t) == WithTotal(s, t)
  {
    if s != [] {
      SortIsStable(s[1..], t);
      InsertIsStable(s[0], StableSortDesc(s[1..]), t);
      assert WithTotal([s[0]] + StableSortDesc(s[1..]), t)
          == (if Total(s[0]) == t then [s[0]] else []) + WithTotal(StableSortDesc(s[1..]), t);
    }
  }

  /** The specification of the walk: sort every subtree, then order the children. */
  function SortedTree(n: Node): (r: Node)
    ensures r.text == n.text && r.value == n.value && r.totalTime == n.totalTime
    ensures r.Leaf? == n.Leaf?
  {
    match n
    case Leaf(_, _, _) => n
    case Internal(t, v, cs, tt) => Internal(t, v, StableSortDesc(SortEach(cs)), tt)
  }

  function SortEach(cs: seq<Node>): (r: seq<Node>)
    ensures |r| == |cs|
  {
    if cs == [] then [] else [SortedTree(cs[0])] + SortEach(cs[1..])
  }

  lemma {:induction false} SortEachAt(cs: seq<Node>, i: nat)
    requires i < |cs|
    ensures SortEach(cs)[i] == SortedTree(cs[i])
  {
    if i > 0 {
      SortEachAt(cs[1..], i - 1);
    }
  }

  /** Sorting inside each element of a list that starts with `x`. */
  lemma SortEachCons(x: Node, s: seq<Node>)
    ensures SortEach([x] + s) == [SortedTree(x)] + SortEach(s)
  {
    assert ([x] + s)[0] == x && ([x] + s)[1..] == s;
  }

  lemma {:induction false} InsertCommutes(x: Node, s: seq<Node>)
    ensures Insert(SortedTree(x), SortEach(s)) == SortEach(Insert(x, s))
  {
    var sx := SortedTree(x);
    if s == [] {
      assert SortEach([x]) == [sx] + SortEach([]);
    } else {
      var ss := SortEach(s);
      assert ss[0] == SortedTree(s[0]) && ss[1..] == SortEach(s[1..]);
      if Total(s[0]) <= Total(x) {
        assert Insert(sx, ss) == [sx] + ss;
        SortEachCons(x, s);
      } else {
        var tail := Insert(x, s[1..]);
        InsertCommutes(x, s[1..]);
        assert Insert(sx, ss) == [ss[0]] + Insert(sx, ss[1..]);
        assert Insert(x, s) == [s[0]] + tail;
        SortEachCons(s[0], tail);
      }
    }
  }

  /** Sorting the children commutes with sorting inside each child (totals are untouched). */
  lemma {:induction false} SortCommutes(s: seq<Node>)
    ensures StableSortDesc(SortEach(s)) == SortEach(StableSortDesc(s))
  {
    if s != [] {
      SortCommutes(s[1..]);
      assert SortEach(s)[0] == SortedTree(s[0]) && SortEach(s)[1..] == SortEach(s[1..]);
      InsertCommutes(s[0], StableSortDesc(s[1..]));
    }
  }

  /** The raw input the sorter needs: every child of an internal node carries a total. */
  predicate KeysPresent(n: Node)
  {
    n.Internal? ==> forall c :: c in n.children ==> c.totalTime.Some? && KeysPresent(c)
  }

  /**
   * Ordering a node's children first and sorting inside each of them afterwards, as the
   * walk does, meets the specification.
   */
  lemma SortedTreeOrdersFirst(n: Node, done: seq<Node>)
    requires n.Internal?
    requires done == SortEach(StableSortDesc(n.children))
    ensures SortedTree(n) == n.(children := done)
  {
    SortCommutes(n.children);
  }

  /** Sorting inside each element of `s + [x]`: the last one is sorted last. */
  lemma {:induction false} SortEachSnoc(s: seq<Node>, x: Node)
    ensures SortEach(s + [x]) == SortEach(s) + [SortedTree(x)]
  {
    if s == [] {
      assert [] + [x] == [x];
    } else {
      assert (s + [x])[0] == s[0] && (s + [x])[1..] == s[1..] + [x];
      SortEachSnoc(s[1..], x);
    }
  }

  /** Every child the sort lists is a child of the node, and carries its keys too. */
  lemma OrderedChildHasKeys(n: Node, i: nat)
    requires KeysPresent(n) && n.Internal? && i < |n.children|
    ensures StableSortDesc(n.children)[i] in n.children
    ensures KeysPresent(StableSortDesc(n.children)[i])
  {
    assert StableSortDesc(n.children)[i] in StableSortDesc(n.children);
  }

  /**
   * `sort_nodes_by_total_time`: orders the children of every internal node by
   * descending total and returns the same tree, so reordered.
   */
  method SortNodesByTotalTime(node: Node) returns (r: Node)
    requires KeysPresent(node)
    ensures r == SortedTree(node)
    decreases node
  {
    if node.Leaf? {
      return node;
    }
    var cs := node.children;
    var ordered := StableSortDesc(cs);
    var done: seq<Node> := [];
    for i := 0 to |ordered|
      invariant done == SortEach(ordered[..i])
    {
      OrderedChildHasKeys(node, i);
      var child := SortNodesByTotalTime(ordered[i]);
      SortEachSnoc(ordered[..i], ordered[i]);
      assert ordered[..i + 1] == ordered[..i] + [ordered[i]];
      done := done + [child];
    }
    assert ordered[..|ordered|] == ordered;
    SortedTreeOrdersFirst(node, done);
    r := node.(children := done);
  }

  /** Every level of a tree is in descending order of total. */
  ghost predicate SortedEverywhere(n: Node)
  {
    n.Internal? ==> NonIncreasing(n.children) && forall c :: c in n.children ==> SortedEverywhere(c)
  }

  lemma {:induction false} SortedTreeIsSortedEverywhere(n: Node)
    ensures SortedEverywhere(SortedTree(n))
    decreases n
  {
    if n.Internal? {
      var cs := n.children;
      var kids := SortedTree(n).children;
      forall c | c in kids
        ensures SortedEverywhere(c)
      {
        var i :| 0 <= i < |SortEach(cs)| && SortEach(cs)[i] == c;
        SortEachAt(cs, i);
        assert cs[i] in cs;
        SortedTreeIsSortedEverywhere(cs[i]);
      }
    }
  }

  /**
   * The children of a sorted internal node are its old children, each sorted in turn,
   * with the same multiplicities; the largest total comes first.
   */
  lemma SortedChildrenArePermutation(n: Node)
    requires n.Internal?
    ensures multiset(SortedTree(n).children) == multiset(SortEach(n.children))
    ensures forall c :: c in n.children ==> Total(c) <= Total(SortedTree(n).children[0])
  {
    var cs := n.children;
    SortIsPermutation(SortEach(cs));
    forall c | c in cs
      ensures Total(c) <= Total(SortedTree(n).children[0])
    {
      var i :| 0 <= i < |cs| && cs[i] == c;
      SortEachAt(cs, i);
      SortedHeadIsLargest(SortEach(cs), i);
    }
  }

  /** After the sort, no element of the input has a larger total than the head. */
  lemma SortedHeadIsLargest(s: seq<Node>, i: nat)
    requires i < |s|
    ensures Total(s[i]) <= Total(StableSortDesc(s)[0])
  {
    var r := StableSortDesc(s);
    SortIsPermutation(s);
    assert s[i] in multiset(r);
    var j :| 0 <= j < |r| && r[j] == s[i];
    assert j == 0 || Total(r[0]) >= Total(r[j]);
  }

  /** Taking out the element at `i` takes its total out of the sum. */
  lemma SumTotalsRemoveAt(b: seq<Node>, i: nat)
    requires i < |b|
    ensures SumTotals(b) == Total(b[i]) + SumTotals(b[..i] + b[i + 1..])
  {
    var pre, tail, post := b[..i], b[i..], b[i + 1..];
    assert b == pre + tail;
    assert tail[0] == b[i] && tail[1..] == post;
    SumTotalsAppend(pre, tail);
    SumTotalsAppend(pre, post);
  }

  /** Taking out the element at `i` takes one copy of it out of the multiset. */
  lemma MultisetRemoveAt(b: seq<Node>, i: nat)
    requires i < |b|
    ensures multiset(b[..i] + b[i + 1..]) == multiset(b) - multiset{b[i]}
  {
    assert b == b[..i] + ([b[i]] + b[i + 1..]);
    assert multiset(b) == multiset(b[..i]) + multiset{b[i]} + multiset(b[i + 1..]);
  }

  lemma {:induction false} SumTotalsPermutation(a: seq<Node>, b: seq<Node>)
    requires multiset(a) == multiset(b)
    ensures SumTotals(a) == SumTotals(b)
    decreases |a|
  {
    if a != [] {
      assert a[0] in multiset(b);
      var i :| 0 <= i < |b| && b[i] == a[0];
      var rest := b[..i] + b[i + 1..];
      MultisetRemoveAt(b, i);
      assert a == [a[0]] + a[1..];
      assert multiset(a[1..]) == multiset(a) - multiset{a[0]};
      SumTotalsPermutation(a[1..], rest);
      SumTotalsRemoveAt(b, i);
    }
  }

  lemma {:induction false} SumTotalsSortEach(cs: seq<Node>)
    ensures SumTotals(SortEach(cs)) == SumTotals(cs)
  {
    if cs != [] {
      SumTotalsSortEach(cs[1..]);
      assert SortEach(cs)[1..] == SortEach(cs[1..]);
    }
  }

  /** Sorting keeps the summation invariant the aggregator established. */
  lemma {:induction false} SortingKeepsAggregation(n: Node)
    requires Aggregated(n)
    ensures Aggregated(SortedTree(n))
    decreases n
  {
    if n.Internal? {
      var cs := n.children;
      var kids := SortedTree(n).children;
      SortIsPermutation(SortEach(cs));
      SumTotalsPermutation(kids, SortEach(cs));
      SumTotalsSortEach(cs);
      forall c | c in kids
        ensures Aggregated(c)
      {
        var i :| 0 <= i < |SortEach(cs)| && SortEach(cs)[i] == c;
        SortEachAt(cs, i);
        assert cs[i] in cs;
        SortingKeepsAggregation(cs[i]);
      }
    }
  }
}
