/**
 * A worked session on `ExampleTree`, in the order a caller of the analysis engine uses
 * it: aggregate, then sort for display, look up a path and filter by threshold.
 */
module ExampleSession {
  import opened Wrappers
  import opened ProfileTree
  import opened Aggregator
  import opened Sorter
  import opened PathLocator
  import opened ThresholdFilter

  /** `ExampleTree` as the aggregator leaves it: A 0.1, C 0.2, B 0.7, root 0.8. */
  function AnnotatedExample(): Node
  {
    Internal(["root"], None, [
      Leaf(["A"], Some(0.1), Some(0.1)),
      Internal(["B"], Some(0.5), [Leaf(["C"], Some(0.2), Some(0.2))], Some(0.7))
    ], Some(0.8))
  }

  lemma AnnotatedExampleIsAggregated()
    ensures Aggregated(AnnotatedExample())
    ensures Strip(AnnotatedExample()) == Strip(ExampleTree())
  {
  }

  /** Sorting puts `B` (0.7) ahead of `A` (0.1) among the root's children. */
  lemma SortedExampleLeadsWithB()
    ensures KeysPresent(AnnotatedExample())
    ensures SortedTree(AnnotatedExample()).Internal?
    ensures |SortedTree(AnnotatedExample()).children| == 2
    ensures Name(SortedTree(AnnotatedExample()).children[0]) == "B"
  {
    var root := AnnotatedExample();
    var a := root.children[0];
    var b := root.children[1];
    assert root.children == [a, b];
    var sa, sb := SortedTree(a), SortedTree(b);
    assert SortEach([b]) == [sb] + SortEach([]);
    assert SortEach([a, b]) == [sa] + SortEach([b]);
    assert Total(sa) == 0.1 && Total(sb) == 0.7;
    assert Insert(sb, []) == [sb];
    assert StableSortDesc([sb]) == [sb];
    assert Insert(sa, [sb]) == [sb] + Insert(sa, []);
    assert StableSortDesc([sa, sb]) == Insert(sa, StableSortDesc([sa, sb][1..]));
    assert [sa, sb][1..] == [sb];
  }

  /** The path "B->C" resolves to the nodes B and C. */
  lemma PathExampleResolves()
    ensures FindPath(AnnotatedExample(), ArrowSplit.SplitOnArrow("B->C")) ==
            Some([AnnotatedExample().children[1], AnnotatedExample().children[1].children[0]])
    ensures var p := FindPath(AnnotatedExample(), ArrowSplit.SplitOnArrow("B->C"));
            p.Some? && |p.value| == 2 && Name(p.value[0]) == "B" && Name(p.value[1]) == "C"
  {
    var root := AnnotatedExample();
    var b := root.children[1];
    var c := b.children[0];
    ArrowSplit.SplitAfterJoin(["B", "C"]);
    assert ArrowSplit.JoinWithArrow(["B", "C"]) == "B->C";
    assert FirstNamed(root.children, "B") == 1;
    assert Bfs([root], "B") == Found(b);
    assert Bfs([b], "C") == Found(c);
    assert ["B", "C"][1..] == ["C"] && ["C"][1..] == [];
    assert FindPath(c, []) == Some([]);
    assert [c] + [] == [c];
    assert FindPath(b, ["C"]) == Some([c]);
    assert [b] + [c] == [b, c];
  }

  /** Every total of the annotated example is present down to depth 7. */
  lemma AnnotatedExampleHasTotals()
    ensures TotalsWithin(AnnotatedExample(), 7, 0)
  {
    var root := AnnotatedExample();
    var b := root.children[1];
    assert root.children == [root.children[0], b] && b.children == [b.children[0]];
    assert TotalsWithin(b, 7, 1);
  }

  /** Below the root, a threshold of 0.15 reports `B` and neither the leaf `A` nor `C`. */
  lemma ThresholdBelowRoot()
    ensures PathsAboveAll(AnnotatedExample().children, 0.15, 7, 1, ["root"]) == [Hit(["root", "B"], 0.7)]
  {
    var root := AnnotatedExample();
    var a := root.children[0];
    var b := root.children[1];
    var c := b.children[0];
    assert root.children == [a, b] && b.children == [c];
    var pathB := ["root", "B"];
    var hitB := Hit(pathB, 0.7);
    assert ["root"] + ["B"] == pathB;
    assert PathsAboveAll([c], 0.15, 7, 2, pathB) == [];
    assert PathsAbove(b, 0.15, 7, 1, ["root"]) == [hitB] + [];
    assert PathsAboveAll([b], 0.15, 7, 1, ["root"]) == [hitB] + [];
    assert [a, b][1..] == [b];
    assert PathsAboveAll([a, b], 0.15, 7, 1, ["root"]) == [] + [hitB];
  }

  /** A threshold of 0.15 reports the root and `B`, and not the leaf `C` (0.2). */
  lemma ThresholdExampleSkipsLeaf()
    ensures TotalsWithin(AnnotatedExample(), 7, 0)
    ensures GetPathsAboveThreshold(AnnotatedExample(), 0.15, 7) == [Hit(["root"], 0.8), Hit(["root", "B"], 0.7)]
  {
    AnnotatedExampleHasTotals();
    ThresholdBelowRoot();
    assert [] + ["root"] == ["root"];
    assert PathsAbove(AnnotatedExample(), 0.15, 7, 0, []) == [Hit(["root"], 0.8)] + [Hit(["root", "B"], 0.7)];
  }

  /**
   * The session: the root's total is 0.8; after sorting, `B` (0.7) leads the root's
   * children; the path "B->C" resolves to the two nodes B and C; and a threshold of
   * 0.15 reports the root and `B` but not the leaf `C`, whose total (0.2) is above it.
   */
  method AnalyseExample() returns (total: real, heaviest: string, found: Option<seq<Node>>, hits: seq<Hit>)
    ensures total == 0.8
    ensures heaviest == "B"
    ensures found.Some? && |found.value| == 2 && Name(found.value[0]) == "B" && Name(found.value[1]) == "C"
    ensures hits == [Hit(["root"], 0.8), Hit(["root", "B"], 0.7)]
  {
    var tree;
    tree, total := CalculateTotalTime(ExampleTree());
    AnnotatedExampleIsAggregated();
    AggregationIsUnique(tree, AnnotatedExample());
    SortedExampleLeadsWithB();
    var sorted := SortNodesByTotalTime(tree);
    heaviest := Name(sorted.children[0]);
    PathExampleResolves();
    found := FindPathByString(tree, "B->C");
    ThresholdExampleSkipsLeaf();
    hits := GetPathsAboveThreshold(tree, 0.15, 7);
  }
}
