/**
 * The threshold filter, `get_paths_above_threshold`: a depth-bounded pre-order walk
 * that reports, for every internal node whose cumulative total exceeds the threshold,
 * the labels from the root down to it together with that total.
 *
 * The walk is specified in two layers: `Visited` lists the nodes the walk reaches (its
 * frames, in pre-order) and `Select` keeps those above the threshold; the lemmas show
 * the filter is exactly that composition, and which nodes the frames are.
 */
module ThresholdFilter {
  import opened Wrappers
  import opened ProfileTree

  /** One reported entry: the label path from the root and the node's total. */
  datatype Hit = Hit(path: seq<string>, total: real)

  /**
   * What the filter reads: every internal node it reaches within the depth bound
   * carries a total (the aggregator has run).
   */
  predicate TotalsWithin(n: Node, maxDepth: int, depth: nat)
  {
    depth > maxDepth || n.Leaf? ||
    (n.totalTime.Some? && forall c :: c in n.children ==> TotalsWithin(c, maxDepth, depth + 1))
  }

  /**
   * The recursive walk, at `depth` below the root with `path` the labels above `n`:
   * nothing beyond the depth bound or at a leaf; otherwise this node's entry when its
   * total exceeds the threshold, then the entries of each child in order.
   */
  function PathsAbove(n: Node, threshold: real, maxDepth: int, depth: nat, path: seq<string>): (r: seq<Hit>)
    requires TotalsWithin(n, maxDepth, depth)
    ensures forall h :: h in r ==>
              h.total > threshold && |path| < |h.path| <= |path| + (maxDepth - depth) + 1 &&
              h.path[..|path| + 1] == path + [Name(n)]
  {
    if depth > maxDepth || n.Leaf? then []
    else
      var here := path + [Name(n)];
      var rest := PathsAboveAll(n.children, threshold, maxDepth, depth + 1, here);
      assert forall h :: h in rest ==> h.path[..|here|] == here;
      (if n.totalTime.value > threshold then [Hit(here, n.totalTime.value)] else []) + rest
  }

  function PathsAboveAll(cs: seq<Node>, threshold: real, maxDepth: int, depth: nat, path: seq<string>): (r: seq<Hit>)
    requires forall c :: c in cs ==> TotalsWithin(c, maxDepth, depth)
    ensures forall h :: h in r ==>
              h.total > threshold && |path| < |h.path| <= |path| + (maxDepth - depth) + 1 &&
              h.path[..|path|] == path
  {
    if cs == [] then []
    else
      var first := PathsAbove(cs[0], threshold, maxDepth, depth, path);
      assert forall h :: h in first ==> h.path[..|path|] == (h.path[..|path| + 1])[..|path|];
      first + PathsAboveAll(cs[1..], threshold, maxDepth, depth, path)
  }

  /**
   * `get_paths_above_threshold` as called from outside, at depth 0 with an empty
   * path: every entry exceeds the threshold, starts at the root and has at most
   * `maxDepth + 1` labels.
   */
  function GetPathsAboveThreshold(root: Node, threshold: real, maxDepth: int): (r: seq<Hit>)
    requires TotalsWithin(root, maxDepth, 0)
    ensures forall h :: h in r ==>
              h.total > threshold && 1 <= |h.path| <= maxDepth + 1 && h.path[0] == Name(root)
  {
    var r := PathsAbove(root, threshold, maxDepth, 0, []);
    assert forall h :: h in r ==> h.path[0] == h.path[..1][0];
    r
  }

  /**
   * `labels` is the chain of names from `n` down to `d`: its first label is `n`'s name
   * and, when there are more, the rest is such a chain from some child of `n`. A node
   * `|labels| - 1` levels below `n` is reached this way.
   */
  ghost predicate ReachesVia(n: Node, d: Node, labels: seq<string>)
  {
    |labels| >= 1 && labels[0] == Name(n) &&
    if |labels| == 1 then d == n
    else n.Internal? && exists c :: c in n.children && ReachesVia(c, d, labels[1..])
  }

  /** A chain of names ends with the name of the node it reaches. */
  lemma {:induction false} ReachesViaEndsAtName(n: Node, d: Node, labels: seq<string>)
    requires ReachesVia(n, d, labels)
    ensures labels[|labels| - 1] == Name(d)
    decreases n
  {
    if |labels| > 1 {
      var c :| c in n.children && ReachesVia(c, d, labels[1..]);
      ReachesViaEndsAtName(c, d, labels[1..]);
    }
  }

  /** A node the walk reaches, with the label path it is reported under. */
  datatype Frame = Frame(path: seq<string>, node: Node)

  /**
   * The nodes the walk reaches, in pre-order: exactly the internal nodes within the
   * depth bound (a leaf or a node past the bound stops the walk), each with the path
   * the walk has built for it.
   */
  function Visited(n: Node, maxDepth: int, depth: nat, path: seq<string>): (r: seq<Frame>)
    ensures forall f :: f in r ==>
              f.node.Internal? && |path| < |f.path| <= |path| + (maxDepth - depth) + 1 &&
              f.path[..|path| + 1] == path + [Name(n)]
  {
    if depth > maxDepth || n.Leaf? then []
    else
      var here := path + [Name(n)];
      var rest := VisitedAll(n.children, maxDepth, depth + 1, here);
      assert forall f :: f in rest ==> f.path[..|here|] == here;
      [Frame(here, n)] + rest
  }

  function VisitedAll(cs: seq<Node>, maxDepth: int, depth: nat, path: seq<string>): (r: seq<Frame>)
    ensures forall f :: f in r ==>
              f.node.Internal? && |path| < |f.path| <= |path| + (maxDepth - depth) + 1 &&
              f.path[..|path|] == path
  {
    if cs == [] then []
    else
      var first := Visited(cs[0], maxDepth, depth, path);
      assert forall f :: f in first ==> f.path[..|path|] == (f.path[..|path| + 1])[..|path|];
      first + VisitedAll(cs[1..], maxDepth, depth, path)
  }

  /** The path of every reached node is the chain of names from the walk's start down to it. */
  lemma {:induction false} VisitedFollowsLabels(n: Node, maxDepth: int, depth: nat, path: seq<string>, f: Frame)
    requires f in Visited(n, maxDepth, depth, path)
    ensures ReachesVia(n, f.node, f.path[|path|..])
    decreases n, 1
  {
    var here := path + [Name(n)];
    if f == Frame(here, n) {
      assert f.path[|path|..] == [Name(n)];
    } else {
      var rest := VisitedAll(n.children, maxDepth, depth + 1, here);
      assert f in rest;
      VisitedAllFollowsLabels(n.children, maxDepth, depth + 1, here, f);
      var c :| c in n.children && ReachesVia(c, f.node, f.path[|here|..]);
      var labels := f.path[|path|..];
      assert f.path[..|here|] == here;
      assert labels[0] == f.path[..|here|][|path|] == Name(n);
      assert labels[1..] == f.path[|here|..];
    }
  }

  lemma {:induction false} VisitedAllFollowsLabels(cs: seq<Node>, maxDepth: int, depth: nat, path: seq<string>, f: Frame)
    requires f in VisitedAll(cs, maxDepth, depth, path)
    ensures exists c :: c in cs && ReachesVia(c, f.node, f.path[|path|..])
    decreases cs, 0
  {
    if f in Visited(cs[0], maxDepth, depth, path) {
      VisitedFollowsLabels(cs[0], maxDepth, depth, path, f);
      assert cs[0] in cs;
    } else {
      VisitedAllFollowsLabels(cs[1..], maxDepth, depth, path, f);
      var c :| c in cs[1..] && ReachesVia(c, f.node, f.path[|path|..]);
      assert c in cs;
    }
  }

  /** The entries of the frames whose total exceeds the threshold, in frame order. */
  function Select(frames: seq<Frame>, threshold: real): seq<Hit>
  {
    if frames == [] then []
    else
      var f := frames[0];
      (if Total(f.node) > threshold then [Hit(f.path, Total(f.node))] else []) + Select(frames[1..], threshold)
  }

  lemma {:induction false} SelectAppend(a: seq<Frame>, b: seq<Frame>, threshold: real)
    ensures Select(a + b, threshold) == Select(a, threshold) + Select(b, threshold)
  {
    if a == [] {
      assert a + b == b;
    } else {
      assert (a + b)[0] == a[0] && (a + b)[1..] == a[1..] + b;
      SelectAppend(a[1..], b, threshold);
    }
  }

  /** The filter reports exactly the reached nodes whose total exceeds the threshold, in pre-order. */
  lemma {:induction false} PathsAboveSelectsVisited(n: Node, threshold: real, maxDepth: int, depth: nat, path: seq<string>)
    requires TotalsWithin(n, maxDepth, depth)
    ensures PathsAbove(n, threshold, maxDepth, depth, path) == Select(Visited(n, maxDepth, depth, path), threshold)
    decreases n, 1
  {
    if !(depth > maxDepth || n.Leaf?) {
      var here := path + [Name(n)];
      PathsAboveAllSelectsVisited(n.children, threshold, maxDepth, depth + 1, here);
      var frames := Visited(n, maxDepth, depth, path);
      assert frames[0] == Frame(here, n);
      assert frames[1..] == VisitedAll(n.children, maxDepth, depth + 1, here);
    }
  }

  lemma {:induction false} PathsAboveAllSelectsVisited(cs: seq<Node>, threshold: real, maxDepth: int, depth: nat, path: seq<string>)
    requires forall c :: c in cs ==> TotalsWithin(c, maxDepth, depth)
    ensures PathsAboveAll(cs, threshold, maxDepth, depth, path) == Select(VisitedAll(cs, maxDepth, depth, path), threshold)
    decreases cs, 0
  {
    if cs != [] {
      PathsAboveSelectsVisited(cs[0], threshold, maxDepth, depth, path);
      PathsAboveAllSelectsVisited(cs[1..], threshold, maxDepth, depth, path);
      SelectAppend(Visited(cs[0], maxDepth, depth, path), VisitedAll(cs[1..], maxDepth, depth, path), threshold);
    }
  }

  lemma {:induction false} SelectKeeps(frames: seq<Frame>, threshold: real, f: Frame)
    requires f in frames && Total(f.node) > threshold
    ensures Hit(f.path, Total(f.node)) in Select(frames, threshold)
  {
    if frames[0] != f {
      SelectKeeps(frames[1..], threshold, f);
    }
  }

  lemma {:induction false} SelectSource(frames: seq<Frame>, threshold: real, h: Hit)
    requires h in Select(frames, threshold)
    ensures exists f :: f in frames && Total(f.node) > threshold && h == Hit(f.path, Total(f.node))
  {
    var f := frames[0];
    if !(Total(f.node) > threshold && h == Hit(f.path, Total(f.node))) {
      SelectSource(frames[1..], threshold, h);
      var g :| g in frames[1..] && Total(g.node) > threshold && h == Hit(g.path, Total(g.node));
      assert g in frames;
    }
  }

  /**
   * Every internal node within the depth bound is reached, whatever its ancestors'
   * totals, under the chain of names that leads to it.
   */
  lemma {:induction false} VisitedIsComplete(n: Node, maxDepth: int, depth: nat, path: seq<string>, d: Node, labels: seq<string>)
    requires d.Internal? && ReachesVia(n, d, labels) && depth + |labels| <= maxDepth + 1
    ensures Frame(path + labels, d) in Visited(n, maxDepth, depth, path)
    decreases n
  {
    var here := path + [Name(n)];
    var frames := Visited(n, maxDepth, depth, path);
    if |labels| == 1 {
      assert labels == [Name(n)];
      assert frames[0] == Frame(here, n);
    } else {
      var c :| c in n.children && ReachesVia(c, d, labels[1..]);
      VisitedIsComplete(c, maxDepth, depth + 1, here, d, labels[1..]);
      assert here + labels[1..] == path + labels;
      VisitedAllContains(n.children, maxDepth, depth + 1, here, c, Frame(path + labels, d));
      assert frames[1..] == VisitedAll(n.children, maxDepth, depth + 1, here);
    }
  }

  lemma {:induction false} VisitedAllContains(cs: seq<Node>, maxDepth: int, depth: nat, path: seq<string>, c: Node, f: Frame)
    requires c in cs && f in Visited(c, maxDepth, depth, path)
    ensures f in VisitedAll(cs, maxDepth, depth, path)
  {
    if cs[0] != c {
      VisitedAllContains(cs[1..], maxDepth, depth, path, c, f);
    }
  }

  /**
   * Nothing is pruned: every internal node at most `maxDepth` levels below the root
   * whose total exceeds the threshold is reported, with its total, under exactly the
   * chain of names from the root down to it, even when an ancestor was reported too.
   */
  lemma ThresholdReportsEveryHeavyNode(root: Node, threshold: real, maxDepth: int, d: Node, p: seq<string>)
    requires TotalsWithin(root, maxDepth, 0)
    requires d.Internal? && ReachesVia(root, d, p) && |p| <= maxDepth + 1 && Total(d) > threshold
    ensures Hit(p, Total(d)) in GetPathsAboveThreshold(root, threshold, maxDepth)
  {
    var frames := Visited(root, maxDepth, 0, []);
    VisitedIsComplete(root, maxDepth, 0, [], d, p);
    assert [] + p == p;
    PathsAboveSelectsVisited(root, threshold, maxDepth, 0, []);
    SelectKeeps(frames, threshold, Frame(p, d));
  }

  /**
   * And nothing else: every entry is the chain of names from the root down to an
   * internal node whose total exceeds the threshold, and carries that node's total.
   */
  lemma ThresholdReportsOnlyHeavyNodes(root: Node, threshold: real, maxDepth: int, h: Hit)
    requires TotalsWithin(root, maxDepth, 0)
    requires h in GetPathsAboveThreshold(root, threshold, maxDepth)
    ensures exists d: Node :: d.Internal? && ReachesVia(root, d, h.path) &&
              h.total == Total(d) > threshold && h.path[|h.path| - 1] == Name(d)
  {
    var frames := Visited(root, maxDepth, 0, []);
    assert GetPathsAboveThreshold(root, threshold, maxDepth) == PathsAbove(root, threshold, maxDepth, 0, []);
    PathsAboveSelectsVisited(root, threshold, maxDepth, 0, []);
    SelectSource(frames, threshold, h);
    var f :| f in frames && Total(f.node) > threshold && h == Hit(f.path, Total(f.node));
    FrameHitIsHeavy(root, maxDepth, threshold, f, h);
  }

  /** The hit a root frame yields names a heavy internal node its labels reach. */
  lemma FrameHitIsHeavy(root: Node, maxDepth: int, threshold: real, f: Frame, h: Hit)
    requires f in Visited(root, maxDepth, 0, [])
    requires Total(f.node) > threshold && h == Hit(f.path, Total(f.node))
    ensures exists d: Node :: d.Internal? && ReachesVia(root, d, h.path) &&
              h.total == Total(d) > threshold && h.path[|h.path| - 1] == Name(d)
  {
    RootFrameFollowsLabels(root, maxDepth, f);
    assert h.path == f.path;
  }

  /** A frame of the walk from the root: its path is the chain of names down to its node. */
  lemma RootFrameFollowsLabels(root: Node, maxDepth: int, f: Frame)
    requires f in Visited(root, maxDepth, 0, [])
    ensures f.node.Internal? && ReachesVia(root, f.node, f.path)
    ensures |f.path| >= 1 && f.path[|f.path| - 1] == Name(f.node)
  {
    VisitedFollowsLabels(root, maxDepth, 0, [], f);
    assert f.path[0..] == f.path;
    ReachesViaEndsAtName(root, f.node, f.path);
  }
}
