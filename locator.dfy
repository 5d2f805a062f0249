/**
 * Splitting a path string on the `->` delimiter, as the language's `str.split("->")`
 * does: left to right, non-overlapping, keeping empty segments.
 */
module ArrowSplit {
  /** No `->` occurs anywhere in `s`. */
  predicate ArrowFree(s: string)
  {
    forall i :: 0 <= i < |s| - 1 ==> !(s[i] == '-' && s[i + 1] == '>')
  }

  function SplitOnArrow(s: string): (r: seq<string>)
    ensures |r| >= 1
    ensures r[0] <= s
  {
    if |s| < 2 then [s]
    else if s[0] == '-' && s[1] == '>' then [""] + SplitOnArrow(s[2..])
    else
      var rest := SplitOnArrow(s[1..]);
      [[s[0]] + rest[0]] + rest[1..]
  }

  /** The inverse direction: the segments glued back together with `->`. */
  function JoinWithArrow(segs: seq<string>): string
    requires |segs| >= 1
  {
    if |segs| == 1 then segs[0] else segs[0] + "->" + JoinWithArrow(segs[1..])
  }

  /** Splitting loses nothing: joining the segments gives back the path string. */
  lemma {:induction false} JoinAfterSplit(s: string)
    ensures JoinWithArrow(SplitOnArrow(s)) == s
    decreases |s|
  {
    if |s| < 2 {
    } else if s[0] == '-' && s[1] == '>' {
      JoinAfterSplit(s[2..]);
      assert ([""] + SplitOnArrow(s[2..]))[1..] == SplitOnArrow(s[2..]);
      assert s == "->" + s[2..];
    } else {
      var rest := SplitOnArrow(s[1..]);
      JoinAfterSplit(s[1..]);
      var r := [[s[0]] + rest[0]] + rest[1..];
      assert r[1..] == rest[1..];
      if |rest| == 1 {
        assert s == [s[0]] + s[1..];
      } else {
        assert JoinWithArrow(rest) == rest[0] + "->" + JoinWithArrow(rest[1..]);
        assert s == [s[0]] + s[1..];
      }
    }
  }

  /** No segment produced by the split contains the delimiter. */
  lemma {:induction false} SplitSegmentsAreArrowFree(s: string)
    ensures forall i :: 0 <= i < |SplitOnArrow(s)| ==> ArrowFree(SplitOnArrow(s)[i])
    decreases |s|
  {
    if |s| < 2 {
    } else if s[0] == '-' && s[1] == '>' {
      SplitSegmentsAreArrowFree(s[2..]);
      var r := SplitOnArrow(s);
      forall i | 0 <= i < |r|
        ensures ArrowFree(r[i])
      {
        if i > 0 {
          assert r[i] == SplitOnArrow(s[2..])[i - 1];
        }
      }
    } else {
      var rest := SplitOnArrow(s[1..]);
      SplitSegmentsAreArrowFree(s[1..]);
      var r := SplitOnArrow(s);
      var head := [s[0]] + rest[0];
      assert ArrowFree(head) by {
        assert ArrowFree(rest[0]);
        forall i | 0 <= i < |head| - 1
          ensures !(head[i] == '-' && head[i + 1] == '>')
        {
          if i == 0 {
            assert rest[0] <= s[1..];
            assert head[1] == rest[0][0] == s[1];
          } else {
            assert head[i] == rest[0][i - 1] && head[i + 1] == rest[0][i];
          }
        }
      }
      forall i | 0 <= i < |r|
        ensures ArrowFree(r[i])
      {
        if i > 0 {
          assert r[i] == rest[i];
        }
      }
    }
  }

  lemma {:induction false} SplitOfArrowFree(a: string)
    requires ArrowFree(a)
    ensures SplitOnArrow(a) == [a]
    decreases |a|
  {
    if |a| >= 2 {
      assert !(a[0] == '-' && a[1] == '>');
      assert ArrowFree(a[1..]) by {
        forall i | 0 <= i < |a[1..]| - 1
          ensures !(a[1..][i] == '-' && a[1..][i + 1] == '>')
        {
          assert a[1..][i] == a[i + 1] && a[1..][i + 1] == a[i + 2];
        }
      }
      SplitOfArrowFree(a[1..]);
      assert a == [a[0]] + a[1..];
    }
  }

  lemma {:induction false} SplitAfterSegment(a: string, t: string)
    requires ArrowFree(a)
    ensures SplitOnArrow(a + "->" + t) == [a] + SplitOnArrow(t)
    decreases |a|
  {
    var s := a + "->" + t;
    if a == [] {
      assert s == "->" + t && s[2..] == t;
    } else {
      assert s[0] == a[0];
      assert !(s[0] == '-' && s[1] == '>') by {
        if |a| == 1 {
          assert s[1] == '-';
        } else {
          assert s[1] == a[1];
        }
      }
      assert ArrowFree(a[1..]) by {
        forall i | 0 <= i < |a[1..]| - 1
          ensures !(a[1..][i] == '-' && a[1..][i + 1] == '>')
        {
          assert a[1..][i] == a[i + 1] && a[1..][i + 1] == a[i + 2];
        }
      }
      assert s[1..] == a[1..] + "->" + t;
      SplitAfterSegment(a[1..], t);
      assert a == [a[0]] + a[1..];
    }
  }

  /** Segments free of the delimiter survive a join followed by a split unchanged. */
  lemma {:induction false} SplitAfterJoin(segs: seq<string>)
    requires |segs| >= 1
    requires forall i :: 0 <= i < |segs| ==> ArrowFree(segs[i])
    ensures SplitOnArrow(JoinWithArrow(segs)) == segs
    decreases |segs|
  {
    if |segs| == 1 {
      SplitOfArrowFree(segs[0]);
    } else {
      SplitAfterJoin(segs[1..]);
      SplitAfterSegment(segs[0], JoinWithArrow(segs[1..]));
      assert segs == [segs[0]] + segs[1..];
    }
  }
}

/**
 * The path locator, `find_path_by_string`: for each `->`-separated segment, a
 * breadth-first search below the current anchor for the first node with that name,
 * which becomes the next anchor.
 */
module PathLocator {
  import opened Wrappers
  import opened ProfileTree
  import opened ArrowSplit

  /** Index of the first node in `cs` named `name`, or `|cs|` when there is none. */
  function FirstNamed(cs: seq<Node>, name: string): (k: nat)
    ensures k <= |cs|
    ensures forall j :: 0 <= j < k ==> Name(cs[j]) != name
    ensures k < |cs| ==> Name(cs[k]) == name
  {
    if cs == [] then 0
    else if Name(cs[0]) == name then 0
    else 1 + FirstNamed(cs[1..], name)
  }

  /** How one breadth-first search ends. */
  datatype Search =
    | Found(node: Node)   // a child of a dequeued node carries the segment's name
    | HitLeaf             // a node without children was dequeued first: the search gives up
    | Exhausted           // the queue ran dry

  /**
   * The search for one segment, on the queue of nodes still to expand: the head is
   * dequeued; a leaf ends the search; otherwise its first child with the segment's
   * name is the match, and failing one, its children join the back of the queue.
   */
  function Bfs(queue: seq<Node>, segment: string): (r: Search)
    ensures r.Found? ==> Name(r.node) == segment
    decreases ForestSize(queue)
  {
    if queue == [] then Exhausted
    else
      match queue[0]
      case Leaf(_, _, _) => HitLeaf
      case Internal(_, _, cs, _) =>
        var k := FirstNamed(cs, segment);
        if k < |cs| then Found(cs[k])
        else
          ForestSizeExpand(queue);
          Bfs(queue[1..] + cs, segment)
  }

  /** Attaches an already matched prefix to the outcome of the remaining segments. */
  function Prefixed(found: seq<Node>, rest: Option<seq<Node>>): Option<seq<Node>>
  {
    match rest
    case None => None
    case Some(p) => Some(found + p)
  }

  /** The specification of the whole lookup, segment by segment from `anchor`. */
  function FindPath(anchor: Node, segments: seq<string>): (r: Option<seq<Node>>)
    ensures r.Some? ==> |r.value| == |segments|
    decreases |segments|
  {
    if segments == [] then Some([])
    else if anchor.Leaf? then None
    else
      match Bfs([anchor], segments[0])
      case Found(m) => Prefixed([m], FindPath(m, segments[1..]))
      case HitLeaf => None
      case Exhausted => None
  }

  lemma PrefixedTwice(a: seq<Node>, b: seq<Node>, rest: Option<seq<Node>>)
    ensures Prefixed(a, Prefixed(b, rest)) == Prefixed(a + b, rest)
    ensures Prefixed([], rest) == rest
  {
    if rest.Some? {
      assert a + (b + rest.value) == (a + b) + rest.value;
      assert [] + rest.value == rest.value;
    }
  }

  /**
   * `find_path_by_string`: the matched node of every segment of `pathString`, in
   * order, or None.
   */
  method FindPathByString(root: Node, pathString: string) returns (r: Option<seq<Node>>)
    ensures r == FindPath(root, SplitOnArrow(pathString))
  {
    var segments := SplitOnArrow(pathString);
    var current := root;
    var pathFound: seq<Node> := [];
    assert segments[0..] == segments;
    PrefixedTwice([], [], FindPath(root, segments));
    for i := 0 to |segments|
      invariant FindPath(root, segments) == Prefixed(pathFound, FindPath(current, segments[i..]))
    {
      var segment := segments[i];
      assert segments[i..][0] == segment && segments[i..][1..] == segments[i + 1..];
      if current.Leaf? {
        assert FindPath(current, segments[i..]) == None;
        return None;
      }
      ghost var anchor, before := current, pathFound;
      var found := false;
      var queue := [current];
      while queue != []
        invariant !found && pathFound == before
        invariant Bfs(queue, segment) == Bfs([anchor], segment)
        decreases ForestSize(queue)
      {
        current := queue[0];
        queue := queue[1..];
        if current.Leaf? {
          assert Bfs([anchor], segment) == HitLeaf;
          assert FindPath(anchor, segments[i..]) == None;
          return None;
        }
        var cs := current.children;
        var j := 0;
        while j < |cs|
          invariant 0 <= j <= |cs|
          invariant !found && pathFound == before && cs == current.children
          invariant forall k :: 0 <= k < j ==> Name(cs[k]) != segment
        {
          if Name(cs[j]) == segment {
            pathFound := pathFound + [cs[j]];
            current := cs[j];
            found := true;
            break;
          }
          j := j + 1;
        }
        if found {
          assert Bfs([anchor], segment) == Found(current);
          break;
        }
        ForestSizeExpand([current] + queue);
        assert ([current] + queue)[1..] == queue;
        queue := queue + cs;
      }
      if !found {
        assert Bfs([anchor], segment) == Exhausted;
        assert FindPath(anchor, segments[i..]) == None;
        return None;
      }
      PrefixedTwice(before, [current], FindPath(current, segments[i + 1..]));
    }
    assert segments[|segments|..] == [] && pathFound + [] == pathFound;
    r := Some(pathFound);
  }

  /** Some node strictly below a member of `queue` carries the name `segment`. */
  ghost predicate BelowAny(queue: seq<Node>, segment: string)
  {
    exists i, d :: 0 <= i < |queue| && StrictlyBelow(d, queue[i]) && Name(d) == segment
  }

  /** A match is a node with the segment's name, strictly below some queued node. */
  lemma {:induction false} BfsFindsNamedDescendant(queue: seq<Node>, segment: string)
    requires Bfs(queue, segment).Found?
    ensures Name(Bfs(queue, segment).node) == segment
    ensures exists i :: 0 <= i < |queue| && StrictlyBelow(Bfs(queue, segment).node, queue[i])
    decreases ForestSize(queue)
  {
    var n := queue[0];
    var cs := n.children;
    var k := FirstNamed(cs, segment);
    var m := Bfs(queue, segment).node;
    if k < |cs| {
      assert cs[k] in cs && StrictlyBelow(m, n);
    } else {
      var next := queue[1..] + cs;
      ForestSizeExpand(queue);
      BfsFindsNamedDescendant(next, segment);
      var i :| 0 <= i < |next| && StrictlyBelow(m, next[i]);
      if i < |queue| - 1 {
        assert next[i] == queue[i + 1];
      } else {
        assert next[i] in cs;
        assert StrictlyBelow(m, queue[0]);
      }
    }
  }

  /** A search that runs dry has passed over every node below the queue: none has the name. */
  lemma {:induction false} BfsExhaustedMeansAbsent(queue: seq<Node>, segment: string, i: nat, d: Node)
    requires i < |queue| && StrictlyBelow(d, queue[i]) && Name(d) == segment
    ensures Bfs(queue, segment) != Exhausted
    decreases ForestSize(queue)
  {
    var n := queue[0];
    if n.Internal? && FirstNamed(n.children, segment) == |n.children| {
      var cs := n.children;
      var next := queue[1..] + cs;
      ForestSizeExpand(queue);
      if i > 0 {
        assert next[i - 1] == queue[i];
        BfsExhaustedMeansAbsent(next, segment, i - 1, d);
      } else {
        var c :| c in cs && (d == c || StrictlyBelow(d, c));
        var j :| 0 <= j < |cs| && cs[j] == c;
        if d != c {
          assert next[|queue| - 1 + j] == c;
          BfsExhaustedMeansAbsent(next, segment, |queue| - 1 + j, d);
        }
      }
    }
  }

  /** `d` lies exactly `k` levels below `anchor`. */
  ghost predicate AtDepth(anchor: Node, d: Node, k: nat)
    decreases k
  {
    if k == 0 then d == anchor
    else exists p :: AtDepth(anchor, p, k - 1) && p.Internal? && d in p.children
  }

  /** `m` lies `k >= 1` levels below `anchor`, and no node on levels 1 to k - 1 is named `segment`. */
  ghost predicate ShallowestMatch(anchor: Node, segment: string, m: Node)
  {
    exists k: nat :: 1 <= k && AtDepth(anchor, m, k) &&
      forall i: nat, d :: 1 <= i < k && AtDepth(anchor, d, i) ==> Name(d) != segment
  }

  /**
   * Where a search from `anchor` stands, level by level: the queue is `a`, the nodes of
   * level `j` not yet dequeued, followed by `b`, the children gathered so far for level
   * `j + 1`; no node on levels 1 to `j` has the name; and every node of level `j` is
   * still in `a` or has been expanded (none of its children has the name, all are in `b`).
   */
  ghost predicate LevelState(anchor: Node, segment: string, a: seq<Node>, b: seq<Node>, j: nat)
  {
    (forall x :: x in a ==> AtDepth(anchor, x, j)) &&
    (forall x :: x in b ==> AtDepth(anchor, x, j + 1)) &&
    (forall i: nat, d :: 1 <= i <= j && AtDepth(anchor, d, i) ==> Name(d) != segment) &&
    (forall p :: AtDepth(anchor, p, j) ==>
       p in a || (p.Internal? && forall c :: c in p.children ==> Name(c) != segment && c in b))
  }

  /** Once level `j` is used up, the gathered children are the whole of level `j + 1`. */
  lemma LevelAdvance(anchor: Node, segment: string, b: seq<Node>, j: nat)
    requires LevelState(anchor, segment, [], b, j)
    ensures LevelState(anchor, segment, b, [], j + 1)
  {
    forall i: nat, d | 1 <= i <= j + 1 && AtDepth(anchor, d, i)
      ensures Name(d) != segment
    {
      if i == j + 1 {
        var p :| AtDepth(anchor, p, j) && p.Internal? && d in p.children;
      }
    }
    forall p | AtDepth(anchor, p, j + 1)
      ensures p in b
    {
      var q :| AtDepth(anchor, q, j) && q.Internal? && p in q.children;
    }
  }

  /** Expanding the head of level `j` without a match moves its children to the back. */
  lemma LevelExpand(anchor: Node, segment: string, a: seq<Node>, b: seq<Node>, j: nat)
    requires a != [] && LevelState(anchor, segment, a, b, j)
    requires a[0].Internal? && forall c :: c in a[0].children ==> Name(c) != segment
    ensures LevelState(anchor, segment, a[1..], b + a[0].children, j)
  {
    var x := a[0];
    assert AtDepth(anchor, x, j);
    forall c | c in x.children
      ensures AtDepth(anchor, c, j + 1)
    {
    }
    assert a == [x] + a[1..];
  }

  /** A child of a level-`j` node with the name, found before any deeper level is searched. */
  lemma LevelMatchIsShallowest(anchor: Node, segment: string, a: seq<Node>, b: seq<Node>, j: nat, m: Node)
    requires a != [] && LevelState(anchor, segment, a, b, j)
    requires a[0].Internal? && m in a[0].children && Name(m) == segment
    ensures ShallowestMatch(anchor, segment, m)
  {
    assert AtDepth(anchor, a[0], j);
    assert AtDepth(anchor, m, j + 1);
  }

  /** When `FirstNamed` finds nothing, no element has the name. */
  lemma NoneNamed(cs: seq<Node>, name: string)
    requires FirstNamed(cs, name) == |cs|
    ensures forall c :: c in cs ==> Name(c) != name
  {
    forall c | c in cs
      ensures Name(c) != name
    {
      var i :| 0 <= i < |cs| && cs[i] == c;
    }
  }

  lemma {:induction false} BfsLevelOrder(anchor: Node, segment: string, a: seq<Node>, b: seq<Node>, j: nat)
    requires Bfs(a + b, segment).Found?
    requires LevelState(anchor, segment, a, b, j)
    ensures ShallowestMatch(anchor, segment, Bfs(a + b, segment).node)
    decreases ForestSize(a + b), if a == [] then 1 else 0, 2
  {
    if a == [] {
      assert a + b == b;
      BfsNextLevel(anchor, segment, b, j);
    } else {
      BfsSameLevel(anchor, segment, a, b, j);
    }
  }

  /** Level `j` is used up: the search continues with level `j + 1`. */
  lemma {:induction false} BfsNextLevel(anchor: Node, segment: string, b: seq<Node>, j: nat)
    requires Bfs(b, segment).Found?
    requires LevelState(anchor, segment, [], b, j)
    ensures ShallowestMatch(anchor, segment, Bfs(b, segment).node)
    decreases ForestSize(b), 1, 0
  {
    assert b + [] == b;
    LevelAdvance(anchor, segment, b, j);
    BfsLevelOrder(anchor, segment, b, [], j + 1);
  }

  /** One step of a search that succeeds: its head is internal; a match or a shorter search follows. */
  lemma BfsStep(q: seq<Node>, segment: string)
    requires q != [] && Bfs(q, segment).Found?
    ensures q[0].Internal?
    ensures var cs := q[0].children; var k := FirstNamed(cs, segment);
            if k < |cs| then Bfs(q, segment).node == cs[k]
            else ForestSize(q[1..] + cs) < ForestSize(q) && Bfs(q, segment) == Bfs(q[1..] + cs, segment)
  {
    ForestSizeExpand(q);
  }

  /** The head of level `j` is dequeued: a match among its children, or its children join the back. */
  lemma {:induction false} BfsSameLevel(anchor: Node, segment: string, a: seq<Node>, b: seq<Node>, j: nat)
    requires a != [] && Bfs(a + b, segment).Found?
    requires LevelState(anchor, segment, a, b, j)
    ensures ShallowestMatch(anchor, segment, Bfs(a + b, segment).node)
    decreases ForestSize(a + b), 0, 1
  {
    var q := a + b;
    assert q[0] == a[0];
    BfsStep(q, segment);
    var cs := a[0].children;
    if FirstNamed(cs, segment) < |cs| {
      LevelMatchIsShallowest(anchor, segment, a, b, j, cs[FirstNamed(cs, segment)]);
    } else {
      BfsExpandHead(anchor, segment, a, b, j);
    }
  }

  /** The head of level `j` has no child with the name: its children join the back of the queue. */
  lemma {:induction false} BfsExpandHead(anchor: Node, segment: string, a: seq<Node>, b: seq<Node>, j: nat)
    requires a != [] && a[0].Internal? && FirstNamed(a[0].children, segment) == |a[0].children|
    requires Bfs(a + b, segment).Found?
    requires LevelState(anchor, segment, a, b, j)
    ensures ShallowestMatch(anchor, segment, Bfs(a + b, segment).node)
    decreases ForestSize(a + b), 0, 0
  {
    var q := a + b;
    var cs := a[0].children;
    assert q[0] == a[0] && q[1..] + cs == a[1..] + (b + cs);
    BfsStep(q, segment);
    NoneNamed(cs, segment);
    LevelExpand(anchor, segment, a, b, j);
    BfsLevelOrder(anchor, segment, a[1..], b + cs, j);
  }

  /** The children of the internal nodes of `q`, in queue order and then child order. */
  function Expand(q: seq<Node>): (r: seq<Node>)
    ensures ForestSize(r) + |q| <= ForestSize(q)
  {
    if q == [] then []
    else
      var cs := if q[0].Internal? then q[0].children else [];
      var rest := Expand(q[1..]);
      ForestSizeAppend(cs, rest);
      cs + rest
  }

  /** Level `k` below `a`, in the order in which a search from `a` enqueues its nodes. */
  function Level(a: Node, k: nat): seq<Node>
  {
    if k == 0 then [a] else Expand(Level(a, k - 1))
  }

  /** No level from 1 to `k - 1` below `anchor` holds a node named `segment`. */
  ghost predicate NoneNamedAbove(anchor: Node, segment: string, k: nat)
    decreases k
  {
    k <= 1 ||
    (NoneNamedAbove(anchor, segment, k - 1) &&
     FirstNamed(Level(anchor, k - 1), segment) == |Level(anchor, k - 1)|)
  }

  /** Each level above `k` lacks the name. */
  lemma {:induction false} NoneNamedAboveAt(anchor: Node, segment: string, k: nat, i: nat)
    requires NoneNamedAbove(anchor, segment, k) && 1 <= i < k
    ensures FirstNamed(Level(anchor, i), segment) == |Level(anchor, i)|
    decreases k
  {
    if i < k - 1 {
      NoneNamedAboveAt(anchor, segment, k - 1, i);
    }
  }

  /** Level `k >= 1` is the first to hold the name, and `m` is its leftmost node with it. */
  ghost predicate FirstAtLevel(anchor: Node, segment: string, k: nat, m: Node)
  {
    1 <= k && FirstNamed(Level(anchor, k), segment) < |Level(anchor, k)| &&
    m == Level(anchor, k)[FirstNamed(Level(anchor, k), segment)] &&
    NoneNamedAbove(anchor, segment, k)
  }

  /**
   * `m` is the first node named `segment` in level order below `anchor`: on the first
   * level `k >= 1` that holds the name at all, it is the leftmost node with that name.
   */
  ghost predicate FirstInLevelOrder(anchor: Node, segment: string, m: Node)
  {
    exists k: nat :: FirstAtLevel(anchor, segment, k, m)
  }

  /** Level order leaves no choice: at most one node is the first match. */
  lemma FirstInLevelOrderIsUnique(anchor: Node, segment: string, m1: Node, m2: Node)
    requires FirstInLevelOrder(anchor, segment, m1)
    ensures FirstInLevelOrder(anchor, segment, m2) ==> m1 == m2
  {
    if FirstInLevelOrder(anchor, segment, m2) {
      var k1: nat :| FirstAtLevel(anchor, segment, k1, m1);
      var k2: nat :| FirstAtLevel(anchor, segment, k2, m2);
      if k1 < k2 {
        NoneNamedAboveAt(anchor, segment, k2, k1);
        assert false;
      } else if k2 < k1 {
        NoneNamedAboveAt(anchor, segment, k1, k2);
        assert false;
      } else {
        assert k1 == k2;
      }
    }
  }

  /** `FirstNamed` over a concatenation searches the first part first. */
  lemma {:induction false} FirstNamedAppend(p: seq<Node>, q: seq<Node>, name: string)
    ensures FirstNamed(p + q, name) ==
              if FirstNamed(p, name) < |p| then FirstNamed(p, name) else |p| + FirstNamed(q, name)
  {
    if p == [] {
      assert p + q == q;
    } else {
      assert (p + q)[0] == p[0] && (p + q)[1..] == p[1..] + q;
      FirstNamedAppend(p[1..], q, name);
    }
  }

  /**
   * A successful search works through the queue `a` before anything queued behind it:
   * a match among the children of `a`'s nodes is the first such child in order, and
   * failing one the search goes on with `b` followed by all those children.
   */
  lemma {:induction false} BfsThroughLevel(a: seq<Node>, b: seq<Node>, segment: string)
    requires Bfs(a + b, segment).Found?
    ensures var e := Expand(a); var k := FirstNamed(e, segment);
            if k < |e| then Bfs(a + b, segment).node == e[k]
            else Bfs(a + b, segment) == Bfs(b + e, segment)
    decreases |a|, 2
  {
    if a == [] {
      assert a + b == b && b + [] == b;
    } else {
      BfsThroughHead(a, b, segment);
    }
  }

  /** The head of `a` is dequeued: a match among its children, or the search moves past it. */
  lemma {:induction false} BfsThroughHead(a: seq<Node>, b: seq<Node>, segment: string)
    requires a != [] && Bfs(a + b, segment).Found?
    ensures var e := Expand(a); var k := FirstNamed(e, segment);
            if k < |e| then Bfs(a + b, segment).node == e[k]
            else Bfs(a + b, segment) == Bfs(b + e, segment)
    decreases |a|, 1
  {
    var q := a + b;
    assert q[0] == a[0];
    BfsStep(q, segment);
    var cs := a[0].children;
    assert Expand(a) == cs + Expand(a[1..]);
    FirstNamedAppend(cs, Expand(a[1..]), segment);
    if FirstNamed(cs, segment) == |cs| {
      BfsPastHead(a, b, segment);
    }
  }

  /** The head of `a` has no child with the name: its children go behind `b`. */
  lemma {:induction false} BfsPastHead(a: seq<Node>, b: seq<Node>, segment: string)
    requires a != [] && a[0].Internal? && FirstNamed(a[0].children, segment) == |a[0].children|
    requires Bfs(a + b, segment).Found?
    ensures var e := Expand(a); var k := FirstNamed(e, segment);
            if k < |e| then Bfs(a + b, segment).node == e[k]
            else Bfs(a + b, segment) == Bfs(b + e, segment)
    decreases |a|, 0
  {
    var cs := a[0].children;
    var rest := Expand(a[1..]);
    var e := Expand(a);
    BfsSkipsHead(a, b, segment);
    BfsThroughLevel(a[1..], b + cs, segment);
    assert e == cs + rest;
    FirstNamedAppend(cs, rest, segment);
    var k := FirstNamed(rest, segment);
    assert FirstNamed(e, segment) == |cs| + k;
    if k < |rest| {
      assert e[|cs| + k] == rest[k];
    } else {
      ConcatAssoc(b, cs, rest);
    }
  }

  /** A head without a matching child is dequeued and its children join the back. */
  lemma BfsSkipsHead(a: seq<Node>, b: seq<Node>, segment: string)
    requires a != [] && a[0].Internal? && FirstNamed(a[0].children, segment) == |a[0].children|
    requires Bfs(a + b, segment).Found?
    ensures Bfs(a + b, segment) == Bfs(a[1..] + (b + a[0].children), segment)
  {
    var q := a + b;
    assert q[0] == a[0] && q[1..] == a[1..] + b;
    BfsStep(q, segment);
    ConcatAssoc(a[1..], b, a[0].children);
  }

  /** Concatenation facts used by the search proofs. */
  lemma ConcatNil(x: seq<Node>)
    ensures x + [] == x && [] + x == x
  {
  }

  lemma ConcatAssoc(x: seq<Node>, y: seq<Node>, z: seq<Node>)
    ensures (x + y) + z == x + (y + z)
  {
  }

  /**
   * Searching from level `j`, when no level from 1 to `j` holds the name, finds the first
   * named node of the first level that holds one.
   */
  lemma {:induction false} BfsByLevels(anchor: Node, segment: string, j: nat)
    requires Bfs(Level(anchor, j), segment).Found?
    requires NoneNamedAbove(anchor, segment, j + 1)
    ensures FirstInLevelOrder(anchor, segment, Bfs(Level(anchor, j), segment).node)
    decreases ForestSize(Level(anchor, j))
  {
    LevelSearchStep(anchor, segment, j);
    var e := Level(anchor, j + 1);
    if FirstNamed(e, segment) == |e| {
      BfsByLevels(anchor, segment, j + 1);
    }
  }

  /** The search over level `j` finds the first named node of level `j + 1`, or moves on to that level. */
  lemma LevelSearchStep(anchor: Node, segment: string, j: nat)
    requires Bfs(Level(anchor, j), segment).Found?
    requires NoneNamedAbove(anchor, segment, j + 1)
    ensures var e := Level(anchor, j + 1);
            if FirstNamed(e, segment) < |e| then FirstAtLevel(anchor, segment, j + 1, Bfs(Level(anchor, j), segment).node)
            else NoneNamedAbove(anchor, segment, j + 2) &&
                 ForestSize(e) < ForestSize(Level(anchor, j)) &&
                 Bfs(Level(anchor, j), segment) == Bfs(e, segment)
  {
    var l := Level(anchor, j);
    var e := Expand(l);
    assert l != [];
    ConcatNil(l);
    ConcatNil(e);
    BfsThroughLevel(l, [], segment);
  }

  /**
   * The search finds the shallowest match: the node it returns lies some k >= 1 levels
   * below the anchor, and no node on a level between the anchor and that one carries
   * the segment's name. Among the named nodes of level k it is the first in the order
   * the search enqueues them.
   */
  lemma BfsFindsShallowestMatch(anchor: Node, segment: string)
    requires Bfs([anchor], segment).Found?
    ensures ShallowestMatch(anchor, segment, Bfs([anchor], segment).node)
    ensures FirstInLevelOrder(anchor, segment, Bfs([anchor], segment).node)
  {
    assert [anchor] + [] == [anchor];
    assert LevelState(anchor, segment, [anchor], [], 0);
    BfsLevelOrder(anchor, segment, [anchor], [], 0);
    assert Level(anchor, 0) == [anchor] && NoneNamedAbove(anchor, segment, 1);
    BfsByLevels(anchor, segment, 0);
  }

  /**
   * Each node of a successful lookup is the shallowest match for its segment, and the
   * first in level order: the first below the anchor, every later one below the node
   * matched before it.
   */
  lemma {:induction false} FindPathTakesShallowestMatches(anchor: Node, segments: seq<string>)
    requires FindPath(anchor, segments).Some? && segments != []
    ensures ShallowestMatch(anchor, segments[0], FindPath(anchor, segments).value[0])
    ensures forall i :: 0 <= i < |segments| - 1 ==>
              ShallowestMatch(FindPath(anchor, segments).value[i], segments[i + 1], FindPath(anchor, segments).value[i + 1])
    ensures FirstInLevelOrder(anchor, segments[0], FindPath(anchor, segments).value[0])
    ensures forall i :: 0 <= i < |segments| - 1 ==>
              FirstInLevelOrder(FindPath(anchor, segments).value[i], segments[i + 1], FindPath(anchor, segments).value[i + 1])
    decreases |segments|
  {
    var m := Bfs([anchor], segments[0]).node;
    BfsFindsShallowestMatch(anchor, segments[0]);
    var p := FindPath(anchor, segments).value;
    var rest := FindPath(m, segments[1..]);
    assert p == [m] + rest.value;
    if |segments| > 1 {
      FindPathTakesShallowestMatches(m, segments[1..]);
      forall i | 0 <= i < |segments| - 1
        ensures ShallowestMatch(p[i], segments[i + 1], p[i + 1])
        ensures FirstInLevelOrder(p[i], segments[i + 1], p[i + 1])
      {
        if i > 0 {
          assert p[i] == rest.value[i - 1] && p[i + 1] == rest.value[i];
          assert segments[i + 1] == segments[1..][i];
        }
      }
    }
  }

  /** A root `r` whose children `p` and `q` each have one leaf child named "s". */
  function TieTree(): Node
  {
    Internal(["r"], None, [
      Internal(["p"], None, [Leaf(["s"], Some(1.0), None)], None),
      Internal(["q"], None, [Leaf(["s"], Some(2.0), None)], None)
    ], None)
  }

  /** The search for "s" on `TieTree` returns the child of `p`, the parent enqueued first. */
  lemma TieSearchTakesFirstParent()
    ensures Bfs([TieTree()], "s") == Found(TieTree().children[0].children[0])
  {
    var r := TieTree();
    var p, q := r.children[0], r.children[1];
    assert r.children == [p, q];
    assert FirstNamed(r.children, "s") == 2 && FirstNamed(p.children, "s") == 0;
    assert [r][1..] + [p, q] == [p, q];
    assert Bfs([r], "s") == Bfs([p, q], "s");
  }

  /** The child of `q` is a shallowest match as well: it lies on the same level. */
  lemma TieSecondIsShallowest()
    ensures ShallowestMatch(TieTree(), "s", TieTree().children[1].children[0])
  {
    var r := TieTree();
    var q := r.children[1];
    var s2 := q.children[0];
    assert AtDepth(r, r, 0) && AtDepth(r, q, 1) && AtDepth(r, s2, 2);
    forall d | AtDepth(r, d, 1)
      ensures Name(d) != "s"
    {
      var x :| AtDepth(r, x, 0) && x.Internal? && d in x.children;
    }
  }

  /**
   * Two nodes named "s" on the same level under different parents: both are shallowest
   * matches, and level order settles on the one under the parent enqueued first.
   */
  lemma LevelOrderBreaksTies()
    ensures var s1, s2 := TieTree().children[0].children[0], TieTree().children[1].children[0];
            s1 != s2 && Bfs([TieTree()], "s") == Found(s1) &&
            ShallowestMatch(TieTree(), "s", s2) && !FirstInLevelOrder(TieTree(), "s", s2)
  {
    TieSearchTakesFirstParent();
    TieSecondIsShallowest();
    BfsFindsShallowestMatch(TieTree(), "s");
    FirstInLevelOrderIsUnique(TieTree(), "s", TieTree().children[0].children[0], TieTree().children[1].children[0]);
  }

  /**
   * A successful lookup yields one node per segment, each named by its segment and
   * each strictly below the previous one (the first strictly below the anchor).
   */
  lemma {:induction false} FindPathMatchesSegments(anchor: Node, segments: seq<string>)
    requires FindPath(anchor, segments).Some?
    ensures |FindPath(anchor, segments).value| == |segments|
    ensures forall i :: 0 <= i < |segments| ==> Name(FindPath(anchor, segments).value[i]) == segments[i]
    ensures segments != [] ==> StrictlyBelow(FindPath(anchor, segments).value[0], anchor)
    ensures forall i :: 0 <= i < |segments| - 1 ==>
              StrictlyBelow(FindPath(anchor, segments).value[i + 1], FindPath(anchor, segments).value[i])
    decreases |segments|
  {
    if segments != [] {
      var m := Bfs([anchor], segments[0]).node;
      BfsFindsNamedDescendant([anchor], segments[0]);
      FindPathMatchesSegments(m, segments[1..]);
      var p := FindPath(anchor, segments).value;
      var rest := FindPath(m, segments[1..]).value;
      assert p == [m] + rest;
      forall i | 0 <= i < |segments|
        ensures Name(p[i]) == segments[i]
      {
        if i > 0 {
          assert p[i] == rest[i - 1];
        }
      }
      forall i | 0 <= i < |segments| - 1
        ensures StrictlyBelow(p[i + 1], p[i])
      {
        if i > 0 {
          assert p[i] == rest[i - 1] && p[i + 1] == rest[i];
        }
      }
    }
  }

  // ---------------------------------------------------------------------------
  // Leaves dequeued during the search.
  //
  // The search gives up as soon as it dequeues a node without children, even when the
  // segment's name occurs further along the queue. The counterexample below shows
  // this on a three-level tree; `BfsSkippingLeaves` is the search that passes over
  // leaves instead and finds a name exactly when it occurs below the anchor.
  // ---------------------------------------------------------------------------

  /** "C" lies below the root, yet the lookup of the path "C" reports nothing. */
  lemma LeafAbortsSearch()
    ensures BelowAny([ExampleTree()], "C")
    ensures FindPath(ExampleTree(), SplitOnArrow("C")) == None
    ensures FindPathSkippingLeaves(ExampleTree(), SplitOnArrow("C")).Some?
  {
    var root := ExampleTree();
    var b := root.children[1];
    var c := b.children[0];
    assert b in root.children && c in b.children;
    assert StrictlyBelow(c, b);
    assert StrictlyBelow(c, root);
    assert Name(c) == "C" && StrictlyBelow(c, [root][0]);
    assert BelowAny([root], "C");
    SplitOfArrowFree("C");
    ExampleSearchHitsLeaf();
    ExampleCorrectedSearchFindsC();
  }

  /** On the example tree the search for "C" dequeues the leaf `A` before reaching `B`. */
  lemma ExampleSearchHitsLeaf()
    ensures FindPath(ExampleTree(), ["C"]) == None
  {
    var root := ExampleTree();
    var a := root.children[0];
    var b := root.children[1];
    assert root.children == [a, b];
    assert FirstNamed(root.children, "C") == 2;
    assert [root][1..] + [a, b] == [a, b];
    assert Bfs([root], "C") == Bfs([a, b], "C");
    assert Bfs([a, b], "C") == HitLeaf;
  }

  /** The corrected search passes over `A`, expands `B` and finds `C`. */
  lemma ExampleCorrectedSearchFindsC()
    ensures FindPathSkippingLeaves(ExampleTree(), ["C"]) == Some([ExampleTree().children[1].children[0]])
  {
    var root := ExampleTree();
    var a := root.children[0];
    var b := root.children[1];
    var c := b.children[0];
    assert root.children == [a, b] && b.children == [c];
    assert FirstNamed(root.children, "C") == 2;
    assert FirstNamed(b.children, "C") == 0;
    assert [root][1..] + [a, b] == [a, b] && [a, b][1..] == [b];
    assert BfsSkippingLeaves([b], "C") == Some(c);
    assert BfsSkippingLeaves([a, b], "C") == Some(c);
    assert BfsSkippingLeaves([root], "C") == Some(c);
    assert ["C"][1..] == [];
    assert [c] + [] == [c];
  }

  /** The search as evidently intended: leaves have nothing to expand and are passed over. */
  function BfsSkippingLeaves(queue: seq<Node>, segment: string): Option<Node>
    decreases ForestSize(queue)
  {
    if queue == [] then None
    else
      match queue[0]
      case Leaf(_, _, _) =>
        ForestSizeExpand(queue);
        BfsSkippingLeaves(queue[1..], segment)
      case Internal(_, _, cs, _) =>
        var k := FirstNamed(cs, segment);
        if k < |cs| then Some(cs[k])
        else
          ForestSizeExpand(queue);
          BfsSkippingLeaves(queue[1..] + cs, segment)
  }

  function FindPathSkippingLeaves(anchor: Node, segments: seq<string>): Option<seq<Node>>
    decreases |segments|
  {
    if segments == [] then Some([])
    else
      match BfsSkippingLeaves([anchor], segments[0])
      case Some(m) => Prefixed([m], FindPathSkippingLeaves(m, segments[1..]))
      case None => None
  }

  /** The corrected search finds a segment exactly when some node below the queue has its name. */
  lemma {:induction false} SkippingLeavesFindsIffPresent(queue: seq<Node>, segment: string)
    ensures BfsSkippingLeaves(queue, segment).Some? <==> BelowAny(queue, segment)
    ensures BfsSkippingLeaves(queue, segment).Some? ==>
              Name(BfsSkippingLeaves(queue, segment).value) == segment
    decreases ForestSize(queue)
  {
    if queue != [] {
      var n := queue[0];
      var next := if n.Leaf? then queue[1..] else queue[1..] + n.children;
      ForestSizeExpand(queue);
      if n.Internal? && FirstNamed(n.children, segment) < |n.children| {
        var k := FirstNamed(n.children, segment);
        assert n.children[k] in n.children;
        assert StrictlyBelow(n.children[k], n);
      } else {
        SkippingLeavesFindsIffPresent(next, segment);
        assert BfsSkippingLeaves(queue, segment) == BfsSkippingLeaves(next, segment);
        BelowAnyAfterExpanding(queue, segment);
      }
    }
  }

  /** Expanding the head of the queue, when none of its children has the name, keeps BelowAny. */
  lemma BelowAnyAfterExpanding(queue: seq<Node>, segment: string)
    requires queue != []
    requires queue[0].Internal? ==> FirstNamed(queue[0].children, segment) == |queue[0].children|
    ensures BelowAny(queue, segment) <==>
              BelowAny(if queue[0].Leaf? then queue[1..] else queue[1..] + queue[0].children, segment)
  {
    var n := queue[0];
    var next := if n.Leaf? then queue[1..] else queue[1..] + n.children;
    if BelowAny(queue, segment) {
      var i, d :| 0 <= i < |queue| && StrictlyBelow(d, queue[i]) && Name(d) == segment;
      if i > 0 {
        assert next[i - 1] == queue[i];
      } else {
        var c :| c in n.children && (d == c || StrictlyBelow(d, c));
        var j :| 0 <= j < |n.children| && n.children[j] == c;
        assert next[|queue| - 1 + j] == c;
      }
    }
    if BelowAny(next, segment) {
      var i, d :| 0 <= i < |next| && StrictlyBelow(d, next[i]) && Name(d) == segment;
      if i < |queue| - 1 {
        assert next[i] == queue[i + 1];
      } else {
        assert next[i] in n.children;
        assert StrictlyBelow(d, n);
      }
    }
  }

  /** Where the search as written does not give up at a leaf, the corrected search agrees with it. */
  lemma {:induction false} SkippingLeavesAgreesUnlessAborted(queue: seq<Node>, segment: string)
    requires Bfs(queue, segment) != HitLeaf
    ensures Bfs(queue, segment).Found? ==> BfsSkippingLeaves(queue, segment) == Some(Bfs(queue, segment).node)
    ensures Bfs(queue, segment) == Exhausted ==> BfsSkippingLeaves(queue, segment) == None
    decreases ForestSize(queue)
  {
    if queue != [] {
      var n := queue[0];
      var cs := n.children;
      if FirstNamed(cs, segment) == |cs| {
        ForestSizeExpand(queue);
        SkippingLeavesAgreesUnlessAborted(queue[1..] + cs, segment);
      }
    }
  }

  /** A successful corrected lookup has the same shape as one of the search as written. */
  lemma {:induction false} SkippingLeavesMatchesSegments(anchor: Node, segments: seq<string>)
    requires FindPathSkippingLeaves(anchor, segments).Some?
    ensures |FindPathSkippingLeaves(anchor, segments).value| == |segments|
    ensures forall i :: 0 <= i < |segments| ==>
              Name(FindPathSkippingLeaves(anchor, segments).value[i]) == segments[i]
    decreases |segments|
  {
    if segments != [] {
      var m := BfsSkippingLeaves([anchor], segments[0]).value;
      SkippingLeavesFindsIffPresent([anchor], segments[0]);
      SkippingLeavesMatchesSegments(m, segments[1..]);
      var p := FindPathSkippingLeaves(anchor, segments).value;
      var rest := FindPathSkippingLeaves(m, segments[1..]).value;
      assert p == [m] + rest;
      forall i | 0 <= i < |segments|
        ensures Name(p[i]) == segments[i]
      {
        if i > 0 {
          assert p[i] == rest[i - 1];
        }
      }
    }
  }
}
