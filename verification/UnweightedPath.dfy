/** The one-sided breadth-first shortest path, and its agreement with the bidirectional one. */
module UnweightedPath {
  import opened Graphs
  import opened Sorting
  import opened Topology
  import opened Breadth
  import opened BidirectionalBfs

  datatype PathOutcome = UnknownStart | Answer(answer: PathAnswer)

  /** `_reconstructPath` */
  method ReconstructPath(parent: map<NodeId, NodeId>, start: NodeId, goal: NodeId, ghost r: Rel,
          ghost tree: map<NodeId, seq<NodeId>>)
      returns (path: seq<NodeId>)
    requires ParentsOk(r, start, parent, tree) && goal in tree
    ensures path == tree[goal]
  {
    var pushed: seq<NodeId> := [goal];
    var current := goal;
    assert Spells(r, start, tree, current);
    while current != start
      invariant current in tree && Spells(r, start, tree, current)
      invariant pushed != [] && tree[goal] == tree[current][..|tree[current]| - 1] + Reverse(pushed)
      decreases |tree[current]|
    {
      assert Linked(r, parent, tree, current);
      var pred := parent[current];
      assert Spells(r, start, tree, pred);
      assert tree[current][..|tree[current]| - 1] == tree[pred][..|tree[pred]| - 1] + [pred];
      assert Reverse(pushed + [pred]) == [pred] + Reverse(pushed);
      pushed := pushed + [pred];
      current := pred;
    }
    path := Reverse(pushed);
    assert tree[start][..|tree[start]| - 1] == [];
  }

  // ------------------------------------------------------- which shortest path it is

  /** `u` lies at distance `d`, and is the smallest node there with an edge to `n`, which lies one farther. */
  ghost predicate LeastFrom(r: Rel, start: NodeId, u: NodeId, n: NodeId, d: nat) {
    && u in Layer(r, start, d) && n in Layer(r, start, d + 1) && (u, n) in r
    && forall x :: x in Layer(r, start, d) && (x, n) in r ==> u <= x
  }

  ghost predicate LeastParent(r: Rel, start: NodeId, parent: map<NodeId, NodeId>, n: NodeId)
    requires n in parent
  {
    exists d: nat :: LeastFrom(r, start, parent[n], n, d)
  }

  ghost predicate LeastParents(r: Rel, start: NodeId, parent: map<NodeId, NodeId>) {
    forall n {:trigger LeastParent(r, start, parent, n)} :: n in parent ==> LeastParent(r, start, parent, n)
  }

  /** Every node of the path is the smallest one from which the next can be reached in time. */
  ghost predicate LeastPath(r: Rel, start: NodeId, p: seq<NodeId>) {
    p != [] && p[0] == start && forall i {:trigger LeastFrom(r, start, p[i], p[i + 1], i)} :: 0 <= i < |p| - 1 ==> LeastFrom(r, start, p[i], p[i + 1], i)
  }

  lemma OneLayer(r: Rel, start: NodeId, n: NodeId, a: nat, b: nat)
    requires n in Layer(r, start, a) && n in Layer(r, start, b)
    ensures a == b
  {
    LayerIsDistance(r, start, n, a);
    LayerIsDistance(r, start, n, b);
  }

  lemma NextLayer(r: Rel, start: NodeId, u: NodeId, n: NodeId, d: nat)
    requires u in Layer(r, start, d) && (u, n) in r && n !in Ball(r, start, d)
    ensures n in Layer(r, start, d + 1)
  {
    BallHoldsLayer(r, start, d);
    SuccessorIn(r, Ball(r, start, d), u, n);
  }

  lemma FirstIsLeast(r: Rel, start: NodeId, sorted: seq<NodeId>, parent: map<NodeId, NodeId>, n: NodeId, d: nat)
    requires SetOf(sorted) == Layer(r, start, d) && (forall i, j :: 0 <= i < j < |sorted| ==> sorted[i] <= sorted[j])
    requires FoundFirst(r, sorted, parent, n) && n !in Ball(r, start, d)
    ensures n in parent && LeastFrom(r, start, parent[n], n, d)
  {
    var k :| FirstAt(r, sorted, parent, n, k);
    assert sorted[k] in SetOf(sorted);
    NextLayer(r, start, sorted[k], n, d);
    forall x | x in Layer(r, start, d) && (x, n) in r
      ensures sorted[k] <= x
    {
      assert x in SetOf(sorted);
      var m :| 0 <= m < |sorted| && sorted[m] == x;
    }
  }

  /** Expanding a sorted frontier gives every new node its least parent. */
  lemma LevelParents(r: Rel, start: NodeId, visited: set<NodeId>, parent0: map<NodeId, NodeId>, sorted: seq<NodeId>, d: nat,
          tree0: map<NodeId, seq<NodeId>>, parent: map<NodeId, NodeId>)
    requires Side(r, start, visited, parent0, sorted, d, tree0) && LeastParents(r, start, parent0)
    requires forall i, j :: 0 <= i < j < |sorted| ==> sorted[i] <= sorted[j]
    requires NewParents(r, sorted, parent0, parent) && start !in parent
    ensures LeastParents(r, start, parent)
  {
    forall n | n in parent
      ensures LeastParent(r, start, parent, n)
    {
      if n in parent0 {
        assert SameParent(parent0, parent, n) && LeastParent(r, start, parent0, n);
        var e: nat :| LeastFrom(r, start, parent0[n], n, e);
        assert LeastFrom(r, start, parent[n], n, e);
      } else {
        FirstIsLeast(r, start, sorted, parent, n, d);
      }
    }
  }

  /** A node spelt by the parents lies at the distance of its walk. */
  lemma {:induction false} SpeltAtDistance(r: Rel, start: NodeId, parent: map<NodeId, NodeId>, tree: map<NodeId, seq<NodeId>>, n: NodeId)
    requires ParentsOk(r, start, parent, tree) && LeastParents(r, start, parent) && n in tree
    ensures tree[n] != [] && n in Layer(r, start, |tree[n]| - 1) && LeastPath(r, start, tree[n])
    decreases |tree[n]|
  {
    if n != start {
      assert Linked(r, parent, tree, n) && LeastParent(r, start, parent, n);
      var u := parent[n];
      SpeltAtDistance(r, start, parent, tree, u);
      var d: nat :| LeastFrom(r, start, u, n, d);
      OneLayer(r, start, u, d, |tree[u]| - 1);
      assert Spells(r, start, tree, u);
      LeastPathMore(r, start, tree[u], n);
    } else {
      assert Layer(r, start, 0) == {start};
    }
  }

  lemma LeastPathMore(r: Rel, start: NodeId, q: seq<NodeId>, n: NodeId)
    requires LeastPath(r, start, q) && LeastFrom(r, start, q[|q| - 1], n, |q| - 1)
    ensures LeastPath(r, start, q + [n])
  {
    var p := q + [n];
    forall i | 0 <= i < |p| - 1
      ensures LeastFrom(r, start, p[i], p[i + 1], i)
    {
      if i < |q| - 1 {
        assert LeastFrom(r, start, q[i], q[i + 1], i);
      }
    }
  }

  lemma EndsAtDistance(r: Rel, start: NodeId, p: seq<NodeId>)
    requires LeastPath(r, start, p)
    ensures p[|p| - 1] in Layer(r, start, |p| - 1)
  {
    if |p| > 1 {
      var i := |p| - 2;
      assert LeastFrom(r, start, p[i], p[i + 1], i);
    } else {
      assert Layer(r, start, 0) == {start};
    }
  }

  lemma {:induction false} LeastPathsAgree(r: Rel, start: NodeId, p: seq<NodeId>, q: seq<NodeId>, k: nat)
    requires LeastPath(r, start, p) && LeastPath(r, start, q) && |p| == |q| && p[|p| - 1] == q[|q| - 1] && k < |p|
    ensures p[|p| - 1 - k] == q[|p| - 1 - k]
  {
    if k > 0 {
      LeastPathsAgree(r, start, p, q, k - 1);
      var i := |p| - 1 - k;
      assert LeastFrom(r, start, p[i], p[i + 1], i) && LeastFrom(r, start, q[i], q[i + 1], i);
    }
  }

  /** There is one such path to a node: the answer depends on edges and ids alone. */
  lemma LeastPathIsUnique(r: Rel, start: NodeId, p: seq<NodeId>, q: seq<NodeId>)
    requires LeastPath(r, start, p) && LeastPath(r, start, q) && p[|p| - 1] == q[|q| - 1]
    ensures p == q
  {
    EndsAtDistance(r, start, p);
    EndsAtDistance(r, start, q);
    OneLayer(r, start, p[|p| - 1], |p| - 1, |q| - 1);
    forall i | 0 <= i < |p| ensures p[i] == q[i] { LeastPathsAgree(r, start, p, q, |p| - 1 - i); }
  }

  lemma SideReordered(r: Rel, root: NodeId, visited: set<NodeId>, parent: map<NodeId, NodeId>, a: seq<NodeId>,
          b: seq<NodeId>, d: nat, tree: map<NodeId, seq<NodeId>>)
    requires Side(r, root, visited, parent, a, d, tree) && multiset(a) == multiset(b)
    ensures Side(r, root, visited, parent, b, d, tree)
  {
    forall n ensures n in SetOf(a) <==> n in SetOf(b) { assert n in multiset(a) <==> n in multiset(b); }
  }

  /** With the goal outside the ball, no walk to it is that short. */
  lemma GoalIsFar(r: Rel, start: NodeId, goal: NodeId, d: nat)
    requires goal !in Ball(r, start, d)
    ensures forall p :: WalkFromTo(r, p, start, goal) ==> |p| - 1 > d
  {
    forall p | WalkFromTo(r, p, start, goal) ensures |p| - 1 > d {
      if |p| - 1 <= d { WalkInBall(r, start, p, goal, d); }
    }
  }

  /** A search that has run dry without the goal will never find it. */
  lemma RanDry(r: Rel, start: NodeId, goal: NodeId, visited: set<NodeId>, parent: map<NodeId, NodeId>, d: nat,
          tree: map<NodeId, seq<NodeId>>)
    requires Side(r, start, visited, parent, [], d, tree) && goal !in visited
    ensures !Reachable(r, start, goal)
  {
    Idle(r, start, visited, parent, d, tree);
    if p :| WalkFromTo(r, p, start, goal) {
      StoppedHoldsWalks(r, start, goal, d, p);
    }
  }

  lemma StoppedHoldsWalks(r: Rel, start: NodeId, goal: NodeId, d: nat, p: seq<NodeId>)
    requires Ball(r, start, d + 1) == Ball(r, start, d) && WalkFromTo(r, p, start, goal)
    ensures goal in Ball(r, start, d)
  {
    var k := d + |p|;
    BallStops(r, start, d, k);
    WalkInBall(r, start, p, goal, k);
  }

  /** The node limit cannot strike before a reachable goal is seen. */
  lemma RoomLeft(g: Graph, start: NodeId, goal: NodeId, visited: set<NodeId>, d: nat)
    requires visited == Ball(EdgesOf(g), start, d) && goal !in visited && Reachable(EdgesOf(g), start, goal)
    ensures |visited| < |ReachSet(g, start)|
  {
    ReachSetIsExact(g, start);
    forall n | n in visited ensures n in ReachSet(g, start) {
      var p := BallHasWalk(EdgesOf(g), start, n, d);
    }
    SubsetCard(visited + {goal}, ReachSet(g, start));
  }

  ghost predicate WithinReach(g: Graph, start: NodeId, goal: NodeId, maxDepth: nat) {
    exists p :: WalkFromTo(EdgesOf(g), p, start, goal) && |p| - 1 <= maxDepth
  }

  /** `shortestPath`: what it finds is a shortest walk of at most `maxDepth` edges; with room for the reachable nodes
      it finds one exactly when there is one. */
  method ShortestPathFrom(g: Graph, start: NodeId, goal: NodeId, maxNodes: nat, maxDepth: nat) returns (r: PathOutcome)
    ensures r.UnknownStart? <==> start !in g.alive
    ensures r.Answer? && r.answer.Found? ==> ShortestWalk(EdgesOf(g), r.answer.path, start, goal) && |r.answer.path| - 1 <= maxDepth
    ensures r.Answer? && r.answer.Found? ==> LeastPath(EdgesOf(g), start, r.answer.path)
    ensures r.Answer? && |ReachSet(g, start)| <= maxNodes ==> (r.answer.Found? <==> WithinReach(g, start, goal, maxDepth))
  {
    if start !in g.alive {
      return UnknownStart;
    }
    ghost var e := EdgesOf(g);
    if start == goal {
      assert WalkFromTo(e, [start], start, goal);
      return Answer(Found([start]));
    }
    var visited: set<NodeId>, parent: map<NodeId, NodeId>, frontier := {start}, map[], [start];
    ghost var tree := map[start := [start]];
    var depth := 0;
    StartSide(e, start);
    while |frontier| > 0 && |visited| < maxNodes
      invariant Searching(e, start, goal, maxDepth, depth, visited, parent, frontier, tree) && depth <= maxDepth + 1
      invariant LeastParents(e, start, parent)
      decreases maxDepth + 1 - depth
    {
      var answer;
      answer, visited, parent, frontier, tree := ExpandLevel(g, start, goal, maxDepth, depth, visited, parent, frontier, tree);
      if answer.Found? {
        return Answer(answer);
      }
      depth := depth + 1;
    }
    NotFoundIsRight(g, start, goal, maxNodes, maxDepth, depth, visited, parent, frontier, tree);
    r := Answer(NotFound);
  }

  /** Between two levels: the ball of radius `depth` is known and lacks the goal, or the depth bound has been met. */
  ghost predicate Searching(r: Rel, start: NodeId, goal: NodeId, maxDepth: nat, depth: nat, visited: set<NodeId>,
          parent: map<NodeId, NodeId>,
                            frontier: seq<NodeId>, tree: map<NodeId, seq<NodeId>>) {
    if depth <= maxDepth then Side(r, start, visited, parent, frontier, depth, tree) && goal !in visited
    else depth == maxDepth + 1 && frontier == [] && goal !in Ball(r, start, maxDepth)
  }

  /** One level: sorted, then expanded unless it lies at the depth bound. */
  method ExpandLevel(g: Graph, start: NodeId, goal: NodeId, maxDepth: nat, depth: nat, visited0: set<NodeId>,
          parent0: map<NodeId, NodeId>,
                     frontier0: seq<NodeId>, ghost tree0: map<NodeId, seq<NodeId>>)
      returns (answer: PathAnswer, visited: set<NodeId>, parent: map<NodeId, NodeId>, frontier: seq<NodeId>, ghost tree: map<NodeId, seq<NodeId>>)
    requires Searching(EdgesOf(g), start, goal, maxDepth, depth, visited0, parent0, frontier0, tree0) && frontier0 != []
    requires LeastParents(EdgesOf(g), start, parent0)
    ensures answer.Found? ==> LeastPath(EdgesOf(g), start, answer.path)
    ensures LeastParents(EdgesOf(g), start, parent)
    ensures answer.Found? ==> ShortestWalk(EdgesOf(g), answer.path, start, goal) && |answer.path| - 1 <= maxDepth
    ensures answer.NotFound? ==> Searching(EdgesOf(g), start, goal, maxDepth, depth + 1, visited, parent, frontier, tree)
  {
    ghost var e := EdgesOf(g);
    var sorted := Sort((a: NodeId, b: NodeId) => a <= b, frontier0);
    SideReordered(e, start, visited0, parent0, frontier0, sorted, depth, tree0);
    answer, visited, parent, frontier, tree := NotFound, visited0, parent0, [], tree0;
    if depth < maxDepth {
      GoalIsFar(e, start, goal, depth);
      var met;
      met, visited, parent, frontier, tree := ExpandFrontier(g, start, visited, parent, sorted, {goal}, depth, tree);
      LevelParents(e, start, visited0, parent0, sorted, depth, tree0, parent);
      if met.Some? {
        SpeltAtDistance(e, start, parent, tree, goal);
        assert Spells(e, start, tree, goal) && Short(tree, goal, depth + 1);
        var path := ReconstructPath(parent, start, goal, e, tree);
        answer := Found(path);
      }
    }
  }

  lemma NotFoundIsRight(g: Graph, start: NodeId, goal: NodeId, maxNodes: nat, maxDepth: nat, depth: nat, visited: set<NodeId>,
                        parent: map<NodeId, NodeId>, frontier: seq<NodeId>, tree: map<NodeId, seq<NodeId>>)
    requires Searching(EdgesOf(g), start, goal, maxDepth, depth, visited, parent, frontier, tree)
    requires frontier == [] || |visited| >= maxNodes
    ensures |ReachSet(g, start)| <= maxNodes ==> !WithinReach(g, start, goal, maxDepth)
  {
    if depth > maxDepth {
      GoalIsFar(EdgesOf(g), start, goal, maxDepth);
    } else if frontier == [] {
      RanDry(EdgesOf(g), start, goal, visited, parent, depth, tree);
    } else if Reachable(EdgesOf(g), start, goal) {
      RoomLeft(g, start, goal, visited, depth);
    }
  }

  /** Where neither limit cuts in, the one-sided and the bidirectional search agree on whether there is a path and on
      its length. */
  method BothAgree(g: Graph, inn: Graph, start: NodeId, goal: NodeId, maxNodes: nat,
          maxDepth: nat) returns (one: PathOutcome, two: PathAnswer)
    requires Inverse(g, inn)
    ensures one.Answer? && |ReachSet(g, start)| <= maxNodes && |ReachSet(g, start)| <= maxDepth ==>
              (one.answer.Found? <==> two.Found?) && (two.Found? ==> |one.answer.path| == |two.path|)
  {
    one := ShortestPathFrom(g, start, goal, maxNodes, maxDepth);
    two := ShortestPath(g, inn, start, goal, maxDepth);
    if Reachable(EdgesOf(g), start, goal) && |ReachSet(g, start)| <= maxDepth {
      DepthSuffices(g, start, goal, maxDepth);
    }
  }

  lemma DepthSuffices(g: Graph, start: NodeId, goal: NodeId, maxDepth: nat)
    requires Reachable(EdgesOf(g), start, goal) && |ReachSet(g, start)| <= maxDepth
    ensures WithinReach(g, start, goal, maxDepth)
  {
    var p :| WalkFromTo(EdgesOf(g), p, start, goal);
    ShortWalkExists(g, start, goal, p);
  }

  /** Whatever is reachable is reachable without repeating a node. */
  lemma ShortWalkExists(g: Graph, start: NodeId, goal: NodeId, p: seq<NodeId>)
    requires WalkFromTo(EdgesOf(g), p, start, goal)
    ensures exists q :: WalkFromTo(EdgesOf(g), q, start, goal) && |q| <= |ReachSet(g, start)|
    decreases |p|
  {
    var c := ReachSet(g, start);
    ReachSetIsExact(g, start);
    forall i | 0 <= i < |p| ensures p[i] in c {
      SplitWalk(EdgesOf(g), p, i);
      assert WalkFromTo(EdgesOf(g), p[..i + 1], start, p[i]);
    }
    if |p| > |c| {
      var i, j := Pigeonhole(p, c);
      SplitWalk(EdgesOf(g), p, i);
      SplitWalk(EdgesOf(g), p, j);
      JoinWalks(EdgesOf(g), p[..i + 1], p[j..], start, p[i], goal);
      ShortWalkExists(g, start, goal, p[..i + 1] + p[j..][1..]);
    }
  }
}
