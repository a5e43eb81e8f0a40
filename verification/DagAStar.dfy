/** A* of the commit-DAG path finder: ties in the key are broken a little in favour of nodes already
    farther from the start, and closed nodes are never reopened. */
module DagAStar {
  import opened Graphs
  import opened MinHeaps
  import opened BestFirst
  import opened CanonicalPaths
  import opened SearchOrder
  import opened WeightedSearch

  /** What extracting the goal proves about the walk recorded for it. */
  lemma ArrivedBiased(g: Graph, w: Weight, c: Costs, s: Search, k: Policy, goal: NodeId)
    requires Searching(g, w, c, s, k, false, goal) && k.biased
    requires exists e: Entry :: e.item == goal && IsFirst(false, s.heap, e)
    ensures goal in s.dist && goal in s.tree
    ensures WalkFromTo(c.Keys, s.tree[goal], s.start, goal) && PathCost(c, s.tree[goal]) == s.dist[goal]
    ensures Answers(c, k, false, s.start, goal, None, Found(s.tree[goal], s.dist[goal]))
    ensures ConsistentBy(c, k.h, 1.0 - EPSILON) ==> CheapestWalk(c, s.tree[goal], s.start, goal)
    ensures Fair(c, k) ==> NearlyCheapest(c, s.dist[goal], s.start, goal)
  {
    var e: Entry :| e.item == goal && IsFirst(false, s.heap, e);
    EnterInner(g, w, c, s, k, e);
    TreeIsExact(c, s, goal);
    StopsAtGoal(g, w, c, s, k, false, goal, None, e);
    if ConsistentBy(c, k.h, 1.0 - EPSILON) {
      assert Steady(c, k);
      GoalIsCheapest(c, s, k, goal);
    }
    if Fair(c, k) {
      forall p | WalkFromTo(c.Keys, p, s.start, goal)
        ensures (1.0 - EPSILON) * s.dist[goal] <= PathCost(c, p)
      {
        LeastOpenIsBounded(c, s, k, goal, p);
      }
    }
  }

  /** Without a heuristic, the condition for exact answers is that no cost is negative. */
  lemma SilentIsSteadyIff(c: Costs, h: Heuristic)
    requires forall n :: h(n) == 0.0
    ensures ConsistentBy(c, h, 1.0 - EPSILON) <==> NonNegative(c)
  {
    forall u, v | (u, v) in c
      ensures h(u) <= (1.0 - EPSILON) * c[(u, v)] + h(v) <==> c[(u, v)] >= 0.0
    {
    }
  }

  /** `total` is within the factor 1 / (1 - EPSILON) of every walk. */
  ghost predicate NearlyCheapest(c: Costs, total: real, s: NodeId, t: NodeId) {
    forall p :: WalkFromTo(c.Keys, p, s, t) ==> (1.0 - EPSILON) * total <= PathCost(c, p)
  }

  ghost predicate Equals(x: real, n: int) {
    x == n as real
  }

  ghost predicate Whole(x: real) {
    exists n :: Equals(x, n)
  }

  ghost predicate WholeCosts(c: Costs) {
    forall u, v :: (u, v) in c ==> Whole(c[(u, v)])
  }

  lemma WholeSum(x: real, y: real)
    requires Whole(x) && Whole(y)
    ensures Whole(x + y)
  {
    var m :| Equals(x, m);
    var n :| Equals(y, n);
    assert Equals(x + y, m + n);
  }

  lemma {:induction false} WholePath(c: Costs, p: seq<NodeId>)
    requires WholeCosts(c) && IsWalk(c.Keys, p)
    ensures Whole(PathCost(c, p))
    decreases |p|
  {
    if |p| == 1 {
      assert Equals(PathCost(c, p), 0);
    } else {
      PathCostFirst(c, p);
      WholePath(c, p[1..]);
      var u, v := p[0], p[1];
      assert (u, v) in c && Whole(c[(u, v)]);
      WholeSum(c[(u, v)], PathCost(c, p[1..]));
    }
  }

  /** The bias cannot make up for a whole unit below 1 / EPSILON - 1. */
  lemma BiasBelowOneUnit(m: int, n: int)
    requires (1.0 - EPSILON) * m as real <= n as real && n as real < 1.0 / EPSILON - 1.0
    ensures m <= n
  {
  }

  /** With whole costs the bias is harmless as long as the optimum is below 1 / EPSILON - 1. */
  lemma NearlyCheapestIsCheapest(c: Costs, p: seq<NodeId>, q: seq<NodeId>, s: NodeId, t: NodeId)
    requires WholeCosts(c) && WalkFromTo(c.Keys, p, s, t) && NearlyCheapest(c, PathCost(c, p), s, t)
    requires WalkFromTo(c.Keys, q, s, t) && PathCost(c, q) < 1.0 / EPSILON - 1.0
    ensures PathCost(c, p) <= PathCost(c, q)
  {
    WholePath(c, p);
    WholePath(c, q);
    var m :| Equals(PathCost(c, p), m);
    var n :| Equals(PathCost(c, q), n);
    BiasBelowOneUnit(m, n);
  }

  /** A* over child (or parent) lists. Without a node limit it always finds a path when there is one. */
  method AStarSearch(g: Graph, w: Weight, from: NodeId, to: NodeId, h: Heuristic) returns (r: PathResult)
    ensures !r.InvalidStart?
    ensures r.NoPath? <==> !Reachable(EdgesOf(g), from, to)
    ensures r.Found? ==> WalkFromTo(EdgesOf(g), r.path, from, to) && PathCost(CostsOf(g, w), r.path) == r.totalCost
    ensures Answers(CostsOf(g, w), Policy(h, true), false, from, to, None, r)
    ensures r.Found? && ConsistentBy(CostsOf(g, w), h, 1.0 - EPSILON) ==> CheapestWalk(CostsOf(g, w), r.path, from, to)
    ensures r.Found? && NonNegative(CostsOf(g, w)) && (forall n :: h(n) == 0.0) ==> CheapestWalk(CostsOf(g, w), r.path, from, to)
    ensures r.Found? && NonNegative(CostsOf(g, w)) && Consistent(CostsOf(g, w), h) ==>
              NearlyCheapest(CostsOf(g, w), r.totalCost, from, to)
  {
    ghost var c := CostsOf(g, w);
    if forall n :: h(n) == 0.0 {
      SilentIsSteadyIff(c, h);
    }
    var k := Policy(h, true);
    var m := Maps(map[from := 0.0], map[], {});
    ghost var s := Initial(from, k);
    var pq := new MinHeap(false);
    pq.Insert(from, Key(k, from, 0.0));
    Start(g, w, c, from, k, false, to);
    var empty := false;
    ghost var bound := |ReachSet(g, from)|;
    while !empty
      invariant pq.Valid() && !pq.tieBreak && pq.Contents() == s.heap && (empty <==> s.heap == multiset{})
      invariant Shows(s, from, m)
      invariant Searching(g, w, c, s, k, false, to)
      invariant |m.visited| <= bound
      decreases bound - |m.visited|, |s.heap|
    {
      var arrived;
      arrived, m, s := Turn(g, w, k, false, m, pq, to, c, s);
      if arrived {
        ArrivedBiased(g, w, c, s, k, to);
        var path := ReconstructPath(m.prev, from, to, c, s);
        return Found(path, m.dist[to]);
      }
      ClosedFits(g, w, c, s, k, false, to);
      empty := pq.IsEmpty();
    }
    if Reachable(c.Keys, from, to) {
      StoppedEarly(g, c, s, k, to);
    }
    StopsWithoutGoal(c, s, k, false, to, None);
    return NoPath;
  }
}
