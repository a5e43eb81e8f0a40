/** Dijkstra and A* of the unified traversal engine. Weights may be any reals and the heuristic any
    function: what is promised without conditions and what only under them is in the contracts. */
module WeightedSearch {
  import opened Graphs
  import opened MinHeaps
  import opened BestFirst
  import opened CanonicalPaths
  import opened SearchOrder

  /** The mutable maps of one search: best known distances, predecessors and closed nodes. */
  datatype Maps = Maps(dist: map<NodeId, real>, prev: map<NodeId, NodeId>, visited: set<NodeId>)

  /** Walks the predecessor map back from `goal` and reverses what it collected. */
  method ReconstructPath(prev: map<NodeId, NodeId>, start: NodeId, goal: NodeId,
                         ghost c: Costs, ghost s: Search) returns (path: seq<NodeId>)
    requires TreeOk(c, s) && s.prev == prev && s.start == start && goal in s.dist
    ensures path == s.tree[goal]
  {
    var collected := [goal];
    var current := goal;
    assert Reached(c, s, goal);
    while current != start
      invariant current in s.dist && Reached(c, s, current)
      invariant s.tree[goal] == s.tree[current][..|s.tree[current]| - 1] + Reverse(collected)
      invariant |collected| > 0 && collected[|collected| - 1] == current
      decreases |s.tree[current]|
    {
      assert Linked(c, s, current);
      if current !in prev {
        break;
      }
      var pred := prev[current];
      assert Reached(c, s, pred);
      assert Reverse(collected + [pred]) == [pred] + Reverse(collected);
      assert s.tree[current][..|s.tree[current]| - 1] == s.tree[pred][..|s.tree[pred]| - 1] + [pred];
      collected := collected + [pred];
      current := pred;
    }
    path := Reverse(collected);
  }

  /** The concrete maps of a search are the ones its ghost record speaks of. */
  ghost predicate Shows(s: Search, start: NodeId, m: Maps) {
    s.start == start && s.dist == m.dist && s.prev == m.prev && s.closed == m.visited
  }

  /** Ranked by distance over positive costs, ties broken by id: the canonical case. */
  ghost predicate Plain(c: Costs, k: Policy, tie: bool) {
    tie && Positive(c) && ByDistance(k)
  }

  /** What follows for closed nodes when the heuristic is fair, or consistent in the key's own measure. */
  ghost predicate Promised(c: Costs, s: Search, k: Policy) {
    (Fair(c, k) ==> Bounded(c, s, k)) && (Steady(c, k) ==> Exact(c, s))
  }

  lemma PromisedOn(c: Costs, s: Search, t: Search, k: Policy)
    requires Promised(c, s, k) && t.start == s.start && t.closed == s.closed
    requires forall n :: n in s.closed ==> n in s.dist && n in t.dist && t.dist[n] == s.dist[n]
    ensures Promised(c, t, k)
  {
    if Steady(c, k) {
      KeepsExact(c, s, t);
    }
  }

  lemma PromisedClose(c: Costs, s: Search, k: Policy, e: Entry)
    requires TreeOk(c, s) && Relaxed(c, s, {}) && IsLeastOpen(s, k, e.item) && Promised(c, s, k)
    ensures Promised(c, Close(s, e), k)
  {
    if Fair(c, k) {
      CloseKeepsBounded(c, s, k, e);
    }
    if Steady(c, k) {
      CloseKeepsExact(c, s, k, e);
    }
  }

  lemma SettledAfter(g: Graph, w: Weight, c: Costs, s: Search, k: Policy, u: NodeId, i: nat)
    requires Inner(g, w, c, s, k, u, i) && SettledInner(g, w, c, s, u, i) && Positive(c) && i < |Out(g, u)|
    ensures SettledInner(g, w, c, After(g, w, s, k, true, u, i), u, i + 1)
  {
    if EntryUpdates(g, w, s, true, u, i) {
      SettledImprove(g, w, c, s, k, u, i, Out(g, u)[i].to, w(u, Out(g, u)[i].to, Out(g, u)[i].lbl));
    } else {
      SettledKeep(g, w, c, s, k, u, i);
    }
  }

  /** What the main loop keeps about a search that has not reached its goal. */
  ghost predicate Searching(g: Graph, w: Weight, c: Costs, s: Search, k: Policy, tie: bool, goal: NodeId) {
    && Outer(g, w, c, s, k) && goal !in s.closed
    && Promised(c, s, k)
    && (Plain(c, k, tie) ==> SettledOuter(c, s))
    && Replayed(c, k, tie, goal, s)
  }

  /** What the neighbour loop of `u` keeps after `i` entries. */
  ghost predicate Expanding(g: Graph, w: Weight, c: Costs, s: Search, k: Policy, tie: bool, goal: NodeId, u: NodeId, i: nat) {
    && Inner(g, w, c, s, k, u, i) && goal !in s.closed
    && Promised(c, s, k)
    && (Plain(c, k, tie) ==> SettledInner(g, w, c, s, u, i))
    && Replaying(g, w, c, k, tie, goal, s, u, i)
  }

  lemma Start(g: Graph, w: Weight, c: Costs, start: NodeId, k: Policy, tie: bool, goal: NodeId)
    requires Prices(g, w, c)
    ensures Searching(g, w, c, Initial(start, k), k, tie, goal)
  {
    InitialOk(c, start, k);
    ReplayStart(c, k, tie, start, goal);
  }

  lemma SkipStale(g: Graph, w: Weight, c: Costs, s: Search, k: Policy, tie: bool, goal: NodeId, e: Entry)
    requires Searching(g, w, c, s, k, tie, goal) && IsFirst(tie, s.heap, e) && e.item in s.closed
    ensures Searching(g, w, c, Drop(s, e), k, tie, goal)
  {
    DropStale(g, w, c, s, k, e);
    PromisedOn(c, s, Drop(s, e), k);
    if Plain(c, k, tie) {
      var t := Drop(s, e);
      forall x, v | x in t.closed && (x, v) in c ensures Settled(t, x, v, c[(x, v)]) { assert Settled(s, x, v, c[(x, v)]); }
      forall a, b | a in t.closed && b in t.dist && b !in t.closed ensures NoLater(t, a, b) { assert NoLater(s, a, b); }
    }
  }

  lemma Enter(g: Graph, w: Weight, c: Costs, s: Search, k: Policy, tie: bool, goal: NodeId, e: Entry)
    requires Searching(g, w, c, s, k, tie, goal) && IsFirst(tie, s.heap, e) && e.item !in s.closed && e.item != goal
    ensures Expanding(g, w, c, Close(s, e), k, tie, goal, e.item, 0)
  {
    EnterInner(g, w, c, s, k, e);
    PromisedClose(c, s, k, e);
    ReplayEnter(g, w, c, s, k, tie, goal, e);
    if Plain(c, k, tie) {
      SettledEnter(g, w, c, s, k, e);
    }
  }

  lemma ExpandEntry(g: Graph, w: Weight, c: Costs, s: Search, k: Policy, tie: bool, goal: NodeId, u: NodeId, i: nat)
    requires Expanding(g, w, c, s, k, tie, goal, u, i) && i < |Out(g, u)|
    ensures Expanding(g, w, c, After(g, w, s, k, tie, u, i), k, tie, goal, u, i + 1)
    ensures After(g, w, s, k, tie, u, i).closed == s.closed
  {
    InnerStep(g, w, c, s, k, tie, u, i);
    PromisedOn(c, s, After(g, w, s, k, tie, u, i), k);
    ReplayEntries(g, w, c, k, tie, goal, s, u, i);
    if Plain(c, k, tie) {
      SettledAfter(g, w, c, s, k, u, i);
    }
  }

  lemma Leave(g: Graph, w: Weight, c: Costs, s: Search, k: Policy, tie: bool, goal: NodeId, u: NodeId)
    requires Expanding(g, w, c, s, k, tie, goal, u, |Out(g, u)|)
    ensures Searching(g, w, c, s, k, tie, goal)
  {
    LeaveInner(g, w, c, s, k, u);
    ReplayLeave(g, w, c, k, tie, goal, s, u);
    if Plain(c, k, tie) {
      SettledLeave(g, w, c, s, k, u);
    }
  }

  /** What extracting the goal proves about the walk recorded for it. */
  lemma Arrived(g: Graph, w: Weight, c: Costs, s: Search, k: Policy, tie: bool, goal: NodeId)
    requires Searching(g, w, c, s, k, tie, goal) && !k.biased
    requires exists e: Entry :: e.item == goal && IsFirst(tie, s.heap, e)
    ensures goal in s.dist && goal in s.tree
    ensures WalkFromTo(c.Keys, s.tree[goal], s.start, goal) && PathCost(c, s.tree[goal]) == s.dist[goal]
    ensures forall limit :: Within(limit, |s.closed|) ==> Answers(c, k, tie, s.start, goal, limit, Found(s.tree[goal], s.dist[goal]))
    ensures Consistent(c, k.h) ==> CheapestWalk(c, s.tree[goal], s.start, goal)
    ensures Plain(c, k, tie) ==> Canonical(c, s.tree[goal])
  {
    var e: Entry :| e.item == goal && IsFirst(tie, s.heap, e);
    EnterInner(g, w, c, s, k, e);
    TreeIsExact(c, s, goal);
    forall limit | Within(limit, |s.closed|)
      ensures Answers(c, k, tie, s.start, goal, limit, Found(s.tree[goal], s.dist[goal]))
    {
      StopsAtGoal(g, w, c, s, k, tie, goal, limit, e);
    }
    if Consistent(c, k.h) {
      assert Steady(c, k);
      GoalIsCheapest(c, s, k, goal);
    }
    if Plain(c, k, tie) {
      assert Fair(c, k);
      TreeIsCanonical(c, s, k, goal, goal);
    }
  }

  /** What a search proves that ends without its goal. */
  lemma Missed(g: Graph, w: Weight, c: Costs, s: Search, k: Policy, goal: NodeId, maxNodes: nat)
    requires Searching(g, w, c, s, k, true, goal) && c.Keys == EdgesOf(g)
    requires |s.closed| <= maxNodes && (s.heap == multiset{} || |s.closed| == maxNodes)
    ensures Answers(c, k, true, s.start, goal, Some(maxNodes), NoPath)
    ensures |ReachSet(g, s.start)| <= maxNodes ==> !Reachable(c.Keys, s.start, goal)
  {
    StopsWithoutGoal(c, s, k, true, goal, Some(maxNodes));
    if Reachable(c.Keys, s.start, goal) {
      StoppedEarly(g, c, s, k, goal);
    }
  }

  /** The same without a heuristic. */
  lemma ArrivedByDistance(g: Graph, w: Weight, c: Costs, s: Search, goal: NodeId)
    requires Searching(g, w, c, s, ByCost(), true, goal)
    requires exists e: Entry :: e.item == goal && IsFirst(true, s.heap, e)
    ensures goal in s.dist && goal in s.tree
    ensures WalkFromTo(c.Keys, s.tree[goal], s.start, goal) && PathCost(c, s.tree[goal]) == s.dist[goal]
    ensures forall limit :: Within(limit, |s.closed|) ==> Answers(c, ByCost(), true, s.start, goal, limit, Found(s.tree[goal], s.dist[goal]))
    ensures NonNegative(c) ==> CheapestWalk(c, s.tree[goal], s.start, goal)
    ensures Positive(c) ==> Canonical(c, s.tree[goal])
  {
    Arrived(g, w, c, s, ByCost(), true, goal);
    assert NonNegative(c) ==> Consistent(c, NoHeuristic);
  }

  lemma ClosedFits(g: Graph, w: Weight, c: Costs, s: Search, k: Policy, tie: bool, goal: NodeId)
    requires Searching(g, w, c, s, k, tie, goal) && c.Keys == EdgesOf(g)
    ensures |s.closed| <= |ReachSet(g, s.start)|
  {
    forall n | n in s.closed ensures n in ReachSet(g, s.start) { DiscoveredIsReachable(g, c, s, n); }
    SubsetCard(s.closed, ReachSet(g, s.start));
  }

  /** Looks at one neighbour-list entry of the node just closed. Without `tie` an equally good way is ignored. */
  method RelaxEntry(g: Graph, w: Weight, k: Policy, tie: bool, m0: Maps, pq: MinHeap, current: NodeId, i: nat,
                    ghost c: Costs, ghost s0: Search) returns (improved: bool, m: Maps, ghost s: Search)
    requires pq.Valid() && pq.Contents() == s0.heap
    requires Shows(s0, s0.start, m0)
    requires Inner(g, w, c, s0, k, current, i) && i < |Out(g, current)|
    modifies pq
    ensures pq.Valid() && pq.Contents() == s.heap
    ensures Shows(s, s0.start, m)
    ensures s == After(g, w, s0, k, tie, current, i)
    ensures improved <==> EntryUpdates(g, w, s0, tie, current, i)
  {
    var v := Out(g, current)[i].to;
    var cost := w(current, v, Out(g, current)[i].lbl);
    var alt := m0.dist[current] + cost;
    m, s := m0, s0;
    improved := v !in m.visited && (v !in m.dist || alt < m.dist[v]
                                    || (tie && alt == m.dist[v] && (v !in m.prev || current < m.prev[v])));
    if improved {
      s := Improve(s, k, current, v, alt);
      m := m.(dist := m.dist[v := alt], prev := m.prev[v := current]);
      pq.Insert(v, Key(k, v, alt));
    }
  }

  /** The body of the neighbour loop. */
  method RelaxNext(g: Graph, w: Weight, k: Policy, tie: bool, m0: Maps, pq: MinHeap, current: NodeId, i: nat,
                   ghost c: Costs, ghost s0: Search, ghost goal: NodeId) returns (m: Maps, ghost s: Search)
    requires pq.Valid() && pq.Contents() == s0.heap
    requires Shows(s0, s0.start, m0)
    requires Expanding(g, w, c, s0, k, tie, goal, current, i) && i < |Out(g, current)|
    modifies pq
    ensures pq.Valid() && pq.Contents() == s.heap
    ensures Shows(s, s0.start, m) && m.visited == m0.visited
    ensures Expanding(g, w, c, s, k, tie, goal, current, i + 1)
  {
    ExpandEntry(g, w, c, s0, k, tie, goal, current, i);
    var improved;
    improved, m, s := RelaxEntry(g, w, k, tie, m0, pq, current, i, c, s0);
  }

  /** Looks at every neighbour of the node just closed. */
  method RelaxNeighbors(g: Graph, w: Weight, k: Policy, tie: bool, m0: Maps, pq: MinHeap, current: NodeId,
                        ghost c: Costs, ghost s0: Search, ghost goal: NodeId) returns (m: Maps, ghost s: Search)
    requires pq.Valid() && pq.Contents() == s0.heap
    requires Shows(s0, s0.start, m0)
    requires Expanding(g, w, c, s0, k, tie, goal, current, 0)
    modifies pq
    ensures pq.Valid() && pq.Contents() == s.heap
    ensures Shows(s, s0.start, m) && m.visited == m0.visited
    ensures Expanding(g, w, c, s, k, tie, goal, current, |Out(g, current)|)
  {
    m, s := m0, s0;
    for i := 0 to |Out(g, current)|
      invariant pq.Valid() && pq.Contents() == s.heap
      invariant Shows(s, s0.start, m) && m.visited == m0.visited
      invariant Expanding(g, w, c, s, k, tie, goal, current, i)
    {
      m, s := RelaxNext(g, w, k, tie, m, pq, current, i, c, s, goal);
    }
  }

  /** One turn of the main loop: extract a node; end on the goal, drop a stale entry, or close and expand. */
  method Turn(g: Graph, w: Weight, k: Policy, tie: bool, m0: Maps, pq: MinHeap, goal: NodeId, ghost c: Costs, ghost s0: Search)
      returns (arrived: bool, m: Maps, ghost s: Search)
    requires pq.Valid() && pq.tieBreak == tie && pq.Contents() == s0.heap && s0.heap != multiset{}
    requires Shows(s0, s0.start, m0)
    requires Searching(g, w, c, s0, k, tie, goal)
    modifies pq
    ensures pq.Valid()
    ensures Shows(s, s0.start, m)
    ensures arrived ==> s == s0 && exists e: Entry :: e.item == goal && IsFirst(tie, s0.heap, e)
    ensures !arrived ==> pq.Contents() == s.heap && Searching(g, w, c, s, k, tie, goal)
    ensures !arrived ==> |m.visited| == |m0.visited| + 1 || (|m.visited| == |m0.visited| && |s.heap| < |s0.heap|)
  {
    m, s := m0, s0;
    var top := pq.ExtractMin();
    var current := top.value.item;
    if current in m.visited {
      SkipStale(g, w, c, s, k, tie, goal, top.value);
      s := Drop(s, top.value);
      return false, m, s;
    }
    if current == goal {
      return true, m, s;
    }
    Enter(g, w, c, s, k, tie, goal, top.value);
    AddOne(m.visited, current);
    s := Close(s, top.value);
    m := m.(visited := m.visited + {current});
    m, s := RelaxNeighbors(g, w, k, tie, m, pq, current, c, s, goal);
    Leave(g, w, c, s, k, tie, goal, current);
    arrived := false;
  }

  /** A* search. The first node extracted equal to `goal` ends it; closed nodes are never reopened. */
  method AStarSearch(g: Graph, w: Weight, start: NodeId, goal: NodeId, h: Heuristic, maxNodes: nat)
      returns (r: PathResult)
    ensures r.InvalidStart? <==> start !in g.alive
    ensures r.Found? ==> WalkFromTo(EdgesOf(g), r.path, start, goal) && PathCost(CostsOf(g, w), r.path) == r.totalCost
    ensures !r.InvalidStart? ==> Answers(CostsOf(g, w), Policy(h, false), true, start, goal, Some(maxNodes), r)
    ensures r.Found? && Consistent(CostsOf(g, w), h) ==> CheapestWalk(CostsOf(g, w), r.path, start, goal)
    ensures r.NoPath? && |ReachSet(g, start)| <= maxNodes ==> !Reachable(EdgesOf(g), start, goal)
  {
    if start !in g.alive {
      return InvalidStart;
    }
    ghost var c := CostsOf(g, w);
    var k := Policy(h, false);
    var m := Maps(map[start := 0.0], map[], {});
    ghost var s := Initial(start, k);
    var pq := new MinHeap(true);
    pq.Insert(start, Key(k, start, 0.0));
    Start(g, w, c, start, k, true, goal);
    var empty := false;
    ghost var bound := |ReachSet(g, start)|;
    while !empty && |m.visited| < maxNodes
      invariant pq.Valid() && pq.tieBreak && pq.Contents() == s.heap && (empty <==> s.heap == multiset{})
      invariant Shows(s, start, m)
      invariant Searching(g, w, c, s, k, true, goal)
      invariant |m.visited| <= bound && |m.visited| <= maxNodes
      decreases bound - |m.visited|, |s.heap|
    {
      var arrived;
      arrived, m, s := Turn(g, w, k, true, m, pq, goal, c, s);
      if arrived {
        Arrived(g, w, c, s, k, true, goal);
        var path := ReconstructPath(m.prev, start, goal, c, s);
        return Found(path, m.dist[goal]);
      }
      ClosedFits(g, w, c, s, k, true, goal);
      empty := pq.IsEmpty();
    }
    Missed(g, w, c, s, k, goal, maxNodes);
    return NoPath;
  }

  /** Dijkstra's search. With positive weights the path is the canonical cheapest one. */
  method WeightedShortestPath(g: Graph, w: Weight, start: NodeId, goal: NodeId, maxNodes: nat) returns (r: PathResult)
    ensures r.InvalidStart? <==> start !in g.alive
    ensures r.Found? ==> WalkFromTo(EdgesOf(g), r.path, start, goal) && PathCost(CostsOf(g, w), r.path) == r.totalCost
    ensures !r.InvalidStart? ==> Answers(CostsOf(g, w), ByCost(), true, start, goal, Some(maxNodes), r)
    ensures r.Found? && NonNegative(CostsOf(g, w)) ==> CheapestWalk(CostsOf(g, w), r.path, start, goal)
    ensures r.Found? && Positive(CostsOf(g, w)) ==> Canonical(CostsOf(g, w), r.path)
    ensures r.NoPath? && |ReachSet(g, start)| <= maxNodes ==> !Reachable(EdgesOf(g), start, goal)
  {
    if start !in g.alive {
      return InvalidStart;
    }
    ghost var c := CostsOf(g, w);
    var k := ByCost();
    var m := Maps(map[start := 0.0], map[], {});
    ghost var s := Initial(start, k);
    var pq := new MinHeap(true);
    pq.Insert(start, Key(k, start, 0.0));
    Start(g, w, c, start, k, true, goal);
    var empty := false;
    ghost var bound := |ReachSet(g, start)|;
    while !empty && |m.visited| < maxNodes
      invariant pq.Valid() && pq.tieBreak && pq.Contents() == s.heap && (empty <==> s.heap == multiset{})
      invariant Shows(s, start, m)
      invariant Searching(g, w, c, s, k, true, goal)
      invariant |m.visited| <= bound && |m.visited| <= maxNodes
      decreases bound - |m.visited|, |s.heap|
    {
      var arrived;
      arrived, m, s := Turn(g, w, k, true, m, pq, goal, c, s);
      if arrived {
        ArrivedByDistance(g, w, c, s, goal);
        var path := ReconstructPath(m.prev, start, goal, c, s);
        return Found(path, m.dist[goal]);
      }
      ClosedFits(g, w, c, s, k, true, goal);
      empty := pq.IsEmpty();
    }
    Missed(g, w, c, s, k, goal, maxNodes);
    return NoPath;
  }
}
