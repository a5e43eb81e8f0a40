/** The two dynamic programs over a topological order: weighted longest path and levels. A longest walk is
    treated as a cheapest walk under negated weights. */
module LongestPath {
  import opened Graphs
  import opened BestFirst
  import opened CanonicalPaths
  import WeightedSearch
  import opened Topology

  datatype LongestResult = NotFound | Cyclic | NoPath | Longest(path: seq<NodeId>, totalCost: real)

  function Negate(w: Weight): Weight {
    (u: NodeId, v: NodeId, l: int) => -w(u, v, l)
  }

  /** The walk's cost under the heaviest parallel edges is `total`, and no walk between its ends costs more. */
  ghost predicate LongestWalk(c: Costs, p: seq<NodeId>, s: NodeId, t: NodeId, total: real) {
    CheapestWalk(c, p, s, t) && PathCost(c, p) == -total
  }

  // ------------------------------------------------------------------- invariants

  /** The ghost search records the negated distances. */
  ghost predicate Records(s: Search, start: NodeId, dist: map<NodeId, real>, prev: map<NodeId, NodeId>) {
    && s.start == start && s.prev == prev && s.dist.Keys == dist.Keys
    && forall n {:trigger dist[n]} {:trigger s.dist[n]} :: n in dist ==> s.dist[n] == -dist[n]
  }

  /** `v` is known at no more than through `u`, and at a tie its predecessor is at most `u`. */
  ghost predicate AtMostThrough(s: Search, u: NodeId, v: NodeId, cost: real)
    requires u in s.dist
  {
    && v in s.dist && s.dist[v] <= s.dist[u] + cost
    && (s.dist[v] == s.dist[u] + cost && v != s.start ==> v in s.prev && s.prev[v] <= u)
  }

  ghost predicate Dominated(c: Costs, s: Search, except: set<NodeId>)
    requires s.closed <= s.dist.Keys
  {
    forall u, v {:trigger AtMostThrough(s, u, v, c[(u, v)])} :: u in s.closed - except && (u, v) in c ==> AtMostThrough(s, u, v, c[(u, v)])
  }

  ghost predicate EntryDominated(g: Graph, w: Weight, s: Search, u: NodeId, j: int)
    requires u in s.dist && 0 <= j < |Out(g, u)|
  {
    AtMostThrough(s, u, Out(g, u)[j].to, w(u, Out(g, u)[j].to, Out(g, u)[j].lbl))
  }

  /** The first `n` nodes of the order are done: those of them that were reached are closed. */
  ghost predicate Swept(g: Graph, w: Weight, c: Costs, s: Search, order: seq<NodeId>, n: nat) {
    && Prices(g, w, c) && TreeOk(c, s) && n <= |order|
    && (forall u {:trigger u in s.closed} :: u in s.closed <==> u in order[..n] && u in s.dist)
    && Dominated(c, s, {})
  }

  /** Inside the step of `order[n]`, after `i` of its entries. */
  ghost predicate Sweeping(g: Graph, w: Weight, c: Costs, s: Search, order: seq<NodeId>, n: nat, i: nat) {
    && Prices(g, w, c) && TreeOk(c, s) && n < |order| && order[n] in s.dist && i <= |Out(g, order[n])|
    && (forall u {:trigger u in s.closed} :: u in s.closed <==> u in order[..n + 1] && u in s.dist)
    && Dominated(c, s, {order[n]})
    && (forall j {:trigger EntryDominated(g, w, s, order[n], j)} :: 0 <= j < i ==> EntryDominated(g, w, s, order[n], j))
  }

  /** The nodes of an order that come after `order[n]`, and everything outside it, may still change. */
  lemma LaterInOrder(r: Rel, d: set<NodeId>, order: seq<NodeId>, n: nat, v: NodeId)
    requires Greedy(r, d, order) && n < |order| && (order[n], v) in r
    ensures v !in order[..n + 1]
  {
    GreedyDistinct(r, d, order);
    assert order[n] in SetOf(order);
    if v in order[..n + 1] {
      var j: nat :| j < n + 1 && order[..n + 1][j] == v;
      var i := GreedyForward(r, d, order, order[n], j);
    }
  }

  lemma EnterNode(g: Graph, w: Weight, c: Costs, s: Search, order: seq<NodeId>, n: nat)
    requires Swept(g, w, c, s, order, n) && n < |order| && order[n] in s.dist
    requires n == 0 ==> order[n] == s.start
    requires n > 0 ==> s.start in order[..n]
    ensures Sweeping(g, w, c, s.(closed := s.closed + {order[n]}), order, n, 0)
  {
    var t := s.(closed := s.closed + {order[n]});
    assert order[..n + 1] == order[..n] + [order[n]];
    forall x | x in t.dist ensures Reached(c, t, x) { assert Reached(c, s, x); }
    forall x | x in t.prev ensures Linked(c, t, x) { assert Linked(c, s, x); }
    forall u, v | u in t.closed - {order[n]} && (u, v) in c ensures AtMostThrough(t, u, v, c[(u, v)]) {
      assert AtMostThrough(s, u, v, c[(u, v)]);
    }
  }

  lemma SkipNode(g: Graph, w: Weight, c: Costs, s: Search, order: seq<NodeId>, n: nat)
    requires Swept(g, w, c, s, order, n) && n < |order| && order[n] !in s.dist
    ensures Swept(g, w, c, s, order, n + 1)
  {
    assert order[..n + 1] == order[..n] + [order[n]];
  }

  lemma LeaveNode(g: Graph, w: Weight, c: Costs, s: Search, order: seq<NodeId>, n: nat)
    requires n < |order| && Sweeping(g, w, c, s, order, n, |Out(g, order[n])|)
    ensures Swept(g, w, c, s, order, n + 1)
  {
    var u := order[n];
    forall x, v | x in s.closed && (x, v) in c
      ensures AtMostThrough(s, x, v, c[(x, v)])
    {
      if x == u {
        assert CostListed(g, w, c, u, v);
        var j :| 0 <= j < |Out(g, u)| && Out(g, u)[j].to == v && c[(u, v)] == w(u, v, Out(g, u)[j].lbl);
        assert EntryDominated(g, w, s, u, j);
      }
    }
  }

  lemma KeepEntry(g: Graph, w: Weight, c: Costs, s: Search, order: seq<NodeId>, n: nat, i: nat)
    requires Sweeping(g, w, c, s, order, n, i) && i < |Out(g, order[n])|
    requires EntryDominated(g, w, s, order[n], i)
    ensures Sweeping(g, w, c, s, order, n, i + 1)
  {
  }

  lemma ImproveEntry(g: Graph, w: Weight, c: Costs, s: Search, d: set<NodeId>, order: seq<NodeId>, n: nat, i: nat,
          k: Policy, t: Search)
    requires Sweeping(g, w, c, s, order, n, i) && i < |Out(g, order[n])| && Greedy(c.Keys, d, order)
    requires var u, e := order[n], Out(g, order[n])[i];
             && (e.to in s.dist ==> s.dist[u] + w(u, e.to, e.lbl) <= s.dist[e.to])
             && (e.to in s.prev && s.dist[u] + w(u, e.to, e.lbl) == s.dist[e.to] ==> u < s.prev[e.to])
             && t == Improve(s, k, u, e.to, s.dist[u] + w(u, e.to, e.lbl))
    ensures Sweeping(g, w, c, t, order, n, i + 1)
  {
    var u, v := order[n], Out(g, order[n])[i].to;
    var cost := w(u, v, Out(g, order[n])[i].lbl);
    assert order[..n + 1][n] == u;
    assert EntryPriced(g, w, c, u, i);
    LaterInOrder(c.Keys, d, order, n, v);
    ImproveTreeOk(c, s, k, u, v, cost);
    forall x, y | x in t.closed - {u} && (x, y) in c ensures AtMostThrough(t, x, y, c[(x, y)]) {
      assert AtMostThrough(s, x, y, c[(x, y)]);
    }
    forall j | 0 <= j < i + 1 ensures EntryDominated(g, w, t, u, j) {
      assert j == i || EntryDominated(g, w, s, u, j);
    }
  }

  /** A greedy order of what `start` reaches begins with `start`. */
  lemma FirstIsStart(g: Graph, start: NodeId, order: seq<NodeId>)
    requires Greedy(EdgesOf(g), ReachableSet(g, [start]), order) && |order| > 0
    ensures order[0] == start
  {
    var r, d := EdgesOf(g), ReachableSet(g, [start]);
    assert GreedyAt(r, d, order, 0) && SetOf(order[..0]) == {};
    assert ReachableFrom(r, [start], order[0]);
    var p :| WalkFromTo(r, p, start, order[0]);
    if order[0] != start {
      var m := |p| - 2;
      assert EdgeAt(r, p, m);
      SplitWalk(r, p, m);
      InReachableSet(g, start, p[m], p[..m + 1]);
    }
  }

  lemma InReachableSet(g: Graph, start: NodeId, n: NodeId, p: seq<NodeId>)
    requires WalkFromTo(EdgesOf(g), p, start, n)
    ensures n in ReachableSet(g, [start])
  {
    assert start in [start];
    if |p| > 1 {
      assert EdgeAt(EdgesOf(g), p, |p| - 2);
    } else {
      assert start in SetOf([start]);
    }
  }

  lemma StartSwept(g: Graph, w: Weight, c: Costs, start: NodeId, order: seq<NodeId>, s: Search)
    requires Prices(g, w, c) && s == Search(start, map[start := 0.0], map[], {}, map[start := [start]], multiset{}, [])
    ensures Swept(g, w, c, s, order, 0)
  {
    assert WalkFromTo(c.Keys, [start], start, start);
    assert Reached(c, s, start);
  }

  /** Along a walk of closed nodes the recorded distance never exceeds the cost. */
  lemma {:induction false} SweptWalk(g: Graph, w: Weight, c: Costs, s: Search, order: seq<NodeId>, p: seq<NodeId>, k: nat)
    requires Swept(g, w, c, s, order, |order|) && IsWalk(c.Keys, p) && p[0] == s.start && k < |p|
    requires forall i :: 0 <= i < k ==> p[i] in order
    ensures WalkFromTo(c.Keys, p[..k + 1], s.start, p[k])
    ensures p[k] in s.dist && s.dist[p[k]] <= PathCost(c, p[..k + 1])
    decreases k
  {
    SplitWalk(c.Keys, p, k);
    if k == 0 {
      assert p[..1] == [s.start];
    } else {
      SweptWalk(g, w, c, s, order, p, k - 1);
      assert order[..|order|] == order;
      var u, v := p[k - 1], p[k];
      assert EdgeAt(c.Keys, p, k - 1) && u in s.closed;
      assert AtMostThrough(s, u, v, c[(u, v)]);
      assert p[..k - 1 + 1] == p[..k] && p[..k] + [v] == p[..k + 1];
      PathCostExtend(c, p[..k], s.start, u, v);
    }
  }

  /** What the finished sweep proves. `whole` says that the order takes in everything reachable. */
  lemma SweepConclusion(g: Graph, w: Weight, c: Costs, s: Search, order: seq<NodeId>, goal: NodeId)
    requires Swept(g, w, c, s, order, |order|) && c.Keys == EdgesOf(g)
    ensures goal in s.dist ==> WalkFromTo(c.Keys, s.tree[goal], s.start, goal) && PathCost(c, s.tree[goal]) == s.dist[goal]
    ensures SetOf(order) == ReachableSet(g, [s.start]) && goal in s.dist ==> CheapestWalk(c, s.tree[goal], s.start, goal)
    ensures SetOf(order) == ReachableSet(g, [s.start]) && goal !in s.dist ==> !Reachable(c.Keys, s.start, goal)
  {
    if goal in s.dist {
      forall u, v | u in s.closed && (u, v) in c ensures EdgeRelaxed(s, u, v, c[(u, v)]) {
        assert AtMostThrough(s, u, v, c[(u, v)]);
      }
      TreeIsExact(c, s, goal);
    }
    if SetOf(order) == ReachableSet(g, [s.start]) {
      forall p | WalkFromTo(c.Keys, p, s.start, goal)
        ensures goal in s.dist && s.dist[goal] <= PathCost(c, p)
      {
        forall i | 0 <= i < |p| - 1 ensures p[i] in order {
          SplitWalk(c.Keys, p, i);
          InReachableSet(g, s.start, p[i], p[..i + 1]);
          assert p[i] in SetOf(order);
        }
        SweptWalk(g, w, c, s, order, p, |p| - 1);
        assert p[..|p| - 1 + 1] == p;
      }
    }
  }

  // ------------------------------------------------------- which longest path it is

  lemma SweptReaches(g: Graph, w: Weight, c: Costs, s: Search, order: seq<NodeId>, q: seq<NodeId>, x: NodeId)
    requires Swept(g, w, c, s, order, |order|) && c.Keys == EdgesOf(g) && SetOf(order) == ReachableSet(g, [s.start])
    requires WalkFromTo(c.Keys, q, s.start, x)
    ensures x in s.closed && x in s.dist && s.dist[x] <= PathCost(c, q)
  {
    forall i | 0 <= i < |q| ensures q[i] in order {
      SplitWalk(c.Keys, q, i);
      InReachableSet(g, s.start, q[i], q[..i + 1]);
      assert q[i] in SetOf(order);
    }
    SweptWalk(g, w, c, s, order, q, |q| - 1);
    assert q[..|q| - 1 + 1] == q && order[..|order|] == order;
  }

  lemma SweptIsExact(g: Graph, w: Weight, c: Costs, s: Search, order: seq<NodeId>, n: NodeId)
    requires Swept(g, w, c, s, order, |order|) && n in s.dist
    ensures WalkFromTo(c.Keys, s.tree[n], s.start, n) && PathCost(c, s.tree[n]) == s.dist[n]
  {
    forall u, v | u in s.closed && (u, v) in c ensures EdgeRelaxed(s, u, v, c[(u, v)]) {
      assert AtMostThrough(s, u, v, c[(u, v)]);
    }
    TreeIsExact(c, s, n);
  }

  /** After the sweep every recorded predecessor is the least of those on heaviest walks. */
  lemma SweptLastIsLeast(g: Graph, w: Weight, c: Costs, s: Search, order: seq<NodeId>, n: NodeId)
    requires Swept(g, w, c, s, order, |order|) && c.Keys == EdgesOf(g) && SetOf(order) == ReachableSet(g, [s.start])
    requires n in s.prev
    ensures LeastPredecessor(c, s.start, s.prev[n], n, s.dist[n])
  {
    assert Linked(c, s, n);
    var u := s.prev[n];
    SweptIsExact(g, w, c, s, order, u);
    assert AtMostThrough(s, u, n, c[(u, n)]);
    assert PredecessorAt(c, s.start, u, n, s.dist[n]);
    forall x | PredecessorAt(c, s.start, x, n, s.dist[n])
      ensures u <= x
    {
      var q :| WalkFromTo(c.Keys, q, s.start, x) && PathCost(c, q) + c[(x, n)] == s.dist[n];
      SweptReaches(g, w, c, s, order, q, x);
      assert AtMostThrough(s, x, n, c[(x, n)]);
    }
  }

  lemma {:induction false} SweptIsCanonical(g: Graph, w: Weight, c: Costs, s: Search, order: seq<NodeId>, n: NodeId)
    requires Swept(g, w, c, s, order, |order|) && c.Keys == EdgesOf(g) && SetOf(order) == ReachableSet(g, [s.start])
    requires n in s.dist
    ensures Canonical(c, s.tree[n])
    decreases |s.tree[n]|
  {
    SweptIsExact(g, w, c, s, order, n);
    var p := s.tree[n];
    if n != s.start {
      assert Linked(c, s, n);
      var u := s.prev[n];
      SweptIsExact(g, w, c, s, order, u);
      SweptIsCanonical(g, w, c, s, order, u);
      SweptLastIsLeast(g, w, c, s, order, n);
      CanonicalMore(c, s.tree[u], p, n);
    }
  }

  lemma CanonicalMore(c: Costs, q: seq<NodeId>, p: seq<NodeId>, n: NodeId)
    requires Canonical(c, q) && p == q + [n] && IsWalk(c.Keys, p)
    requires LeastPredecessor(c, p[0], p[|p| - 2], n, PathCost(c, p))
    ensures Canonical(c, p)
  {
    forall i | 0 <= i < |p| - 1
      ensures CanonicalAt(c, p, i)
    {
      if i == |p| - 2 {
        assert p[..i + 2] == p;
      } else {
        assert CanonicalAt(c, q, i) && p[..i + 2] == q[..i + 2];
      }
    }
  }

  /** On an acyclic graph no walk leads from the start back to it. */
  lemma AcyclicRests(g: Graph, c: Costs, start: NodeId)
    requires c.Keys == EdgesOf(g) && Acyclic(EdgesOf(g), ReachableSet(g, [start]))
    ensures RestsAt(c, start)
  {
    forall p | CheapestWalk(c, p, start, start)
      ensures |p| == 1
    {
      if |p| > 1 {
        forall i | 0 <= i < |p| ensures p[i] in ReachableSet(g, [start]) {
          SplitWalk(c.Keys, p, i);
          InReachableSet(g, start, p[i], p[..i + 1]);
        }
        assert IsCycle(EdgesOf(g), ReachableSet(g, [start]), p);
      }
    }
  }

  /** On an acyclic graph, two providers with the same entries in any order lead to the same longest path. */
  lemma LongestIgnoresListOrder(g1: Graph, g2: Graph, w: Weight, p1: seq<NodeId>, p2: seq<NodeId>, start: NodeId, goal: NodeId)
    requires forall u, e :: e in Out(g1, u) <==> e in Out(g2, u)
    requires Acyclic(EdgesOf(g1), ReachableSet(g1, [start]))
    requires CheapestWalk(CostsOf(g1, w), p1, start, goal) && Canonical(CostsOf(g1, w), p1)
    requires CheapestWalk(CostsOf(g2, w), p2, start, goal) && Canonical(CostsOf(g2, w), p2)
    ensures p1 == p2
  {
    SameEntriesSameCosts(g1, g2, w, CostsOf(g1, w), CostsOf(g2, w));
    AcyclicRests(g1, CostsOf(g1, w), start);
    CanonicalIsUniqueFrom(CostsOf(g1, w), p1, p2, start, goal);
  }

  // ---------------------------------------------------------------------- methods

  /** Looks at every edge out of one sorted node. */
  method SweepNode(g: Graph, w: Weight, dist0: map<NodeId, real>, prev0: map<NodeId, NodeId>, u: NodeId,
                   ghost c: Costs, ghost d: set<NodeId>, ghost order: seq<NodeId>, ghost n: nat, ghost s0: Search)
      returns (dist: map<NodeId, real>, prev: map<NodeId, NodeId>, ghost s: Search)
    requires Records(s0, s0.start, dist0, prev0) && n < |order| && order[n] == u && Greedy(c.Keys, d, order)
    requires Sweeping(g, Negate(w), c, s0, order, n, 0)
    ensures Records(s, s0.start, dist, prev)
    ensures Swept(g, Negate(w), c, s, order, n + 1)
  {
    dist, prev, s := dist0, prev0, s0;
    ghost var k := Policy(_ => 0.0, false);
    var neighbors := Out(g, u);
    for i := 0 to |neighbors|
      invariant Records(s, s0.start, dist, prev)
      invariant Sweeping(g, Negate(w), c, s, order, n, i)
    {
      var v := neighbors[i].to;
      var alt := dist[u] + w(u, v, neighbors[i].lbl);
      if v !in dist || alt > dist[v] || (alt == dist[v] && (v !in prev || u < prev[v])) {
        ghost var t := Improve(s, k, u, v, s.dist[u] + Negate(w)(u, v, neighbors[i].lbl));
        ImproveEntry(g, Negate(w), c, s, d, order, n, i, k, t);
        s := t;
        dist := dist[v := alt];
        prev := prev[v := u];
      } else {
        KeepEntry(g, Negate(w), c, s, order, n, i);
      }
    }
    LeaveNode(g, Negate(w), c, s, order, n);
  }

  method WeightedLongestPath(g: Graph, w: Weight, start: NodeId, goal: NodeId, maxNodes: nat) returns (r: LongestResult)
    ensures r.NotFound? <==> start !in g.alive
    ensures r.Cyclic? ==> !Acyclic(EdgesOf(g), ReachableSet(g, [start]))
    ensures r.Longest? ==> WalkFromTo(EdgesOf(g), r.path, start, goal) && PathCost(CostsOf(g, Negate(w)), r.path) == -r.totalCost
    ensures r.Longest? && |ReachableSet(g, [start])| <= maxNodes ==>
              LongestWalk(CostsOf(g, Negate(w)), r.path, start, goal, r.totalCost) && Canonical(CostsOf(g, Negate(w)), r.path)
    ensures r.NoPath? && |ReachableSet(g, [start])| <= maxNodes ==> !Reachable(EdgesOf(g), start, goal)
  {
    var t := TopologicalSort(g, [start], maxNodes, true);
    if t.InvalidStart? {
      return NotFound;
    }
    if t.GraphHasCycles? {
      return Cyclic;
    }
    var sorted := t.sorted;
    ghost var c, d := CostsOf(g, Negate(w)), ReachableSet(g, [start]);
    if |d| <= maxNodes {
      GreedyIsTopological(EdgesOf(g), d, sorted);
    }
    var dist: map<NodeId, real>, prev: map<NodeId, NodeId> := map[start := 0.0], map[];
    ghost var s := Search(start, map[start := 0.0], map[], {}, map[start := [start]], multiset{}, []);
    StartSwept(g, Negate(w), c, start, sorted, s);
    for n := 0 to |sorted|
      invariant Records(s, start, dist, prev)
      invariant Swept(g, Negate(w), c, s, sorted, n)
    {
      var nodeId := sorted[n];
      if nodeId in dist {
        FirstIsStart(g, start, sorted);
        EnterNode(g, Negate(w), c, s, sorted, n);
        dist, prev, s := SweepNode(g, w, dist, prev, nodeId, c, d, sorted, n, s.(closed := s.closed + {nodeId}));
      } else {
        SkipNode(g, Negate(w), c, s, sorted, n);
      }
    }
    SweepConclusion(g, Negate(w), c, s, sorted, goal);
    if goal !in dist {
      return LongestResult.NoPath;
    }
    if |d| <= maxNodes {
      SweptIsCanonical(g, Negate(w), c, s, sorted, goal);
    }
    var path := WeightedSearch.ReconstructPath(prev, start, goal, c, s);
    r := Longest(path, dist[goal]);
  }
}
