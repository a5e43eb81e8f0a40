/** The theory behind every best-first search of the engine: what the search keeps about its distance
    map, predecessor map, closed set and heap, and what it may conclude when it closes a node. */
module BestFirst {
  import opened Graphs
  import opened MinHeaps

  /** A search in progress. `tree` and `order` are proof bookkeeping: the walk each discovered node was
      reached by, and the closed nodes in the order they were closed. */
  datatype Search = Search(
    start: NodeId,
    dist: map<NodeId, real>,
    prev: map<NodeId, NodeId>,
    closed: set<NodeId>,
    tree: map<NodeId, seq<NodeId>>,
    heap: multiset<Entry>,
    order: seq<NodeId>)

  datatype PathResult = InvalidStart | NoPath | Found(path: seq<NodeId>, totalCost: real)

  type Heuristic = NodeId -> real

  const EPSILON: real := 0.0000000001

  /** How open nodes are ranked: by distance plus heuristic, and when `biased` a little in favour of
      larger distances. */
  datatype Policy = Policy(h: Heuristic, biased: bool)

  function Key(k: Policy, n: NodeId, d: real): real {
    d + k.h(n) - (if k.biased then EPSILON * d else 0.0)
  }

  /** The part of the key that does not come from the heuristic. */
  function Discount(k: Policy, d: real): real {
    d - (if k.biased then EPSILON * d else 0.0)
  }

  /** `n` was reached through its predecessor, over a real edge, at no less than its cost. */
  ghost predicate Linked(c: Costs, s: Search, n: NodeId)
    requires n in s.prev
  {
    var u := s.prev[n];
    && u in s.closed && u in s.dist && u in s.tree && n in s.tree && n in s.dist
    && s.tree[n] == s.tree[u] + [n]
    && (u, n) in c && s.dist[u] + c[(u, n)] <= s.dist[n]
  }

  ghost predicate Reached(c: Costs, s: Search, n: NodeId)
    requires n in s.dist && n in s.tree
  {
    WalkFromTo(c.Keys, s.tree[n], s.start, n) && PathCost(c, s.tree[n]) <= s.dist[n]
  }

  ghost predicate TreeOk(c: Costs, s: Search) {
    && s.start in s.dist && s.dist[s.start] == 0.0
    && s.tree.Keys == s.dist.Keys && s.tree[s.start] == [s.start]
    && s.closed <= s.dist.Keys
    && s.prev.Keys == s.dist.Keys - {s.start}
    && (s.closed == {} || s.start in s.closed)
    && (forall n {:trigger Reached(c, s, n)} :: n in s.dist ==> Reached(c, s, n))
    && (forall n {:trigger Linked(c, s, n)} :: n in s.prev ==> Linked(c, s, n))
  }

  /** The edge has been looked at from `u`: its target cannot be reached more cheaply through it, unless
      the target was already closed by then. */
  ghost predicate EdgeRelaxed(s: Search, u: NodeId, v: NodeId, cost: real)
    requires u in s.dist
  {
    v in s.dist && (v !in s.closed || (v in s.prev && s.prev[v] == u) ==> s.dist[v] <= s.dist[u] + cost)
  }

  ghost predicate Relaxed(c: Costs, s: Search, except: set<NodeId>)
    requires s.closed <= s.dist.Keys
  {
    forall u, v {:trigger EdgeRelaxed(s, u, v, c[(u, v)])} :: u in s.closed - except && (u, v) in c ==> EdgeRelaxed(s, u, v, c[(u, v)])
  }

  /** The first `i` neighbour-list entries of `u` have been looked at. */
  ghost predicate RelaxedUpTo(g: Graph, w: Weight, s: Search, u: NodeId, i: nat)
    requires u in s.dist && i <= |Out(g, u)|
  {
    forall j {:trigger EntryRelaxed(g, w, s, u, j)} :: 0 <= j < i ==> EntryRelaxed(g, w, s, u, j)
  }

  /** Every open node has an up-to-date heap entry; stale entries only rank lower. */
  ghost predicate HeapOk(s: Search, k: Policy) {
    && (forall n {:trigger InHeap(s, k, n)} :: n in s.dist && n !in s.closed ==> InHeap(s, k, n))
    && (forall e {:trigger NotEarly(s, k, e)} :: e in s.heap ==> NotEarly(s, k, e))
  }

  ghost predicate InHeap(s: Search, k: Policy, n: NodeId)
    requires n in s.dist
  {
    Entry(n, Key(k, n, s.dist[n])) in s.heap
  }

  ghost predicate NotEarly(s: Search, k: Policy, e: Entry) {
    e.item in s.dist && (e.item !in s.closed ==> Key(k, e.item, s.dist[e.item]) <= e.priority)
  }

  ghost predicate IsLeastOpen(s: Search, k: Policy, n: NodeId) {
    && n in s.dist && n !in s.closed
    && forall y :: y in s.dist && y !in s.closed ==> Key(k, n, s.dist[n]) <= Key(k, y, s.dist[y])
  }

  // ------------------------------------------------------------ the steps

  ghost function Initial(start: NodeId, k: Policy): Search {
    Search(start, map[start := 0.0], map[], {}, map[start := [start]], multiset{Entry(start, Key(k, start, 0.0))}, [])
  }

  lemma InitialOk(c: Costs, start: NodeId, k: Policy)
    ensures TreeOk(c, Initial(start, k)) && Relaxed(c, Initial(start, k), {}) && HeapOk(Initial(start, k), k)
  {
    assert WalkFromTo(c.Keys, [start], start, start);
    assert Reached(c, Initial(start, k), start);
  }

  /** The entry `e` is extracted and its node closed. */
  ghost function Close(s: Search, e: Entry): Search {
    s.(closed := s.closed + {e.item}, heap := s.heap - multiset{e}, order := s.order + [e.item])
  }

  ghost function Drop(s: Search, e: Entry): Search {
    s.(heap := s.heap - multiset{e})
  }

  /** A stale entry leaves the heap without effect. */
  lemma DropStale(g: Graph, w: Weight, c: Costs, s: Search, k: Policy, e: Entry)
    requires Outer(g, w, c, s, k) && e in s.heap && e.item in s.closed
    ensures Outer(g, w, c, Drop(s, e), k)
  {
    var t := Drop(s, e);
    forall n | n in t.dist ensures Reached(c, t, n) { assert Reached(c, s, n); }
    forall n | n in t.prev ensures Linked(c, t, n) { assert Linked(c, s, n); }
    forall u, v | u in t.closed && (u, v) in c
      ensures EdgeRelaxed(t, u, v, c[(u, v)])
    {
      assert EdgeRelaxed(s, u, v, c[(u, v)]);
    }
    forall n | n in t.dist && n !in t.closed ensures InHeap(t, k, n) { assert InHeap(s, k, n); }
    forall x | x in t.heap ensures NotEarly(t, k, x) { assert NotEarly(s, k, x); }
  }

  lemma CloseOk(c: Costs, s: Search, k: Policy, e: Entry)
    requires TreeOk(c, s) && Relaxed(c, s, {}) && HeapOk(s, k)
    requires e in s.heap && e.item !in s.closed
    requires forall x :: x in s.heap ==> e.priority <= x.priority
    requires s.closed == {} ==> e.item == s.start
    ensures IsLeastOpen(s, k, e.item)
    ensures TreeOk(c, Close(s, e)) && Relaxed(c, Close(s, e), {e.item})
    ensures HeapOk(Close(s, e), k)
  {
    var n, t := e.item, Close(s, e);
    assert NotEarly(s, k, e);
    forall y | y in s.dist && y !in s.closed
      ensures Key(k, n, s.dist[n]) <= Key(k, y, s.dist[y])
    {
      assert InHeap(s, k, y);
    }
    forall x | x in t.dist && x !in t.closed ensures InHeap(t, k, x) { assert InHeap(s, k, x); }
    forall x | x in t.heap ensures NotEarly(t, k, x) { assert NotEarly(s, k, x); }
    forall x | x in t.dist ensures Reached(c, t, x) { assert Reached(c, s, x); }
    forall x | x in t.prev ensures Linked(c, t, x) { assert Linked(c, s, x); }
    forall u, v | u in t.closed - {n} && (u, v) in c
      ensures EdgeRelaxed(t, u, v, c[(u, v)])
    {
      assert EdgeRelaxed(s, u, v, c[(u, v)]);
      if v == n && v in s.prev && s.prev[v] == u {
        assert Linked(c, s, v);
      }
    }
  }

  /** The search after a better (or equally good, preferred) way to `v` through `u` was found. */
  ghost function Improve(s: Search, k: Policy, u: NodeId, v: NodeId, alt: real): Search
    requires u in s.tree
  {
    s.(dist := s.dist[v := alt], prev := s.prev[v := u], tree := s.tree[v := s.tree[u] + [v]],
       heap := s.heap + multiset{Entry(v, Key(k, v, alt))})
  }

  ghost predicate MayImprove(c: Costs, s: Search, u: NodeId, v: NodeId, cost: real) {
    && TreeOk(c, s) && u in s.closed && v !in s.closed
    && (u, v) in c && c[(u, v)] <= cost
    && (v in s.dist ==> s.dist[u] + cost <= s.dist[v])
  }

  lemma ImproveTreeOk(c: Costs, s: Search, k: Policy, u: NodeId, v: NodeId, cost: real)
    requires MayImprove(c, s, u, v, cost)
    ensures TreeOk(c, Improve(s, k, u, v, s.dist[u] + cost))
  {
    var t := Improve(s, k, u, v, s.dist[u] + cost);
    assert Reached(c, s, u);
    PathCostExtend(c, s.tree[u], s.start, u, v);
    forall x | x in t.dist
      ensures Reached(c, t, x)
    {
      assert x == v || Reached(c, s, x);
    }
    forall x | x in t.prev
      ensures Linked(c, t, x)
    {
      assert x == v || Linked(c, s, x);
    }
  }

  lemma ImproveKeepsRelaxed(c: Costs, s: Search, k: Policy, u: NodeId, v: NodeId, cost: real, x: NodeId, y: NodeId, cxy: real)
    requires MayImprove(c, s, u, v, cost)
    requires x in s.closed && EdgeRelaxed(s, x, y, cxy)
    ensures EdgeRelaxed(Improve(s, k, u, v, s.dist[u] + cost), x, y, cxy)
  {
  }

  lemma ImproveHeapOk(c: Costs, s: Search, k: Policy, u: NodeId, v: NodeId, cost: real)
    requires MayImprove(c, s, u, v, cost) && HeapOk(s, k)
    ensures HeapOk(Improve(s, k, u, v, s.dist[u] + cost), k)
  {
    var t := Improve(s, k, u, v, s.dist[u] + cost);
    var e := Entry(v, Key(k, v, s.dist[u] + cost));
    forall x | x in t.dist && x !in t.closed
      ensures InHeap(t, k, x)
    {
      assert x == v || InHeap(s, k, x);
    }
    forall x | x in t.heap
      ensures NotEarly(t, k, x)
    {
      assert x == e || NotEarly(s, k, x);
    }
  }

  /** Looking at every neighbour-list entry of `u` relaxes every edge out of `u`. */
  lemma AllEntriesRelaxed(g: Graph, w: Weight, c: Costs, s: Search, u: NodeId)
    requires Prices(g, w, c) && s.closed <= s.dist.Keys && u in s.closed
    requires Relaxed(c, s, {u}) && RelaxedUpTo(g, w, s, u, |Out(g, u)|)
    ensures Relaxed(c, s, {})
  {
    forall x, y | x in s.closed && (x, y) in c
      ensures EdgeRelaxed(s, x, y, c[(x, y)])
    {
      if x == u {
        assert CostListed(g, w, c, x, y);
        var j :| 0 <= j < |Out(g, x)| && Out(g, x)[j].to == y && c[(x, y)] == w(x, y, Out(g, x)[j].lbl);
        assert EntryRelaxed(g, w, s, u, j);
      }
    }
  }

  // ------------------------------------------------------------ loop invariants

  /** What the main loop keeps between two extractions. */
  ghost predicate Outer(g: Graph, w: Weight, c: Costs, s: Search, k: Policy) {
    && Prices(g, w, c) && TreeOk(c, s) && Relaxed(c, s, {}) && HeapOk(s, k)
    && (s.closed == {} ==> s.heap == multiset{Entry(s.start, Key(k, s.start, 0.0))})
  }

  /** What the neighbour loop of `u` keeps after `i` entries. */
  ghost predicate Inner(g: Graph, w: Weight, c: Costs, s: Search, k: Policy, u: NodeId, i: nat) {
    && Prices(g, w, c) && TreeOk(c, s) && u in s.closed && i <= |Out(g, u)|
    && Relaxed(c, s, {u}) && RelaxedUpTo(g, w, s, u, i) && HeapOk(s, k)
    && (forall x :: x in s.closed && x in s.prev ==> s.prev[x] != u)
  }

  /** The update test of the neighbour loop; without `tie` equal costs never update. */
  predicate Updates(s: Search, u: NodeId, v: NodeId, alt: real, tie: bool) {
    v !in s.closed && (v !in s.dist || alt < s.dist[v] || (tie && alt == s.dist[v] && (v !in s.prev || u < s.prev[v])))
  }

  lemma EnterInner(g: Graph, w: Weight, c: Costs, s: Search, k: Policy, e: Entry)
    requires Outer(g, w, c, s, k) && e in s.heap && e.item !in s.closed
    requires forall x :: x in s.heap ==> e.priority <= x.priority
    ensures IsLeastOpen(s, k, e.item)
    ensures Inner(g, w, c, Close(s, e), k, e.item, 0)
  {
    CloseOk(c, s, k, e);
    forall x | x in s.prev ensures s.prev[x] != e.item { assert Linked(c, s, x); }
  }

  ghost predicate EntryRelaxed(g: Graph, w: Weight, s: Search, u: NodeId, j: int)
    requires u in s.dist && 0 <= j < |Out(g, u)|
  {
    EdgeRelaxed(s, u, Out(g, u)[j].to, w(u, Out(g, u)[j].to, Out(g, u)[j].lbl))
  }

  lemma InnerKeep(g: Graph, w: Weight, c: Costs, s: Search, k: Policy, u: NodeId, i: nat, tie: bool)
    requires Inner(g, w, c, s, k, u, i) && i < |Out(g, u)|
    requires var e := Out(g, u)[i]; !Updates(s, u, e.to, s.dist[u] + w(u, e.to, e.lbl), tie)
    ensures Inner(g, w, c, s, k, u, i + 1)
  {
    assert EntryRelaxed(g, w, s, u, i);
  }

  lemma ImproveKeepsEntries(g: Graph, w: Weight, c: Costs, s: Search, k: Policy, u: NodeId, v: NodeId, cost: real, i: nat)
    requires MayImprove(c, s, u, v, cost) && u in s.dist && i < |Out(g, u)|
    requires Relaxed(c, s, {u}) && RelaxedUpTo(g, w, s, u, i)
    requires v == Out(g, u)[i].to && cost == w(u, v, Out(g, u)[i].lbl)
    ensures var t := Improve(s, k, u, v, s.dist[u] + cost);
            Relaxed(c, t, {u}) && RelaxedUpTo(g, w, t, u, i + 1)
  {
    var t := Improve(s, k, u, v, s.dist[u] + cost);
    forall x, y | x in s.closed - {u} && (x, y) in c
      ensures EdgeRelaxed(t, x, y, c[(x, y)])
    {
      ImproveKeepsRelaxed(c, s, k, u, v, cost, x, y, c[(x, y)]);
    }
    forall j | 0 <= j < i + 1
      ensures EntryRelaxed(g, w, t, u, j)
    {
      if j < i {
        assert EntryRelaxed(g, w, s, u, j);
      }
    }
  }

  lemma InnerImprove(g: Graph, w: Weight, c: Costs, s: Search, k: Policy, u: NodeId, i: nat,
                     v: NodeId, cost: real)
    requires Inner(g, w, c, s, k, u, i) && i < |Out(g, u)|
    requires v == Out(g, u)[i].to && cost == w(u, v, Out(g, u)[i].lbl)
    requires v !in s.closed && (v in s.dist ==> s.dist[u] + cost <= s.dist[v])
    ensures Inner(g, w, c, Improve(s, k, u, v, s.dist[u] + cost), k, u, i + 1)
  {
    assert EntryPriced(g, w, c, u, i);
    ImproveTreeOk(c, s, k, u, v, cost);
    ImproveHeapOk(c, s, k, u, v, cost);
    ImproveKeepsEntries(g, w, c, s, k, u, v, cost, i);
  }

  ghost predicate EntryUpdates(g: Graph, w: Weight, s: Search, tie: bool, u: NodeId, i: nat)
    requires u in s.dist && i < |Out(g, u)|
  {
    Updates(s, u, Out(g, u)[i].to, s.dist[u] + w(u, Out(g, u)[i].to, Out(g, u)[i].lbl), tie)
  }

  /** The search after the `i`-th neighbour-list entry of `u` was looked at. */
  ghost function After(g: Graph, w: Weight, s: Search, k: Policy, tie: bool, u: NodeId, i: nat): Search
    requires u in s.dist && u in s.tree && i < |Out(g, u)|
  {
    if EntryUpdates(g, w, s, tie, u, i)
    then Improve(s, k, u, Out(g, u)[i].to, s.dist[u] + w(u, Out(g, u)[i].to, Out(g, u)[i].lbl))
    else s
  }

  lemma InnerStep(g: Graph, w: Weight, c: Costs, s: Search, k: Policy, tie: bool, u: NodeId, i: nat)
    requires Inner(g, w, c, s, k, u, i) && i < |Out(g, u)|
    ensures Inner(g, w, c, After(g, w, s, k, tie, u, i), k, u, i + 1)
  {
    if EntryUpdates(g, w, s, tie, u, i) {
      InnerImprove(g, w, c, s, k, u, i, Out(g, u)[i].to, w(u, Out(g, u)[i].to, Out(g, u)[i].lbl));
    } else {
      InnerKeep(g, w, c, s, k, u, i, tie);
    }
  }

  lemma LeaveInner(g: Graph, w: Weight, c: Costs, s: Search, k: Policy, u: NodeId)
    requires Inner(g, w, c, s, k, u, |Out(g, u)|)
    ensures Outer(g, w, c, s, k)
  {
    AllEntriesRelaxed(g, w, c, s, u);
  }

  // ------------------------------------------------- what closing a node proves

  ghost predicate Consistent(c: Costs, h: Heuristic) {
    forall u, v :: (u, v) in c ==> h(u) <= c[(u, v)] + h(v)
  }

  /** Costs may be discounted only when none is negative. */
  ghost predicate Fair(c: Costs, k: Policy) {
    Consistent(c, k.h) && (k.biased ==> forall u, v :: (u, v) in c ==> c[(u, v)] >= 0.0)
  }

  /** For a closed node, the key less the heuristic is a lower bound on the cost of every walk to it. */
  ghost predicate Bounded(c: Costs, s: Search, k: Policy) {
    forall n, p {:trigger WalkFromTo(c.Keys, p, s.start, n)} :: n in s.closed && n in s.dist && WalkFromTo(c.Keys, p, s.start, n) ==>
      Discount(k, s.dist[n]) <= PathCost(c, p)
  }

  lemma {:induction false} ConsistentAlong(c: Costs, h: Heuristic, p: seq<NodeId>)
    requires Consistent(c, h) && IsWalk(c.Keys, p)
    ensures h(p[0]) <= PathCost(c, p) + h(p[|p| - 1])
    decreases |p|
  {
    if |p| > 1 {
      PathCostFirst(c, p);
      ConsistentAlong(c, h, p[1..]);
      var u, v := p[0], p[1];
      assert (u, v) in c && h(u) <= c[(u, v)] + h(v);
    }
  }

  lemma FirstOpen(closed: set<NodeId>, p: seq<NodeId>) returns (k: nat)
    requires |p| > 0 && p[|p| - 1] !in closed
    ensures k < |p| && p[k] !in closed
    ensures forall i :: 0 <= i < k ==> p[i] in closed
  {
    k := 0;
    while p[k] in closed
      invariant k < |p| && forall i :: 0 <= i < k ==> p[i] in closed
      decreases |p| - k
    {
      k := k + 1;
    }
  }

  /** Every walk from the start to an open node crosses the frontier: its first open node is discovered. */
  lemma FrontierOnWalk(c: Costs, s: Search, p: seq<NodeId>, n: NodeId) returns (i: nat)
    requires TreeOk(c, s) && Relaxed(c, s, {})
    requires WalkFromTo(c.Keys, p, s.start, n) && n !in s.closed
    ensures i < |p| && p[i] in s.dist && p[i] !in s.closed
    ensures WalkFromTo(c.Keys, p[..i + 1], s.start, p[i]) && WalkFromTo(c.Keys, p[i..], p[i], n)
    ensures PathCost(c, p) == PathCost(c, p[..i + 1]) + PathCost(c, p[i..])
    ensures i == 0 || Crosses(c, s, p, i)
  {
    i := FirstOpen(s.closed, p);
    PathCostSplit(c, p, i);
    if i > 0 {
      var u, v := p[i - 1], p[i];
      assert EdgeAt(c.Keys, p, i - 1) && u in s.closed;
      assert EdgeRelaxed(s, u, v, c[(u, v)]);
      SplitWalk(c.Keys, p, i - 1);
      assert p[..i - 1 + 1] == p[..i];
      PathCostExtend(c, p[..i], s.start, u, v);
      assert p[..i] + [v] == p[..i + 1];
    }
  }

  /** The walk leaves the closed nodes at its `i`-th node, over an edge that has been relaxed. */
  ghost predicate Crosses(c: Costs, s: Search, p: seq<NodeId>, i: nat)
    requires 0 < i < |p| && p[i] in s.dist
  {
    var u, v := p[i - 1], p[i];
    && u in s.closed && u in s.dist && (u, v) in c && s.dist[v] <= s.dist[u] + c[(u, v)]
    && WalkFromTo(c.Keys, p[..i], s.start, u) && IsWalk(c.Keys, p[..i + 1])
    && PathCost(c, p[..i + 1]) == PathCost(c, p[..i]) + c[(u, v)]
  }

  /** The key bounds the cost of a walk up to the frontier. */
  lemma FrontierIsBounded(c: Costs, s: Search, k: Policy, p: seq<NodeId>, n: NodeId) returns (i: nat)
    requires TreeOk(c, s) && Relaxed(c, s, {}) && Fair(c, k) && Bounded(c, s, k)
    requires WalkFromTo(c.Keys, p, s.start, n) && n !in s.closed
    ensures i < |p| && p[i] in s.dist && p[i] !in s.closed
    ensures WalkFromTo(c.Keys, p[..i + 1], s.start, p[i]) && WalkFromTo(c.Keys, p[i..], p[i], n)
    ensures PathCost(c, p) == PathCost(c, p[..i + 1]) + PathCost(c, p[i..])
    ensures Discount(k, s.dist[p[i]]) <= PathCost(c, p[..i + 1])
  {
    i := FrontierOnWalk(c, s, p, n);
    if i > 0 {
      assert Crosses(c, s, p, i);
    }
  }

  /** When the least open node is closed, its discounted distance bounds the cost of every walk to it. */
  lemma LeastOpenIsBounded(c: Costs, s: Search, k: Policy, n: NodeId, p: seq<NodeId>)
    requires TreeOk(c, s) && Relaxed(c, s, {}) && Fair(c, k) && Bounded(c, s, k)
    requires IsLeastOpen(s, k, n) && WalkFromTo(c.Keys, p, s.start, n)
    ensures Discount(k, s.dist[n]) <= PathCost(c, p)
  {
    var i := FrontierIsBounded(c, s, k, p, n);
    ConsistentAlong(c, k.h, p[i..]);
  }

  lemma CloseKeepsBounded(c: Costs, s: Search, k: Policy, e: Entry)
    requires TreeOk(c, s) && Relaxed(c, s, {}) && Fair(c, k) && Bounded(c, s, k)
    requires IsLeastOpen(s, k, e.item)
    ensures Bounded(c, Close(s, e), k)
  {
    forall x, p | x in Close(s, e).closed && WalkFromTo(c.Keys, p, s.start, x)
      ensures Discount(k, s.dist[x]) <= PathCost(c, p)
    {
      if x == e.item {
        LeastOpenIsBounded(c, s, k, x, p);
      }
    }
  }

  // ------------------------------------------------------- exact distances

  /** On every edge the heuristic drops by at most the fraction `rate` of the cost. */
  ghost predicate ConsistentBy(c: Costs, h: Heuristic, rate: real) {
    forall u, v :: (u, v) in c ==> h(u) <= rate * c[(u, v)] + h(v)
  }

  /** What the key counts of one unit of distance. */
  function Rate(k: Policy): real {
    if k.biased then 1.0 - EPSILON else 1.0
  }

  /** The heuristic is consistent in the key's own measure of costs. */
  ghost predicate Steady(c: Costs, k: Policy) {
    ConsistentBy(c, k.h, Rate(k))
  }

  ghost predicate NoFarther(c: Costs, s: Search, n: NodeId, p: seq<NodeId>) {
    n in s.dist && IsWalk(c.Keys, p) && s.dist[n] <= PathCost(c, p)
  }

  /** No walk to a closed node is shorter than its distance. */
  ghost predicate Exact(c: Costs, s: Search) {
    forall n, p {:trigger NoFarther(c, s, n, p)} :: n in s.closed && WalkFromTo(c.Keys, p, s.start, n) ==> NoFarther(c, s, n, p)
  }

  lemma {:induction false} ConsistentByAlong(c: Costs, h: Heuristic, rate: real, p: seq<NodeId>)
    requires ConsistentBy(c, h, rate) && IsWalk(c.Keys, p)
    ensures h(p[0]) <= rate * PathCost(c, p) + h(p[|p| - 1])
    decreases |p|
  {
    if |p| > 1 {
      PathCostFirst(c, p);
      ConsistentByAlong(c, h, rate, p[1..]);
      var u, v := p[0], p[1];
      assert (u, v) in c && h(u) <= rate * c[(u, v)] + h(v);
      assert rate * (c[(u, v)] + PathCost(c, p[1..])) == rate * c[(u, v)] + rate * PathCost(c, p[1..]);
    }
  }

  /** When a least open node is closed under a heuristic consistent in the key's own measure, its distance
      is exact, whatever the signs of the costs. */
  lemma LeastOpenIsExact(c: Costs, s: Search, k: Policy, n: NodeId, p: seq<NodeId>)
    requires TreeOk(c, s) && Relaxed(c, s, {}) && Steady(c, k) && Exact(c, s)
    requires IsLeastOpen(s, k, n) && WalkFromTo(c.Keys, p, s.start, n)
    ensures NoFarther(c, s, n, p)
  {
    var i := FrontierOnWalk(c, s, p, n);
    if i > 0 {
      assert Crosses(c, s, p, i);
      assert NoFarther(c, s, p[i - 1], p[..i]);
    }
    ConsistentByAlong(c, k.h, Rate(k), p[i..]);
  }

  lemma CloseKeepsExact(c: Costs, s: Search, k: Policy, e: Entry)
    requires TreeOk(c, s) && Relaxed(c, s, {}) && Steady(c, k) && Exact(c, s)
    requires IsLeastOpen(s, k, e.item)
    ensures Exact(c, Close(s, e))
  {
    forall x, p | x in Close(s, e).closed && WalkFromTo(c.Keys, p, s.start, x)
      ensures NoFarther(c, Close(s, e), x, p)
    {
      if x == e.item {
        LeastOpenIsExact(c, s, k, x, p);
      } else {
        assert NoFarther(c, s, x, p);
      }
    }
  }

  /** Changes that leave closed nodes alone keep their distances exact. */
  lemma KeepsExact(c: Costs, s: Search, t: Search)
    requires Exact(c, s) && t.start == s.start && t.closed == s.closed
    requires forall n :: n in s.closed && n in s.dist ==> n in t.dist && t.dist[n] == s.dist[n]
    ensures Exact(c, t)
  {
    forall n, p | n in t.closed && WalkFromTo(c.Keys, p, t.start, n)
      ensures NoFarther(c, t, n, p)
    {
      assert NoFarther(c, s, n, p);
    }
  }

  /** Between two closings every discovered node's walk costs exactly its distance. */
  lemma {:induction false} TreeIsExact(c: Costs, s: Search, n: NodeId)
    requires TreeOk(c, s) && Relaxed(c, s, {}) && n in s.dist
    ensures WalkFromTo(c.Keys, s.tree[n], s.start, n)
    ensures PathCost(c, s.tree[n]) == s.dist[n]
    decreases |s.tree[n]|
  {
    assert Reached(c, s, n);
    if n != s.start {
      assert Linked(c, s, n);
      var u := s.prev[n];
      TreeIsExact(c, s, u);
      assert EdgeRelaxed(s, u, n, c[(u, n)]);
      PathCostExtend(c, s.tree[u], s.start, u, n);
    }
  }

  /** With an empty heap, everything reachable has been closed. */
  lemma EmptyHeapClosedAll(c: Costs, s: Search, k: Policy, t: NodeId)
    requires TreeOk(c, s) && Relaxed(c, s, {}) && HeapOk(s, k) && s.heap == multiset{}
    requires Reachable(c.Keys, s.start, t)
    ensures t in s.closed
  {
    var p :| WalkFromTo(c.Keys, p, s.start, t);
    forall u, v | u in s.closed && (u, v) in c.Keys
      ensures v in s.closed
    {
      assert EdgeRelaxed(s, u, v, c[(u, v)]);
      assert v !in s.closed ==> InHeap(s, k, v);
    }
    assert s.start in s.closed || InHeap(s, k, s.start);
    ClosedHoldsWalks(c.Keys, s.closed, p, |p| - 1);
  }

  lemma DiscoveredIsReachable(g: Graph, c: Costs, s: Search, n: NodeId)
    requires c.Keys == EdgesOf(g) && TreeOk(c, s) && n in s.dist
    ensures n in ReachSet(g, s.start) && Reachable(EdgesOf(g), s.start, n)
  {
    assert Reached(c, s, n);
    if n != s.start {
      assert Linked(c, s, n);
    }
  }

  lemma AddOne<T>(a: set<T>, x: T)
    requires x !in a
    ensures |a + {x}| == |a| + 1
  {
  }

  /** When a search stops without closing a reachable goal, it stopped early. */
  lemma StoppedEarly(g: Graph, c: Costs, s: Search, k: Policy, goal: NodeId)
    requires c.Keys == EdgesOf(g) && TreeOk(c, s) && Relaxed(c, s, {}) && HeapOk(s, k)
    requires goal !in s.closed && Reachable(c.Keys, s.start, goal)
    ensures s.heap != multiset{} && |s.closed| < |ReachSet(g, s.start)|
  {
    if s.heap == multiset{} {
      EmptyHeapClosedAll(c, s, k, goal);
    }
    forall n | n in s.closed ensures n in ReachSet(g, s.start) { DiscoveredIsReachable(g, c, s, n); }
    var p :| WalkFromTo(c.Keys, p, s.start, goal);
    assert goal in Universe(g, s.start) by {
      if |p| > 1 { assert EdgeAt(c.Keys, p, |p| - 2); }
    }
    SubsetCard(s.closed, ReachSet(g, s.start));
  }

  ghost predicate CheapestWalk(c: Costs, p: seq<NodeId>, s: NodeId, t: NodeId) {
    && WalkFromTo(c.Keys, p, s, t)
    && forall q :: WalkFromTo(c.Keys, q, s, t) ==> PathCost(c, p) <= PathCost(c, q)
  }

  /** Extracting the goal under such a heuristic ends the search with a cheapest walk. */
  lemma GoalIsCheapest(c: Costs, s: Search, k: Policy, goal: NodeId)
    requires TreeOk(c, s) && Relaxed(c, s, {}) && Steady(c, k) && Exact(c, s)
    requires IsLeastOpen(s, k, goal)
    ensures CheapestWalk(c, s.tree[goal], s.start, goal)
  {
    TreeIsExact(c, s, goal);
    forall q | WalkFromTo(c.Keys, q, s.start, goal)
      ensures PathCost(c, s.tree[goal]) <= PathCost(c, q)
    {
      LeastOpenIsExact(c, s, k, goal, q);
      assert NoFarther(c, s, goal, q);
    }
  }
}
