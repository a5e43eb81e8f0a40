/** Canonical cheapest paths: why the tie-breaking of Dijkstra's search makes its answer independent of
    the order of neighbour lists and of heap ties. */
module CanonicalPaths {
  import opened Graphs
  import opened MinHeaps
  import opened BestFirst

  ghost predicate Positive(c: Costs) {
    forall u, v :: (u, v) in c ==> c[(u, v)] > 0.0
  }

  ghost predicate NonNegative(c: Costs) {
    forall u, v :: (u, v) in c ==> c[(u, v)] >= 0.0
  }

  /** The policy ranks by distance alone. */
  ghost predicate ByDistance(k: Policy) {
    !k.biased && forall n :: k.h(n) == 0.0
  }

  /** Node `u` comes just before `v` on some walk from `start` to `v` that costs `total`. */
  ghost predicate PredecessorAt(c: Costs, start: NodeId, u: NodeId, v: NodeId, total: real) {
    (u, v) in c && exists q :: WalkFromTo(c.Keys, q, start, u) && PathCost(c, q) + c[(u, v)] == total
  }

  ghost predicate LeastPredecessor(c: Costs, start: NodeId, u: NodeId, v: NodeId, total: real) {
    PredecessorAt(c, start, u, v, total) && forall x :: PredecessorAt(c, start, x, v, total) ==> u <= x
  }

  /** The `i`-th node is the least possible predecessor of the next one, at the cost of this path. */
  ghost predicate CanonicalAt(c: Costs, p: seq<NodeId>, i: int)
    requires 0 <= i < |p| - 1
  {
    IsWalk(c.Keys, p[..i + 2]) && LeastPredecessor(c, p[0], p[i], p[i + 1], PathCost(c, p[..i + 2]))
  }

  ghost predicate Canonical(c: Costs, p: seq<NodeId>) {
    IsWalk(c.Keys, p) && forall i :: 0 <= i < |p| - 1 ==> CanonicalAt(c, p, i)
  }

  lemma PositiveWalk(c: Costs, p: seq<NodeId>)
    requires Positive(c) && IsWalk(c.Keys, p)
    ensures PathCost(c, p) >= 0.0 && (|p| > 1 ==> PathCost(c, p) > 0.0)
    decreases |p|
  {
    if |p| > 1 {
      PathCostFirst(c, p);
      PositiveWalk(c, p[1..]);
      var u, v := p[0], p[1];
      assert (u, v) in c;
    }
  }

  lemma CanonicalPrefix(c: Costs, p: seq<NodeId>)
    requires Canonical(c, p) && |p| > 1
    ensures Canonical(c, p[..|p| - 1])
  {
    var q := p[..|p| - 1];
    SplitWalk(c.Keys, p, |p| - 2);
    assert p[..|p| - 2 + 1] == q;
    forall i | 0 <= i < |q| - 1
      ensures CanonicalAt(c, q, i)
    {
      assert CanonicalAt(c, p, i) && p[..i + 2] == q[..i + 2];
    }
  }

  lemma CheapestPrefix(c: Costs, p: seq<NodeId>, s: NodeId, t: NodeId)
    requires CheapestWalk(c, p, s, t) && |p| > 1
    ensures CheapestWalk(c, p[..|p| - 1], s, p[|p| - 2])
    ensures (p[|p| - 2], t) in c && PathCost(c, p) == PathCost(c, p[..|p| - 1]) + c[(p[|p| - 2], t)]
  {
    var m := |p| - 1;
    var q, u := p[..m], p[m - 1];
    SplitWalk(c.Keys, p, m - 1);
    assert p[..m - 1 + 1] == q && EdgeAt(c.Keys, p, m - 1);
    forall q' | WalkFromTo(c.Keys, q', s, u)
      ensures PathCost(c, q) <= PathCost(c, q')
    {
      PathCostExtend(c, q', s, u, t);
    }
  }

  /** The only cheapest walk from `s` back to itself is the empty one. */
  ghost predicate RestsAt(c: Costs, s: NodeId) {
    forall p :: CheapestWalk(c, p, s, s) ==> |p| == 1
  }

  /** If staying at the start is the only cheapest way back, there is at most one canonical cheapest path. */
  lemma {:induction false} CanonicalIsUniqueFrom(c: Costs, p: seq<NodeId>, q: seq<NodeId>, s: NodeId, t: NodeId)
    requires RestsAt(c, s)
    requires CheapestWalk(c, p, s, t) && Canonical(c, p)
    requires CheapestWalk(c, q, s, t) && Canonical(c, q)
    ensures p == q
    decreases |p|
  {
    if s != t {
      assert CanonicalAt(c, p, |p| - 2) && p[..|p| - 2 + 2] == p;
      assert CanonicalAt(c, q, |q| - 2) && q[..|q| - 2 + 2] == q;
      CheapestPrefix(c, p, s, t);
      CheapestPrefix(c, q, s, t);
      CanonicalPrefix(c, p);
      CanonicalPrefix(c, q);
      CanonicalIsUniqueFrom(c, p[..|p| - 1], q[..|q| - 1], s, p[|p| - 2]);
    }
  }

  /** With positive costs there is at most one canonical cheapest path between two nodes. */
  lemma CanonicalIsUnique(c: Costs, p: seq<NodeId>, q: seq<NodeId>, s: NodeId, t: NodeId)
    requires Positive(c)
    requires CheapestWalk(c, p, s, t) && Canonical(c, p)
    requires CheapestWalk(c, q, s, t) && Canonical(c, q)
    ensures p == q
  {
    forall r | CheapestWalk(c, r, s, s)
      ensures |r| == 1
    {
      PositiveWalk(c, r);
      assert WalkFromTo(c.Keys, [s], s, s);
    }
    CanonicalIsUniqueFrom(c, p, q, s, t);
  }

  // ------------------------------------------------ what the search keeps for it

  /** `v` is known at no more than through `x`, and at a tie its predecessor is at most `x`. */
  ghost predicate Settled(s: Search, x: NodeId, v: NodeId, cost: real)
    requires x in s.dist
  {
    && v in s.dist && s.dist[v] <= s.dist[x] + cost
    && (s.dist[v] == s.dist[x] + cost ==> v in s.prev && s.prev[v] <= x)
  }

  ghost predicate AllSettled(c: Costs, s: Search, except: set<NodeId>)
    requires s.closed <= s.dist.Keys
  {
    forall x, v {:trigger Settled(s, x, v, c[(x, v)])} :: x in s.closed - except && (x, v) in c ==> Settled(s, x, v, c[(x, v)])
  }

  ghost predicate EntrySettled(g: Graph, w: Weight, s: Search, u: NodeId, j: int)
    requires u in s.dist && 0 <= j < |Out(g, u)|
  {
    Settled(s, u, Out(g, u)[j].to, w(u, Out(g, u)[j].to, Out(g, u)[j].lbl))
  }

  ghost predicate NoLater(s: Search, a: NodeId, b: NodeId) {
    a in s.dist && b in s.dist && s.dist[a] <= s.dist[b]
  }

  /** Closed nodes are no farther than open ones. */
  ghost predicate Ascending(s: Search) {
    forall a, b {:trigger NoLater(s, a, b)} :: a in s.closed && b in s.dist && b !in s.closed ==> NoLater(s, a, b)
  }

  ghost predicate SettledOuter(c: Costs, s: Search) {
    s.closed <= s.dist.Keys && AllSettled(c, s, {}) && Ascending(s)
  }

  ghost predicate SettledInner(g: Graph, w: Weight, c: Costs, s: Search, u: NodeId, i: nat) {
    && s.closed <= s.dist.Keys && u in s.closed && i <= |Out(g, u)|
    && AllSettled(c, s, {u}) && Ascending(s)
    && (forall a {:trigger NoLater(s, a, u)} :: a in s.closed ==> NoLater(s, a, u))
    && (forall j {:trigger EntrySettled(g, w, s, u, j)} :: 0 <= j < i ==> EntrySettled(g, w, s, u, j))
  }

  lemma SettledEnter(g: Graph, w: Weight, c: Costs, s: Search, k: Policy, e: Entry)
    requires Outer(g, w, c, s, k) && SettledOuter(c, s) && IsLeastOpen(s, k, e.item) && ByDistance(k)
    ensures SettledInner(g, w, c, Close(s, e), e.item, 0)
  {
    var t := Close(s, e);
    forall x, v | x in t.closed - {e.item} && (x, v) in c
      ensures Settled(t, x, v, c[(x, v)])
    {
      assert Settled(s, x, v, c[(x, v)]);
    }
    forall a, b | a in t.closed && b in t.dist && b !in t.closed
      ensures NoLater(t, a, b)
    {
      assert a == e.item || NoLater(s, a, b);
    }
    forall a | a in t.closed
      ensures NoLater(t, a, e.item)
    {
      assert a == e.item || NoLater(s, a, e.item);
    }
  }

  lemma SettledKeep(g: Graph, w: Weight, c: Costs, s: Search, k: Policy, u: NodeId, i: nat)
    requires Inner(g, w, c, s, k, u, i) && SettledInner(g, w, c, s, u, i) && Positive(c) && i < |Out(g, u)|
    requires var e := Out(g, u)[i]; !Updates(s, u, e.to, s.dist[u] + w(u, e.to, e.lbl), true)
    ensures SettledInner(g, w, c, s, u, i + 1)
  {
    var v := Out(g, u)[i].to;
    assert EntryPriced(g, w, c, u, i);
    assert v in s.closed ==> NoLater(s, v, u);
    assert EntrySettled(g, w, s, u, i);
  }

  lemma SettledImprove(g: Graph, w: Weight, c: Costs, s: Search, k: Policy, u: NodeId, i: nat, v: NodeId, cost: real)
    requires Inner(g, w, c, s, k, u, i) && SettledInner(g, w, c, s, u, i) && Positive(c) && i < |Out(g, u)|
    requires v == Out(g, u)[i].to && cost == w(u, v, Out(g, u)[i].lbl)
    requires Updates(s, u, v, s.dist[u] + cost, true)
    ensures SettledInner(g, w, c, Improve(s, k, u, v, s.dist[u] + cost), u, i + 1)
  {
    var t := Improve(s, k, u, v, s.dist[u] + cost);
    assert EntryPriced(g, w, c, u, i);
    forall x, y | x in t.closed - {u} && (x, y) in c
      ensures Settled(t, x, y, c[(x, y)])
    {
      assert Settled(s, x, y, c[(x, y)]);
    }
    forall a, b | a in t.closed && b in t.dist && b !in t.closed
      ensures NoLater(t, a, b)
    {
      assert NoLater(s, a, u) && (b == v || NoLater(s, a, b));
    }
    forall a | a in t.closed
      ensures NoLater(t, a, u)
    {
      assert NoLater(s, a, u);
    }
    forall j | 0 <= j < i + 1
      ensures EntrySettled(g, w, t, u, j)
    {
      assert j == i || EntrySettled(g, w, s, u, j);
    }
  }

  lemma SettledLeave(g: Graph, w: Weight, c: Costs, s: Search, k: Policy, u: NodeId)
    requires Inner(g, w, c, s, k, u, |Out(g, u)|) && SettledInner(g, w, c, s, u, |Out(g, u)|)
    ensures SettledOuter(c, s)
  {
    forall x, v | x in s.closed && (x, v) in c
      ensures Settled(s, x, v, c[(x, v)])
    {
      if x == u {
        assert CostListed(g, w, c, x, v);
        var j :| 0 <= j < |Out(g, x)| && Out(g, x)[j].to == v && c[(x, v)] == w(x, v, Out(g, x)[j].lbl);
        assert EntrySettled(g, w, s, u, j);
      }
    }
  }

  /** A node from which `v` can be entered at its distance has been closed before `v`. */
  lemma PredecessorIsClosed(c: Costs, s: Search, k: Policy, goal: NodeId, x: NodeId, v: NodeId, q: seq<NodeId>)
    requires TreeOk(c, s) && Relaxed(c, s, {}) && Fair(c, k) && Bounded(c, s, k) && ByDistance(k) && Positive(c)
    requires Ascending(s) && IsLeastOpen(s, k, goal)
    requires v in s.dist && (v in s.closed || v == goal) && (x, v) in c
    requires WalkFromTo(c.Keys, q, s.start, x) && PathCost(c, q) < s.dist[v]
    ensures x in s.closed
  {
    forall y | y in s.dist && y !in s.closed
      ensures s.dist[v] <= s.dist[y]
    {
      assert v in s.closed ==> NoLater(s, v, y);
    }
    if x !in s.closed {
      var i := FrontierIsBounded(c, s, k, q, x);
      PositiveWalk(c, q[i..]);
    }
  }

  /** When the goal is extracted, the walk recorded for it, and for every closed node, is canonical. */
  lemma {:induction false} TreeIsCanonical(c: Costs, s: Search, k: Policy, goal: NodeId, n: NodeId)
    requires TreeOk(c, s) && Relaxed(c, s, {}) && Fair(c, k) && Bounded(c, s, k) && ByDistance(k) && Positive(c)
    requires SettledOuter(c, s) && IsLeastOpen(s, k, goal)
    requires n in s.dist && (n in s.closed || n == goal)
    ensures Canonical(c, s.tree[n])
    decreases |s.tree[n]|
  {
    TreeIsExact(c, s, n);
    var p := s.tree[n];
    if n != s.start {
      assert Linked(c, s, n);
      var u := s.prev[n];
      TreeIsExact(c, s, u);
      TreeIsCanonical(c, s, k, goal, u);
      LastIsLeast(c, s, k, goal, n);
      forall i | 0 <= i < |p| - 1
        ensures CanonicalAt(c, p, i)
      {
        if i == |p| - 2 {
          assert p[..i + 2] == p;
        } else {
          assert CanonicalAt(c, s.tree[u], i) && p[..i + 2] == s.tree[u][..i + 2];
        }
      }
    }
  }

  lemma LastIsLeast(c: Costs, s: Search, k: Policy, goal: NodeId, n: NodeId)
    requires TreeOk(c, s) && Relaxed(c, s, {}) && Fair(c, k) && Bounded(c, s, k) && ByDistance(k) && Positive(c)
    requires SettledOuter(c, s) && IsLeastOpen(s, k, goal)
    requires n in s.prev && (n in s.closed || n == goal)
    ensures LeastPredecessor(c, s.start, s.prev[n], n, s.dist[n])
  {
    assert Linked(c, s, n);
    var u := s.prev[n];
    TreeIsExact(c, s, u);
    assert Settled(s, u, n, c[(u, n)]);
    assert PredecessorAt(c, s.start, u, n, s.dist[n]);
    forall x | PredecessorAt(c, s.start, x, n, s.dist[n])
      ensures u <= x
    {
      var q :| WalkFromTo(c.Keys, q, s.start, x) && PathCost(c, q) + c[(x, n)] == s.dist[n];
      PredecessorIsClosed(c, s, k, goal, x, n, q);
      assert Discount(k, s.dist[x]) <= PathCost(c, q);
      assert Settled(s, x, n, c[(x, n)]);
    }
  }
}
