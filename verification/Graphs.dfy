/** Directed multigraphs as a pure neighbour provider shows them, with walks, reachability and costs. */
module Graphs {

  /** Node ids; only their total order (codepoint order of the id strings) matters. */
  type NodeId = int

  datatype Option<+T> = None | Some(value: T)

  /** One neighbour-list entry. */
  datatype Edge = Edge(to: NodeId, lbl: int)

  /** The provider for one fixed direction and label filter: which nodes exist, and their neighbours. */
  datatype Graph = Graph(alive: set<NodeId>, adj: map<NodeId, seq<Edge>>)

  type Weight = (NodeId, NodeId, int) -> real

  /** An edge relation, and an edge relation with a cost on every edge. */
  type Rel = set<(NodeId, NodeId)>
  type Costs = map<(NodeId, NodeId), real>

  /** The neighbour list of `n`, in provider order; empty when the provider knows none. */
  function Out(g: Graph, n: NodeId): seq<Edge> {
    if n in g.adj then g.adj[n] else []
  }

  ghost function EdgesOf(g: Graph): Rel {
    set u, e | u in g.adj && e in g.adj[u] :: (u, e.to)
  }

  /** All nodes the provider mentions, and `start`. */
  ghost function Universe(g: Graph, start: NodeId): set<NodeId> {
    {start} + g.adj.Keys + (set k | k in EdgesOf(g) :: k.1)
  }

  lemma OutIsEdge(g: Graph, start: NodeId, u: NodeId, j: nat)
    requires j < |Out(g, u)|
    ensures (u, Out(g, u)[j].to) in EdgesOf(g)
    ensures Out(g, u)[j].to in Universe(g, start)
  {
    assert Out(g, u)[j] in g.adj[u];
    assert (u, Out(g, u)[j].to) in EdgesOf(g);
  }

  lemma EdgeIsOut(g: Graph, u: NodeId, v: NodeId) returns (j: nat)
    requires (u, v) in EdgesOf(g)
    ensures j < |Out(g, u)| && Out(g, u)[j].to == v
  {
    var e :| e in g.adj[u] && e.to == v;
    j :| 0 <= j < |g.adj[u]| && g.adj[u][j] == e;
  }

  // ---------------------------------------------------------------- walks

  /** The `i`-th hop of `p` follows an edge. */
  ghost predicate EdgeAt(r: Rel, p: seq<NodeId>, i: int)
    requires 0 <= i < |p| - 1
  {
    (p[i], p[i + 1]) in r
  }

  ghost predicate IsWalk(r: Rel, p: seq<NodeId>) {
    |p| > 0 && forall i :: 0 <= i < |p| - 1 ==> EdgeAt(r, p, i)
  }

  ghost predicate WalkFromTo(r: Rel, p: seq<NodeId>, s: NodeId, t: NodeId) {
    IsWalk(r, p) && p[0] == s && p[|p| - 1] == t
  }

  ghost predicate Reachable(r: Rel, s: NodeId, t: NodeId) {
    exists p :: WalkFromTo(r, p, s, t)
  }

  lemma ExtendWalk(r: Rel, p: seq<NodeId>, s: NodeId, t: NodeId, v: NodeId)
    requires WalkFromTo(r, p, s, t) && (t, v) in r
    ensures WalkFromTo(r, p + [v], s, v)
  {
    var q := p + [v];
    forall i | 0 <= i < |q| - 1
      ensures EdgeAt(r, q, i)
    {
      assert i == |p| - 1 || EdgeAt(r, p, i);
    }
  }

  lemma SplitWalk(r: Rel, p: seq<NodeId>, k: nat)
    requires IsWalk(r, p) && k < |p|
    ensures WalkFromTo(r, p[..k + 1], p[0], p[k])
    ensures WalkFromTo(r, p[k..], p[k], p[|p| - 1])
  {
    var a, b := p[..k + 1], p[k..];
    forall i | 0 <= i < |a| - 1
      ensures EdgeAt(r, a, i)
    {
      assert EdgeAt(r, p, i);
    }
    forall i | 0 <= i < |b| - 1
      ensures EdgeAt(r, b, i)
    {
      assert EdgeAt(r, p, i + k);
    }
  }

  lemma JoinWalks(r: Rel, p: seq<NodeId>, q: seq<NodeId>, a: NodeId, b: NodeId, c: NodeId)
    requires WalkFromTo(r, p, a, b) && WalkFromTo(r, q, b, c)
    ensures WalkFromTo(r, p + q[1..], a, c)
  {
    var t := p + q[1..];
    forall i | 0 <= i < |t| - 1
      ensures EdgeAt(r, t, i)
    {
      assert if i < |p| - 1 then EdgeAt(r, p, i) else EdgeAt(r, q, i - |p| + 1);
    }
  }

  lemma ReachableTrans(r: Rel, a: NodeId, b: NodeId, c: NodeId)
    requires Reachable(r, a, b) && Reachable(r, b, c)
    ensures Reachable(r, a, c)
  {
    var p :| WalkFromTo(r, p, a, b);
    var q :| WalkFromTo(r, q, b, c);
    JoinWalks(r, p, q, a, b, c);
  }

  lemma ReachableStep(r: Rel, a: NodeId, b: NodeId, c: NodeId)
    requires Reachable(r, a, b) && (b, c) in r
    ensures Reachable(r, a, c)
  {
    var p :| WalkFromTo(r, p, a, b);
    ExtendWalk(r, p, a, b, c);
  }

  lemma ReachableSelf(r: Rel, a: NodeId)
    ensures Reachable(r, a, a)
  {
    assert WalkFromTo(r, [a], a, a);
  }

  /** A set that contains `s` and is closed under `r` contains every walk from `s`. */
  lemma {:induction false} ClosedHoldsWalks(r: Rel, c: set<NodeId>, p: seq<NodeId>, k: nat)
    requires IsWalk(r, p) && p[0] in c && k < |p|
    requires forall u, v :: u in c && (u, v) in r ==> v in c
    ensures p[k] in c
    decreases k
  {
    if k > 0 {
      ClosedHoldsWalks(r, c, p, k - 1);
      assert EdgeAt(r, p, k - 1);
    }
  }

  lemma SubsetCard<T>(a: set<T>, b: set<T>)
    requires a <= b
    ensures |a| <= |b| && (|a| == |b| ==> a == b)
  {
    assert b == a + (b - a);
  }

  /** The nodes that walks lead to. */
  ghost function ReachSet(g: Graph, start: NodeId): set<NodeId> {
    set n | n in Universe(g, start) && Reachable(EdgesOf(g), start, n)
  }

  lemma ReachSetIsExact(g: Graph, start: NodeId)
    ensures forall n :: n in ReachSet(g, start) <==> Reachable(EdgesOf(g), start, n)
  {
    forall n | Reachable(EdgesOf(g), start, n) ensures n in Universe(g, start) {
      var p :| WalkFromTo(EdgesOf(g), p, start, n);
      if |p| > 1 {
        assert EdgeAt(EdgesOf(g), p, |p| - 2);
        assert (p[|p| - 2], n) in EdgesOf(g);
      }
    }
  }

  // ---------------------------------------------------------------- costs

  /** The `j`-th neighbour-list entry of `u` is an edge of `c`, at no less than the cost `c` gives it. */
  ghost predicate EntryPriced(g: Graph, w: Weight, c: Costs, u: NodeId, j: nat)
    requires j < |Out(g, u)|
  {
    var e := Out(g, u)[j];
    (u, e.to) in c && c[(u, e.to)] <= w(u, e.to, e.lbl)
  }

  /** The cost of the edge is the weight of some neighbour-list entry. */
  ghost predicate CostListed(g: Graph, w: Weight, c: Costs, u: NodeId, v: NodeId)
    requires (u, v) in c
  {
    exists j :: 0 <= j < |Out(g, u)| && Out(g, u)[j].to == v && c[(u, v)] == w(u, v, Out(g, u)[j].lbl)
  }

  /** `c` holds the edges of `g`, each at the weight of its cheapest parallel entry. */
  ghost predicate Prices(g: Graph, w: Weight, c: Costs) {
    && (forall u, j: nat :: j < |Out(g, u)| ==> EntryPriced(g, w, c, u, j))
    && (forall u, v :: (u, v) in c ==> CostListed(g, w, c, u, v))
  }

  /** The first `i` entries of `u`, the cheapest of each target. */
  ghost function PriceEntries(g: Graph, w: Weight, u: NodeId, i: nat): map<NodeId, real>
    requires i <= |Out(g, u)|
  {
    if i == 0 then map[] else
      var c := PriceEntries(g, w, u, i - 1);
      var e := Out(g, u)[i - 1];
      if e.to in c && c[e.to] <= w(u, e.to, e.lbl) then c else c[e.to := w(u, e.to, e.lbl)]
  }

  ghost predicate PricedBelow(g: Graph, w: Weight, c: map<NodeId, real>, u: NodeId, j: int)
    requires 0 <= j < |Out(g, u)|
  {
    Out(g, u)[j].to in c && c[Out(g, u)[j].to] <= w(u, Out(g, u)[j].to, Out(g, u)[j].lbl)
  }

  ghost predicate PricedBy(g: Graph, w: Weight, c: map<NodeId, real>, u: NodeId, v: NodeId, j: int) {
    0 <= j < |Out(g, u)| && Out(g, u)[j].to == v && v in c && c[v] == w(u, v, Out(g, u)[j].lbl)
  }

  lemma {:induction false} PriceEntriesAre(g: Graph, w: Weight, u: NodeId, i: nat)
    requires i <= |Out(g, u)|
    ensures forall j {:trigger PricedBelow(g, w, PriceEntries(g, w, u, i), u, j)} :: 0 <= j < i ==> PricedBelow(g, w, PriceEntries(g, w, u, i), u, j)
    ensures forall v :: v in PriceEntries(g, w, u, i) ==> exists j :: PricedBy(g, w, PriceEntries(g, w, u, i), u, v, j)
  {
    if i > 0 {
      PriceEntriesAre(g, w, u, i - 1);
      var c, d := PriceEntries(g, w, u, i - 1), PriceEntries(g, w, u, i);
      forall j | 0 <= j < i ensures PricedBelow(g, w, d, u, j) { assert j == i - 1 || PricedBelow(g, w, c, u, j); }
      forall v | v in d
        ensures exists j :: PricedBy(g, w, d, u, v, j)
      {
        if v in c && d[v] == c[v] {
          var j :| PricedBy(g, w, c, u, v, j);
          assert PricedBy(g, w, d, u, v, j);
        } else {
          assert PricedBy(g, w, d, u, v, i - 1);
        }
      }
    }
  }

  lemma CostsExist(g: Graph, w: Weight)
    ensures exists c :: Prices(g, w, c)
  {
    var rows := map u | u in g.adj :: PriceEntries(g, w, u, |Out(g, u)|);
    var edges := set u, v | u in g.adj && v in rows[u] :: (u, v);
    var c: Costs := map k | k in edges :: rows[k.0][k.1];
    forall u, j: nat | j < |Out(g, u)|
      ensures EntryPriced(g, w, c, u, j)
    {
      var v := Out(g, u)[j].to;
      PriceEntriesAre(g, w, u, |Out(g, u)|);
      assert PricedBelow(g, w, rows[u], u, j);
      assert (u, v) in edges && c[(u, v)] == rows[u][v];
    }
    forall u, v | (u, v) in c
      ensures CostListed(g, w, c, u, v)
    {
      var row := PriceEntries(g, w, u, |Out(g, u)|);
      PriceEntriesAre(g, w, u, |Out(g, u)|);
      assert v in row && c[(u, v)] == row[v];
      var j :| PricedBy(g, w, row, u, v, j);
    }
    assert Prices(g, w, c);
  }

  lemma PricedEdges(g: Graph, w: Weight, c: Costs)
    requires Prices(g, w, c)
    ensures c.Keys == EdgesOf(g)
  {
    forall k | k in c.Keys
      ensures k in EdgesOf(g)
    {
      assert CostListed(g, w, c, k.0, k.1);
      var j :| 0 <= j < |Out(g, k.0)| && Out(g, k.0)[j].to == k.1;
      OutIsEdge(g, k.0, k.0, j);
    }
    forall k | k in EdgesOf(g)
      ensures k in c.Keys
    {
      var j := EdgeIsOut(g, k.0, k.1);
      assert EntryPriced(g, w, c, k.0, j);
    }
  }

  /** The edges of `g` with the cost of the cheapest parallel edge on each. */
  ghost function CostsOf(g: Graph, w: Weight): (c: Costs)
    ensures Prices(g, w, c) && c.Keys == EdgesOf(g)
  {
    CostsExist(g, w);
    var c :| Prices(g, w, c);
    PricedEdges(g, w, c);
    c
  }

  ghost function PathCost(c: Costs, p: seq<NodeId>): real
    requires IsWalk(c.Keys, p)
  {
    if |p| == 1 then 0.0
    else
      SplitWalk(c.Keys, p, |p| - 2);
      assert EdgeAt(c.Keys, p, |p| - 2) && p[..|p| - 2 + 1] == p[..|p| - 1];
      PathCost(c, p[..|p| - 1]) + c[(p[|p| - 2], p[|p| - 1])]
  }

  lemma PathCostExtend(c: Costs, p: seq<NodeId>, s: NodeId, t: NodeId, v: NodeId)
    requires WalkFromTo(c.Keys, p, s, t) && (t, v) in c
    ensures WalkFromTo(c.Keys, p + [v], s, v)
    ensures PathCost(c, p + [v]) == PathCost(c, p) + c[(t, v)]
  {
    ExtendWalk(c.Keys, p, s, t, v);
    assert (p + [v])[..|p + [v]| - 1] == p;
  }

  lemma {:induction false} PathCostJoin(c: Costs, p: seq<NodeId>, q: seq<NodeId>, s: NodeId, m: NodeId, t: NodeId)
    requires WalkFromTo(c.Keys, p, s, m) && WalkFromTo(c.Keys, q, m, t)
    ensures WalkFromTo(c.Keys, p + q[1..], s, t)
    ensures PathCost(c, p + q[1..]) == PathCost(c, p) + PathCost(c, q)
    decreases |q|
  {
    if |q| == 1 {
      assert p + q[1..] == p;
    } else {
      var n := |q| - 1;
      var a := q[..n];
      SplitWalk(c.Keys, q, n - 1);
      assert q[..n - 1 + 1] == a;
      PathCostJoin(c, p, a, s, m, q[n - 1]);
      assert p + q[1..] == (p + a[1..]) + [t];
      assert EdgeAt(c.Keys, q, n - 1);
      PathCostExtend(c, p + a[1..], s, q[n - 1], t);
    }
  }

  /** Splitting a walk splits its cost. */
  lemma PathCostSplit(c: Costs, p: seq<NodeId>, k: nat)
    requires IsWalk(c.Keys, p) && k < |p|
    ensures WalkFromTo(c.Keys, p[..k + 1], p[0], p[k]) && WalkFromTo(c.Keys, p[k..], p[k], p[|p| - 1])
    ensures PathCost(c, p) == PathCost(c, p[..k + 1]) + PathCost(c, p[k..])
  {
    SplitWalk(c.Keys, p, k);
    PathCostJoin(c, p[..k + 1], p[k..], p[0], p[k], p[|p| - 1]);
    assert p[..k + 1] + p[k..][1..] == p;
  }

  lemma PathCostFirst(c: Costs, p: seq<NodeId>)
    requires IsWalk(c.Keys, p) && |p| > 1
    ensures (p[0], p[1]) in c && IsWalk(c.Keys, p[1..])
    ensures PathCost(c, p) == c[(p[0], p[1])] + PathCost(c, p[1..])
  {
    assert EdgeAt(c.Keys, p, 0);
    PathCostSplit(c, p, 1);
    assert p[..2][..1] == [p[0]];
  }

  lemma CostAtMost(g1: Graph, g2: Graph, w: Weight, c1: Costs, c2: Costs, u: NodeId, v: NodeId)
    requires forall e :: e in Out(g1, u) ==> e in Out(g2, u)
    requires Prices(g1, w, c1) && Prices(g2, w, c2) && (u, v) in c1
    ensures (u, v) in c2 && c2[(u, v)] <= c1[(u, v)]
  {
    assert CostListed(g1, w, c1, u, v);
    var j :| 0 <= j < |Out(g1, u)| && Out(g1, u)[j].to == v && c1[(u, v)] == w(u, v, Out(g1, u)[j].lbl);
    assert Out(g1, u)[j] in Out(g2, u);
    var k: nat :| k < |Out(g2, u)| && Out(g2, u)[k] == Out(g1, u)[j];
    assert EntryPriced(g2, w, c2, u, k);
  }

  /** The costs do not depend on the order of the neighbour lists. */
  lemma SameEntriesSameCosts(g1: Graph, g2: Graph, w: Weight, c1: Costs, c2: Costs)
    requires forall u, e :: e in Out(g1, u) <==> e in Out(g2, u)
    requires Prices(g1, w, c1) && Prices(g2, w, c2)
    ensures c1 == c2
  {
    forall u, v
      ensures (u, v) in c1 <==> (u, v) in c2
      ensures (u, v) in c1 ==> c1[(u, v)] == c2[(u, v)]
    {
      if (u, v) in c1 { CostAtMost(g1, g2, w, c1, c2, u, v); }
      if (u, v) in c2 { CostAtMost(g2, g1, w, c2, c1, u, v); }
    }
    assert forall k :: k in c1 <==> (k.0, k.1) in c2;
  }

  // ------------------------------------------------------- reversed graphs

  /** `inn` lists every edge of `out` backwards, under the same label. */
  ghost predicate Inverse(out: Graph, inn: Graph) {
    forall u: NodeId, v: NodeId, l: int :: Edge(v, l) in Out(out, u) <==> Edge(u, l) in Out(inn, v)
  }

  function Flip(w: Weight): Weight {
    (u: NodeId, v: NodeId, l: int) => w(v, u, l)
  }

  /** `back` holds exactly the edges of `c`, turned around, at the same costs. */
  ghost predicate ReverseCosts(c: Costs, back: Costs) {
    && (forall u, v :: (u, v) in c <==> (v, u) in back)
    && (forall u, v :: (u, v) in c ==> c[(u, v)] == back[(v, u)])
  }

  lemma InverseCostLeq(out: Graph, inn: Graph, w: Weight, x: Weight, c: Costs, back: Costs, u: NodeId, v: NodeId)
    requires Inverse(out, inn) && Prices(out, w, c) && Prices(inn, x, back)
    requires forall l :: w(u, v, l) == x(v, u, l)
    requires (u, v) in c
    ensures (v, u) in back && back[(v, u)] <= c[(u, v)]
  {
    assert CostListed(out, w, c, u, v);
    var j :| 0 <= j < |Out(out, u)| && Out(out, u)[j].to == v && c[(u, v)] == w(u, v, Out(out, u)[j].lbl);
    var e := Out(out, u)[j];
    assert e == Edge(v, e.lbl) && e in Out(out, u);
    assert Edge(u, e.lbl) in Out(inn, v);
    var k: nat :| k < |Out(inn, v)| && Out(inn, v)[k] == Edge(u, e.lbl);
    assert EntryPriced(inn, x, back, v, k);
  }

  lemma InverseSym(out: Graph, inn: Graph)
    requires Inverse(out, inn)
    ensures Inverse(inn, out)
  {
    forall u: NodeId, v: NodeId, l: int
      ensures Edge(v, l) in Out(inn, u) <==> Edge(u, l) in Out(out, v)
    {
      assert Edge(u, l) in Out(out, v) <==> Edge(v, l) in Out(inn, u);
    }
  }

  lemma InverseCosts(out: Graph, inn: Graph, w: Weight, c: Costs, back: Costs)
    requires Inverse(out, inn) && Prices(out, w, c) && Prices(inn, Flip(w), back)
    ensures ReverseCosts(c, back)
  {
    InverseSym(out, inn);
    forall u, v
      ensures (u, v) in c <==> (v, u) in back
      ensures (u, v) in c ==> c[(u, v)] == back[(v, u)]
    {
      if (u, v) in c {
        InverseCostLeq(out, inn, w, Flip(w), c, back, u, v);
      }
      if (v, u) in back {
        InverseCostLeq(inn, out, Flip(w), w, back, c, v, u);
      }
    }
  }

  lemma InverseEdge(out: Graph, inn: Graph, u: NodeId, v: NodeId)
    requires Inverse(out, inn)
    ensures (u, v) in EdgesOf(out) <==> (v, u) in EdgesOf(inn)
  {
    if (u, v) in EdgesOf(out) {
      var j := EdgeIsOut(out, u, v);
      var e := Out(out, u)[j];
      assert e == Edge(v, e.lbl) && e in Out(out, u);
      assert Edge(u, e.lbl) in Out(inn, v);
    }
    if (v, u) in EdgesOf(inn) {
      var j := EdgeIsOut(inn, v, u);
      var e := Out(inn, v)[j];
      assert e == Edge(u, e.lbl) && e in Out(inn, v);
      assert Edge(v, e.lbl) in Out(out, u);
    }
  }

  function Reverse(p: seq<NodeId>): (r: seq<NodeId>)
    ensures |r| == |p| && forall i :: 0 <= i < |p| ==> r[i] == p[|p| - 1 - i]
  {
    seq(|p|, i requires 0 <= i < |p| => p[|p| - 1 - i])
  }

  /** The walk `a` to a meeting, then the backward search's walk `b` to it turned around. */
  function Through(a: seq<NodeId>, b: seq<NodeId>): seq<NodeId> {
    if b == [] then a else a + Reverse(b)[1..]
  }

  lemma ReverseIsWalk(c: Rel, back: Rel, p: seq<NodeId>)
    requires forall u, v :: (u, v) in c <==> (v, u) in back
    requires IsWalk(back, p)
    ensures IsWalk(c, Reverse(p))
  {
    var r := Reverse(p);
    forall i | 0 <= i < |r| - 1
      ensures EdgeAt(c, r, i)
    {
      var j := |p| - 2 - i;
      assert EdgeAt(back, p, j);
    }
  }

  /** Walking the reversed edges backwards costs the same. */
  lemma {:induction false} ReverseWalk(c: Costs, back: Costs, p: seq<NodeId>)
    requires ReverseCosts(c, back) && IsWalk(back.Keys, p)
    ensures IsWalk(c.Keys, Reverse(p))
    ensures PathCost(c, Reverse(p)) == PathCost(back, p)
    decreases |p|
  {
    ReverseIsWalk(c.Keys, back.Keys, p);
    if |p| > 1 {
      var m := |p| - 1;
      var q, r := p[..m], Reverse(p);
      SplitWalk(back.Keys, p, m - 1);
      assert p[..m - 1 + 1] == q;
      ReverseWalk(c, back, q);
      assert EdgeAt(back.Keys, p, m - 1);
      PathCostFirst(c, r);
      assert r[1..] == Reverse(q);
    }
  }
}
