/** Longest-path levels: how many edges the longest walk to a node has. */
module Levels {
  import opened Graphs
  import opened Topology

  datatype LevelResult = NotFound | Cyclic | Levelled(levels: map<NodeId, nat>, maxLevel: nat)

  /** A walk within `d` that ends at `n`. */
  ghost predicate WalkTo(r: Rel, d: set<NodeId>, p: seq<NodeId>, n: NodeId) {
    IsWalk(r, p) && p[|p| - 1] == n && forall i :: 0 <= i < |p| ==> p[i] in d
  }

  ghost predicate IsRoot(r: Rel, d: set<NodeId>, n: NodeId) {
    n in d && forall u :: u in d ==> (u, n) !in r
  }

  /** `level` is the edge count of a longest walk to `n`, and such a walk starts at a root. */
  ghost predicate IsLevel(r: Rel, d: set<NodeId>, n: NodeId, level: nat) {
    && (exists p :: WalkTo(r, d, p, n) && |p| == level + 1 && IsRoot(r, d, p[0]))
    && (forall p :: WalkTo(r, d, p, n) ==> |p| <= level + 1)
  }

  // ------------------------------------------------------------------- invariants

  ghost predicate Attained(r: Rel, d: set<NodeId>, levels: map<NodeId, nat>, n: NodeId)
    requires n in levels
  {
    exists p :: WalkTo(r, d, p, n) && |p| == levels[n] + 1
  }

  ghost predicate Above(levels: map<NodeId, nat>, u: NodeId, v: NodeId) {
    u in levels && v in levels && levels[u] + 1 <= levels[v]
  }

  /** Before `order[n]` is looked at. */
  ghost predicate Raising(g: Graph, d: set<NodeId>, order: seq<NodeId>, levels: map<NodeId, nat>, maxLevel: nat, n: nat) {
    && n <= |order| && Greedy(EdgesOf(g), d, order) && (forall u, v {:trigger (u, v) in EdgesOf(g)} :: u in d && (u, v) in EdgesOf(g) ==> v in d)
    && (forall x {:trigger x in levels} :: x in order ==> x in levels)
    && (forall x {:trigger Attained(EdgesOf(g), d, levels, x)} :: x in levels ==> Attained(EdgesOf(g), d, levels, x))
    && (forall u, v {:trigger Above(levels, u, v)} :: u in order[..n] && (u, v) in EdgesOf(g) ==> Above(levels, u, v))
    && (forall x {:trigger levels[x]} :: x in levels ==> levels[x] <= maxLevel)
    && (maxLevel == 0 || exists x :: x in levels && levels[x] == maxLevel)
  }

  /** After `i` entries of `order[n]`. */
  ghost predicate RaisingFrom(g: Graph, d: set<NodeId>, order: seq<NodeId>, levels: map<NodeId, nat>, maxLevel: nat,
          n: nat, i: nat) {
    && n < |order| && i <= |Out(g, order[n])| && Raising(g, d, order, levels, maxLevel, n)
    && forall j {:trigger Above(levels, order[n], Out(g, order[n])[j].to)} :: 0 <= j < i ==> Above(levels, order[n], Out(g, order[n])[j].to)
  }

  lemma StartRaising(g: Graph, start: seq<NodeId>, order: seq<NodeId>, levels: map<NodeId, nat>)
    requires Greedy(EdgesOf(g), ReachableSet(g, start), order)
    requires levels.Keys == SetOf(order) && forall x :: x in levels ==> levels[x] == 0
    ensures Raising(g, ReachableSet(g, start), order, levels, 0, 0)
  {
    var d := ReachableSet(g, start);
    GreedyDistinct(EdgesOf(g), d, order);
    forall u, v | u in d && (u, v) in EdgesOf(g) ensures v in d { ReachableFromStep(EdgesOf(g), start, u, v); }
    forall x | x in levels ensures Attained(EdgesOf(g), d, levels, x) { assert WalkTo(EdgesOf(g), d, [x], x); }
  }

  /** Raising a later node leaves everything established so far in place. */
  lemma RaiseOne(g: Graph, d: set<NodeId>, order: seq<NodeId>, levels: map<NodeId, nat>, maxLevel: nat, n: nat,
          i: nat, v: NodeId)
    requires RaisingFrom(g, d, order, levels, maxLevel, n, i) && i < |Out(g, order[n])| && v == Out(g, order[n])[i].to
    requires v in levels ==> levels[v] < levels[order[n]] + 1
    ensures var c := levels[order[n]] + 1;
            RaisingFrom(g, d, order, levels[v := c], if c > maxLevel then c else maxLevel, n, i + 1)
  {
    var u, c := order[n], levels[order[n]] + 1;
    var t := levels[v := c];
    GreedyDistinct(EdgesOf(g), d, order);
    assert u in SetOf(order);
    OutIsEdge(g, u, u, i);
    NotEarlier(g, d, order, n, v);
    assert Attained(EdgesOf(g), d, levels, u);
    var p :| WalkTo(EdgesOf(g), d, p, u) && |p| == levels[u] + 1;
    ExtendWalk(EdgesOf(g), p, p[0], u, v);
    assert WalkTo(EdgesOf(g), d, p + [v], v);
    forall x | x in t ensures Attained(EdgesOf(g), d, t, x) { assert x == v || Attained(EdgesOf(g), d, levels, x); }
    forall x, y | x in order[..n] && (x, y) in EdgesOf(g) ensures Above(t, x, y) { assert Above(levels, x, y); }
    forall j | 0 <= j < i + 1 ensures Above(t, u, Out(g, u)[j].to) {
      assert j == i || Above(levels, u, Out(g, u)[j].to);
    }
    if c > maxLevel {
      assert v in t && t[v] == c;
    } else if maxLevel > 0 {
      var x :| x in levels && levels[x] == maxLevel;
      assert x in t && (x == v || t[x] == maxLevel);
      assert v in t;
    }
  }

  lemma NotEarlier(g: Graph, d: set<NodeId>, order: seq<NodeId>, n: nat, v: NodeId)
    requires Greedy(EdgesOf(g), d, order) && n < |order| && (order[n], v) in EdgesOf(g)
    ensures v !in order[..n] && v != order[n]
  {
    GreedyDistinct(EdgesOf(g), d, order);
    assert order[n] in SetOf(order);
    if j: nat :| j <= n && order[j] == v {
      var i := GreedyForward(EdgesOf(g), d, order, order[n], j);
    }
  }

  lemma FinishNode(g: Graph, d: set<NodeId>, order: seq<NodeId>, levels: map<NodeId, nat>, maxLevel: nat, n: nat)
    requires n < |order| && RaisingFrom(g, d, order, levels, maxLevel, n, |Out(g, order[n])|)
    ensures Raising(g, d, order, levels, maxLevel, n + 1)
  {
    assert order[..n + 1] == order[..n] + [order[n]];
    forall u, v | u in order[..n + 1] && (u, v) in EdgesOf(g)
      ensures Above(levels, u, v)
    {
      if u == order[n] {
        var j := EdgeIsOut(g, u, v);
        assert Above(levels, order[n], Out(g, order[n])[j].to);
      }
    }
  }

  /** Once every node is done, no walk is longer than the level of its end. */
  lemma {:induction false} WalkBelowLevel(g: Graph, d: set<NodeId>, order: seq<NodeId>, levels: map<NodeId, nat>,
          maxLevel: nat, p: seq<NodeId>, n: NodeId)
    requires Raising(g, d, order, levels, maxLevel, |order|) && SetOf(order) == d && WalkTo(EdgesOf(g), d, p, n)
    ensures n in levels && |p| <= levels[n] + 1
    decreases |p|
  {
    assert n in SetOf(order);
    if |p| > 1 {
      var m := |p| - 1;
      SplitWalk(EdgesOf(g), p, m - 1);
      assert p[..m - 1 + 1] == p[..m];
      WalkBelowLevel(g, d, order, levels, maxLevel, p[..m], p[m - 1]);
      assert EdgeAt(EdgesOf(g), p, m - 1);
      assert p[m - 1] in SetOf(order) && order[..|order|] == order;
      assert Above(levels, p[m - 1], n);
    }
  }

  lemma LevelIsExact(g: Graph, d: set<NodeId>, order: seq<NodeId>, levels: map<NodeId, nat>, maxLevel: nat, n: NodeId)
    requires Raising(g, d, order, levels, maxLevel, |order|) && SetOf(order) == d && n in d
    ensures n in levels && IsLevel(EdgesOf(g), d, n, levels[n])
  {
    var r := EdgesOf(g);
    assert n in SetOf(order);
    forall p | WalkTo(r, d, p, n) ensures |p| <= levels[n] + 1 { WalkBelowLevel(g, d, order, levels, maxLevel, p, n); }
    assert Attained(r, d, levels, n);
    var p :| WalkTo(r, d, p, n) && |p| == levels[n] + 1;
    forall u | u in d
      ensures (u, p[0]) !in r
    {
      if (u, p[0]) in r {
        var q := [u] + p;
        forall i | 0 <= i < |q| - 1 ensures EdgeAt(r, q, i) { assert i == 0 || EdgeAt(r, p, i - 1); }
        assert WalkTo(r, d, q, n);
      }
    }
    assert IsRoot(r, d, p[0]);
  }

  /** `levels` gives every node of `d` its level. */
  ghost predicate AllLevels(r: Rel, d: set<NodeId>, levels: map<NodeId, nat>) {
    forall n :: n in d ==> n in levels && IsLevel(r, d, n, levels[n])
  }

  /** `m` is the greatest value of the map, or 0 for an empty one. */
  ghost predicate IsGreatest(levels: map<NodeId, nat>, m: nat) {
    (forall n :: n in levels ==> levels[n] <= m) && (m == 0 || exists n :: n in levels && levels[n] == m)
  }

  lemma Finished(g: Graph, d: set<NodeId>, order: seq<NodeId>, levels: map<NodeId, nat>, maxLevel: nat)
    requires Raising(g, d, order, levels, maxLevel, |order|)
    ensures IsGreatest(levels, maxLevel)
    ensures |order| == |d| ==> AllLevels(EdgesOf(g), d, levels)
  {
    if |order| == |d| {
      GreedyIsTopological(EdgesOf(g), d, order);
      forall n | n in d ensures n in levels && IsLevel(EdgesOf(g), d, n, levels[n]) {
        LevelIsExact(g, d, order, levels, maxLevel, n);
      }
    }
  }

  // ----------------------------------------------------------------------- method

  method RaiseNeighbors(g: Graph, levels0: map<NodeId, nat>, maxLevel0: nat, u: NodeId,
                        ghost d: set<NodeId>, ghost order: seq<NodeId>, ghost n: nat)
      returns (levels: map<NodeId, nat>, maxLevel: nat)
    requires n < |order| && order[n] == u && Raising(g, d, order, levels0, maxLevel0, n)
    ensures Raising(g, d, order, levels, maxLevel, n + 1)
  {
    levels, maxLevel := levels0, maxLevel0;
    var neighbors := Out(g, u);
    for i := 0 to |neighbors|
      invariant RaisingFrom(g, d, order, levels, maxLevel, n, i)
    {
      var v := neighbors[i].to;
      assert u in order && u in levels;
      OutIsEdge(g, u, u, i);
      NotEarlier(g, d, order, n, v);
      var neighborLevel := if v in levels then levels[v] else 0;
      var candidate := levels[u] + 1;
      if candidate > neighborLevel {
        RaiseOne(g, d, order, levels, maxLevel, n, i, v);
        levels := levels[v := candidate];
        maxLevel := if candidate > maxLevel then candidate else maxLevel;
      } else {
        assert Above(levels, u, v);
      }
    }
    FinishNode(g, d, order, levels, maxLevel, n);
  }

  /** Every node's level, and the greatest one. */
  method AssignLevels(g: Graph, start: seq<NodeId>, maxNodes: nat) returns (r: LevelResult)
    ensures r.NotFound? <==> exists s :: s in start && s !in g.alive
    ensures r.Cyclic? ==> !Acyclic(EdgesOf(g), ReachableSet(g, start))
    ensures r.Levelled? && |ReachableSet(g, start)| <= maxNodes ==> AllLevels(EdgesOf(g), ReachableSet(g, start), r.levels)
    ensures r.Levelled? ==> IsGreatest(r.levels, r.maxLevel)
  {
    var t := TopologicalSort(g, start, maxNodes, true);
    if t.InvalidStart? {
      return NotFound;
    }
    if t.GraphHasCycles? {
      return Cyclic;
    }
    var sorted := t.sorted;
    ghost var d := ReachableSet(g, start);
    var levels: map<NodeId, nat> := map x | x in sorted :: 0;
    var maxLevel := 0;
    StartRaising(g, start, sorted, levels);
    for n := 0 to |sorted|
      invariant Raising(g, d, sorted, levels, maxLevel, n)
    {
      levels, maxLevel := RaiseNeighbors(g, levels, maxLevel, sorted[n], d, sorted, n);
    }
    Finished(g, d, sorted, levels, maxLevel);
    r := Levelled(levels, maxLevel);
  }
}
