/** Distances by edge count, and the level-sorted breadth-first search in closed form. */
module Breadth {
  import opened Graphs
  import opened Sorting
  import opened Topology

  // ------------------------------------------------------------------ balls and layers

  ghost function Successors(r: Rel, s: set<NodeId>): set<NodeId> {
    set e | e in r && e.0 in s :: e.1
  }

  /** The nodes at most `k` edges away from `start`. */
  ghost function Ball(r: Rel, start: NodeId, k: nat): set<NodeId> {
    if k == 0 then {start} else Ball(r, start, k - 1) + Successors(r, Ball(r, start, k - 1))
  }

  /** The nodes exactly `k` edges away. */
  ghost function Layer(r: Rel, start: NodeId, k: nat): set<NodeId> {
    if k == 0 then {start} else Ball(r, start, k) - Ball(r, start, k - 1)
  }

  lemma SuccessorIn(r: Rel, s: set<NodeId>, u: NodeId, v: NodeId)
    requires u in s && (u, v) in r
    ensures v in Successors(r, s)
  {
    var e := (u, v);
    assert e in r && e.0 in s;
  }

  lemma {:induction false} BallGrows(r: Rel, start: NodeId, j: nat, k: nat)
    requires j <= k
    ensures Ball(r, start, j) <= Ball(r, start, k)
    decreases k
  {
    if j < k {
      BallGrows(r, start, j, k - 1);
    }
  }

  /** A node is in the ball exactly when some walk of at most `k` edges leads to it. */
  lemma {:induction false} WalkInBall(r: Rel, start: NodeId, p: seq<NodeId>, n: NodeId, k: nat)
    requires WalkFromTo(r, p, start, n) && |p| <= k + 1
    ensures n in Ball(r, start, k)
    decreases |p|
  {
    var m := |p| - 1;
    BallGrows(r, start, m, k);
    if m > 0 {
      SplitWalk(r, p, m - 1);
      assert p[..m - 1 + 1] == p[..m] && EdgeAt(r, p, m - 1);
      WalkInBall(r, start, p[..m], p[m - 1], m - 1);
      SuccessorIn(r, Ball(r, start, m - 1), p[m - 1], n);
    }
  }

  lemma {:induction false} BallHasWalk(r: Rel, start: NodeId, n: NodeId, k: nat) returns (p: seq<NodeId>)
    requires n in Ball(r, start, k)
    ensures WalkFromTo(r, p, start, n) && |p| <= k + 1
    decreases k
  {
    if k == 0 {
      p := [start];
    } else if n in Ball(r, start, k - 1) {
      p := BallHasWalk(r, start, n, k - 1);
    } else {
      var e :| e in r && e.0 in Ball(r, start, k - 1) && e.1 == n;
      p := BallHasWalk(r, start, e.0, k - 1);
      ExtendWalk(r, p, start, e.0, n);
      p := p + [n];
    }
  }

  /** A layer holds the nodes whose shortest walk has exactly `k` edges. */
  lemma LayerIsDistance(r: Rel, start: NodeId, n: NodeId, k: nat)
    ensures n in Layer(r, start, k) <==>
            (exists p :: WalkFromTo(r, p, start, n) && |p| == k + 1) && (forall p :: WalkFromTo(r, p, start, n) ==> |p| >= k + 1)
  {
    if n in Layer(r, start, k) {
      var p := BallHasWalk(r, start, n, k);
      forall q | WalkFromTo(r, q, start, n) ensures |q| >= k + 1 {
        if |q| <= k { WalkInBall(r, start, q, n, k - 1); }
      }
    }
    if p :| WalkFromTo(r, p, start, n) && |p| == k + 1 {
      WalkInBall(r, start, p, n, k);
      if k > 0 && n in Ball(r, start, k - 1) {
        var q := BallHasWalk(r, start, n, k - 1);
      }
    }
  }

  lemma BallNext(r: Rel, start: NodeId, a: nat, b: nat)
    requires Ball(r, start, a) == Ball(r, start, b)
    ensures Ball(r, start, a + 1) == Ball(r, start, b + 1)
  {
  }

  /** Once a layer is empty the ball has stopped growing. */
  lemma {:induction false} BallStops(r: Rel, start: NodeId, j: nat, k: nat)
    requires j <= k && Ball(r, start, j + 1) == Ball(r, start, j)
    ensures Ball(r, start, k) == Ball(r, start, j)
    decreases k
  {
    if j < k {
      BallStops(r, start, j, k - 1);
      BallNext(r, start, k - 1, j);
    }
  }

  // ------------------------------------------------------------ the closed form

  ghost predicate Ascending(s: seq<NodeId>) {
    forall i, j :: 0 <= i < j < |s| ==> s[i] < s[j]
  }

  ghost predicate IsLeast(s: set<NodeId>, n: NodeId) {
    n in s && forall x :: x in s ==> n <= x
  }

  lemma LeastExists(s: set<NodeId>, x: NodeId)
    requires x in s
    ensures exists n :: IsLeast(s, n)
    decreases s
  {
    if !IsLeast(s, x) {
      var y :| y in s && y < x;
      LeastExists(s - {x}, y);
      var n :| IsLeast(s - {x}, n);
      forall z | z in s ensures n <= z { assert z == x || z in s - {x}; }
      assert IsLeast(s, n);
    }
  }

  /** The members of a set in ascending order. */
  ghost function InOrder(s: set<NodeId>): seq<NodeId>
    decreases s
  {
    if exists n :: IsLeast(s, n) then
      var n :| IsLeast(s, n);
      [n] + InOrder(s - {n})
    else []
  }

  lemma InOrderFirst(s: set<NodeId>, x: NodeId) returns (n: NodeId)
    requires x in s
    ensures IsLeast(s, n) && InOrder(s) == [n] + InOrder(s - {n})
  {
    LeastExists(s, x);
    n :| IsLeast(s, n) && InOrder(s) == [n] + InOrder(s - {n});
  }

  lemma AscendingCons(n: NodeId, t: seq<NodeId>)
    requires Ascending(t) && forall x :: x in SetOf(t) ==> n < x
    ensures Ascending([n] + t) && SetOf([n] + t) == {n} + SetOf(t)
  {
    forall j | 0 <= j < |t| ensures n < t[j] { assert t[j] in SetOf(t); }
  }

  lemma {:induction false} InOrderIsAscending(s: set<NodeId>)
    ensures Ascending(InOrder(s)) && SetOf(InOrder(s)) == s
    decreases s
  {
    if exists x :: x in s {
      var x :| x in s;
      var n := InOrderFirst(s, x);
      InOrderIsAscending(s - {n});
      AscendingCons(n, InOrder(s - {n}));
    }
  }

  lemma {:induction false} AscendingIsUnique(s: seq<NodeId>, t: seq<NodeId>)
    requires Ascending(s) && Ascending(t) && SetOf(s) == SetOf(t)
    ensures s == t
    decreases |s|
  {
    assert |s| > 0 ==> s[0] in SetOf(s);
    assert |t| > 0 ==> t[0] in SetOf(t);
    if s != [] && t != [] {
      assert s[0] == t[0];
      forall x ensures x in SetOf(s[1..]) <==> x in SetOf(t[1..]) {
        assert x in SetOf(s) <==> x in SetOf(t);
        assert x in SetOf(s[1..]) <==> x in SetOf(s) && x != s[0];
        assert x in SetOf(t[1..]) <==> x in SetOf(t) && x != t[0];
      }
      AscendingIsUnique(s[1..], t[1..]);
    }
  }

  /** All nodes within `k` edges, by distance and then by id. */
  ghost function BfsOrder(r: Rel, start: NodeId, k: nat): seq<NodeId> {
    if k == 0 then [start] else BfsOrder(r, start, k - 1) + InOrder(Layer(r, start, k))
  }

  lemma SetOfConcat(a: seq<NodeId>, b: seq<NodeId>)
    ensures SetOf(a + b) == SetOf(a) + SetOf(b)
  {
  }

  lemma {:induction false} BfsOrderSet(r: Rel, start: NodeId, k: nat)
    ensures SetOf(BfsOrder(r, start, k)) == Ball(r, start, k)
    decreases k
  {
    if k > 0 {
      BfsOrderSet(r, start, k - 1);
      InOrderIsAscending(Layer(r, start, k));
      SetOfConcat(BfsOrder(r, start, k - 1), InOrder(Layer(r, start, k)));
    }
  }

  lemma {:induction false} BfsOrderPrefix(r: Rel, start: NodeId, j: nat, k: nat)
    requires j <= k
    ensures BfsOrder(r, start, j) <= BfsOrder(r, start, k)
    decreases k
  {
    if j < k {
      BfsOrderPrefix(r, start, j, k - 1);
    }
  }

  lemma InOrderEmpty()
    ensures InOrder({}) == []
  {
  }

  lemma LayerEmpty(r: Rel, start: NodeId, j: nat, k: nat)
    requires j < k && Ball(r, start, j + 1) == Ball(r, start, j)
    ensures Layer(r, start, k) == {}
  {
    BallStops(r, start, j, k);
    BallStops(r, start, j, k - 1);
  }

  lemma BfsOrderNext(r: Rel, start: NodeId, k: nat)
    requires k > 0 && Layer(r, start, k) == {}
    ensures BfsOrder(r, start, k) == BfsOrder(r, start, k - 1)
  {
    InOrderEmpty();
  }

  lemma {:induction false} BfsOrderStops(r: Rel, start: NodeId, j: nat, k: nat)
    requires j <= k && forall i :: j < i <= k ==> Layer(r, start, i) == {}
    ensures BfsOrder(r, start, k) == BfsOrder(r, start, j)
    decreases k
  {
    if j < k {
      BfsOrderStops(r, start, j, k - 1);
      BfsOrderNext(r, start, k);
    }
  }

  // ------------------------------------------------------------------ the search

  /** What has been visited before the level at `depth`. */
  ghost function Before(r: Rel, start: NodeId, depth: nat): set<NodeId> {
    if depth == 0 then {} else Ball(r, start, depth - 1)
  }

  ghost function OrderBefore(r: Rel, start: NodeId, depth: nat): seq<NodeId> {
    if depth == 0 then [] else BfsOrder(r, start, depth - 1)
  }

  /** The frontier for `depth`: the whole layer, possibly with nodes seen earlier. */
  ghost predicate IsFrontier(r: Rel, start: NodeId, depth: nat, level: seq<NodeId>) {
    Distinct(level) && Layer(r, start, depth) <= SetOf(level) <= Ball(r, start, depth)
  }

  ghost function Fresh(s: seq<NodeId>, old_: set<NodeId>): seq<NodeId> {
    if s == [] then [] else Fresh(s[..|s| - 1], old_) + (if s[|s| - 1] in old_ then [] else [s[|s| - 1]])
  }

  lemma {:induction false} FreshOk(s: seq<NodeId>, old_: set<NodeId>)
    requires Ascending(s)
    ensures Ascending(Fresh(s, old_)) && SetOf(Fresh(s, old_)) == SetOf(s) - old_
    decreases |s|
  {
    if s != [] {
      var m := |s| - 1;
      FreshOk(s[..m], old_);
      var t := Fresh(s[..m], old_);
      forall i | 0 <= i < |t| ensures t[i] < s[m] {
        assert t[i] in SetOf(t) && t[i] in SetOf(s[..m]);
      }
      assert s == s[..m] + [s[m]];
      SetOfAppend(s[..m], s[m]);
      SetOfAppend(t, s[m]);
    }
  }

  lemma {:induction false} FreshPrefix(s: seq<NodeId>, i: nat, old_: set<NodeId>)
    requires i <= |s|
    ensures Fresh(s[..i], old_) <= Fresh(s, old_)
    decreases |s|
  {
    if i < |s| {
      FreshPrefix(s[..|s| - 1], i, old_);
      assert s[..|s| - 1][..i] == s[..i];
    } else {
      assert s[..i] == s;
    }
  }

  /** The level's fresh nodes, in id order, are the layer. */
  lemma FreshIsLayer(r: Rel, start: NodeId, depth: nat, level: seq<NodeId>)
    requires Ascending(level) && IsFrontier(r, start, depth, level)
    ensures OrderBefore(r, start, depth) + Fresh(level, Before(r, start, depth)) == BfsOrder(r, start, depth)
    ensures Before(r, start, depth) + SetOf(Fresh(level, Before(r, start, depth))) == Ball(r, start, depth)
  {
    var old_ := Before(r, start, depth);
    FreshOk(level, old_);
    if depth == 0 {
      AscendingIsUnique(Fresh(level, old_), [start]);
    } else {
      BallGrows(r, start, depth - 1, depth);
      InOrderIsAscending(Layer(r, start, depth));
      AscendingIsUnique(Fresh(level, old_), InOrder(Layer(r, start, depth)));
    }
  }

  lemma SortedIsAscending(level: seq<NodeId>, sorted: seq<NodeId>)
    requires Distinct(level) && multiset(sorted) == multiset(level) && SortedBy((a: NodeId, b: NodeId) => a <= b, sorted)
    ensures Ascending(sorted) && SetOf(sorted) == SetOf(level)
  {
    forall x ensures x in SetOf(sorted) <==> x in SetOf(level) {
      assert x in multiset(sorted) <==> x in multiset(level);
    }
    DistinctAfterSorting(level, sorted);
    assert forall i, j :: 0 <= i < j < |sorted| ==> sorted[i] <= sorted[j] && sorted[i] != sorted[j];
  }

  /** Queues the neighbours of `x` that are neither visited nor queued. */
  method QueueNeighbors(g: Graph, x: NodeId, visited: set<NodeId>, queued0: set<NodeId>, next0: seq<NodeId>)
      returns (queued: set<NodeId>, next: seq<NodeId>)
    requires Distinct(next0) && SetOf(next0) == queued0
    ensures Distinct(next) && SetOf(next) == queued && next0 <= next
    ensures queued <= queued0 + Successors(EdgesOf(g), {x})
    ensures forall y :: (x, y) in EdgesOf(g) ==> y in visited || y in queued
  {
    queued, next := queued0, next0;
    var neighbors := Out(g, x);
    for i := 0 to |neighbors|
      invariant Distinct(next) && SetOf(next) == queued && next0 <= next
      invariant queued <= queued0 + Successors(EdgesOf(g), {x})
      invariant forall j :: 0 <= j < i ==> neighbors[j].to in visited || neighbors[j].to in queued
    {
      var y := neighbors[i].to;
      OutIsEdge(g, x, x, i);
      SuccessorIn(EdgesOf(g), {x}, x, y);
      if y !in visited && y !in queued {
        SetOfAppend(next, y);
        queued := queued + {y};
        next := next + [y];
      }
    }
    forall y | (x, y) in EdgesOf(g) ensures y in visited || y in queued { var j := EdgeIsOut(g, x, y); }
  }

  /** The part of a level handled so far: `old_` and `order` were visited before it, and the nodes it may
      still queue come after `ball`. */
  ghost predicate Visiting(r: Rel, old_: set<NodeId>, order: seq<NodeId>, ball: set<NodeId>, deep: bool,
          sorted: seq<NodeId>, i: nat,
                           visited: set<NodeId>, result: seq<NodeId>, next: seq<NodeId>) {
    && i <= |sorted|
    && result == order + Fresh(sorted[..i], old_)
    && visited == old_ + SetOf(Fresh(sorted[..i], old_))
    && |visited| == |result|
    && Distinct(next) && SetOf(next) <= Successors(r, ball) && (!deep ==> next == [])
    && (deep ==> forall x, y {:trigger (x, y) in r} :: x in Fresh(sorted[..i], old_) && (x, y) in r ==> y in visited || y in next)
  }

  lemma VisitNext(old_: set<NodeId>, sorted: seq<NodeId>, i: nat, visited: set<NodeId>)
    requires Ascending(sorted) && i < |sorted|
    requires visited == old_ + SetOf(Fresh(sorted[..i], old_))
    ensures sorted[i] in visited <==> sorted[i] in old_
    ensures Fresh(sorted[..i + 1], old_) == Fresh(sorted[..i], old_) + (if sorted[i] in old_ then [] else [sorted[i]])
  {
    assert sorted[..i + 1][..i] == sorted[..i];
    FreshOk(sorted[..i], old_);
  }

  /** Visits one node of the level and queues its neighbours. */
  method VisitNode(g: Graph, x: NodeId, deep: bool, visited0: set<NodeId>, result0: seq<NodeId>, next0: seq<NodeId>,
                   ghost old_: set<NodeId>, ghost order: seq<NodeId>, ghost ball: set<NodeId>, ghost sorted: seq<NodeId>, ghost i: nat)
      returns (visited: set<NodeId>, result: seq<NodeId>, next: seq<NodeId>)
    requires Ascending(sorted) && i < |sorted| && sorted[i] == x && x !in visited0 && x in ball
    requires Visiting(EdgesOf(g), old_, order, ball, deep, sorted, i, visited0, result0, next0)
    ensures Visiting(EdgesOf(g), old_, order, ball, deep, sorted, i + 1, visited, result, next)
  {
    VisitNext(old_, sorted, i, visited0);
    SetOfAppend(Fresh(sorted[..i], old_), x);
    visited, result, next := visited0 + {x}, result0 + [x], next0;
    if deep {
      var queued := set y | y in next0;
      queued, next := QueueNeighbors(g, x, visited, queued, next0);
      SuccessorsGrow(EdgesOf(g), {x}, ball);
    }
  }

  lemma SuccessorsGrow(r: Rel, a: set<NodeId>, b: set<NodeId>)
    requires a <= b
    ensures Successors(r, a) <= Successors(r, b)
  {
  }

  /** Visits one level in id order, up to the node limit, and collects the next frontier. */
  method VisitLevel(g: Graph, deep: bool, maxNodes: nat, level: seq<NodeId>, visited0: set<NodeId>,
          result0: seq<NodeId>, ghost ball: set<NodeId>)
      returns (visited: set<NodeId>, result: seq<NodeId>, next: seq<NodeId>, ghost sorted: seq<NodeId>, ghost i: nat)
    requires Distinct(level) && SetOf(level) <= ball && |visited0| == |result0| < maxNodes
    ensures Ascending(sorted) && SetOf(sorted) == SetOf(level)
    ensures Visiting(EdgesOf(g), visited0, result0, ball, deep, sorted, i, visited, result, next)
    ensures |visited| <= maxNodes && (|visited| < maxNodes ==> i == |sorted|)
  {
    var inOrder := Sort((a: NodeId, b: NodeId) => a <= b, level);
    SortedIsAscending(level, inOrder);
    sorted, i := inOrder, 0;
    visited, result, next := visited0, result0, [];
    var k := 0;
    while k < |inOrder| && |visited| < maxNodes
      invariant k == i
      invariant Visiting(EdgesOf(g), visited0, result0, ball, deep, sorted, i, visited, result, next) && |visited| <= maxNodes
      decreases |inOrder| - k
    {
      VisitNext(visited0, sorted, i, visited);
      if inOrder[k] !in visited {
        assert sorted[i] in SetOf(sorted);
        visited, result, next := VisitNode(g, inOrder[k], deep, visited, result, next, visited0, result0, ball, sorted, i);
      }
      k, i := k + 1, i + 1;
    }
  }

  /** What one level adds to the closed form. */
  lemma LevelDone(r: Rel, start: NodeId, depth: nat, deep: bool, level: seq<NodeId>, sorted: seq<NodeId>, i: nat,
                  visited: set<NodeId>, result: seq<NodeId>, next: seq<NodeId>)
    requires IsFrontier(r, start, depth, level) && Ascending(sorted) && SetOf(sorted) == SetOf(level)
    requires Visiting(r, Before(r, start, depth), OrderBefore(r, start, depth), Ball(r, start, depth), deep, sorted, i, visited, result, next)
    ensures result <= BfsOrder(r, start, depth)
    ensures i == |sorted| ==> visited == Ball(r, start, depth) && result == BfsOrder(r, start, depth)
    ensures i == |sorted| && deep ==> IsFrontier(r, start, depth + 1, next)
  {
    var old_ := Before(r, start, depth);
    AscendingDistinct(sorted);
    FreshIsLayer(r, start, depth, sorted);
    FreshPrefix(sorted, i, old_);
    if i == |sorted| {
      assert sorted[..i] == sorted;
      if deep {
        forall y | y in Layer(r, start, depth + 1)
          ensures y in SetOf(next)
        {
          NextLayerQueued(r, start, depth, sorted, visited, next, y);
        }
      }
    }
  }

  lemma AscendingDistinct(s: seq<NodeId>)
    requires Ascending(s)
    ensures Distinct(s)
  {
  }

  lemma SuccessorNear(r: Rel, start: NodeId, depth: nat, u: NodeId, v: NodeId)
    requires u in Before(r, start, depth) && (u, v) in r
    ensures v in Ball(r, start, depth)
  {
    SuccessorIn(r, Ball(r, start, depth - 1), u, v);
  }

  lemma NextLayerQueued(r: Rel, start: NodeId, depth: nat, sorted: seq<NodeId>, visited: set<NodeId>,
          next: seq<NodeId>, y: NodeId)
    requires visited == Ball(r, start, depth) == Before(r, start, depth) + SetOf(Fresh(sorted, Before(r, start, depth)))
    requires forall x, z {:trigger (x, z) in r} :: x in Fresh(sorted, Before(r, start, depth)) && (x, z) in r ==> z in visited || z in next
    requires y in Layer(r, start, depth + 1)
    ensures y in next
  {
    var e :| e in r && e.0 in Ball(r, start, depth) && e.1 == y;
    if e.0 in Before(r, start, depth) {
      SuccessorNear(r, start, depth, e.0, y);
    } else {
      var x := e.0;
      assert x in SetOf(Fresh(sorted, Before(r, start, depth)));
      assert x in Fresh(sorted, Before(r, start, depth));
      assert (x, y) in r;
      assert y !in Ball(r, start, depth);
    }
  }

  datatype Listing = NoSuchStart | Nodes(nodes: seq<NodeId>)

  /** The closed form cut off at `maxNodes`. */
  ghost function FirstOf(s: seq<NodeId>, n: nat): seq<NodeId> {
    if n < |s| then s[..n] else s
  }

  /** Breadth-first search: the first `maxNodes` of all nodes within `maxDepth` edges, by distance and then
      by id, whatever the order of the neighbour lists. */
  method Bfs(g: Graph, start: NodeId, maxNodes: nat, maxDepth: nat) returns (r: Listing)
    ensures r.NoSuchStart? <==> start !in g.alive
    ensures r.Nodes? ==> r.nodes == FirstOf(BfsOrder(EdgesOf(g), start, maxDepth), maxNodes)
  {
    if start !in g.alive {
      return NoSuchStart;
    }
    ghost var e := EdgesOf(g);
    var visited: set<NodeId>, result: seq<NodeId>, level: seq<NodeId> := {}, [], [start];
    var depth := 0;
    while |level| > 0 && |visited| < maxNodes
      invariant |visited| == |result| <= maxNodes && depth <= maxDepth + 1
      invariant result <= BfsOrder(e, start, maxDepth)
      invariant |visited| < maxNodes ==> visited == Before(e, start, depth) && result == OrderBefore(e, start, depth)
      invariant |visited| < maxNodes ==> if depth <= maxDepth then IsFrontier(e, start, depth, level) else level == []
      decreases maxDepth + 1 - depth
    {
      ghost var before, sorted, i := level, [], 0;
      visited, result, level, sorted, i := VisitLevel(g, depth < maxDepth, maxNodes, level, visited, result, Ball(e, start, depth));
      LevelDone(e, start, depth, depth < maxDepth, before, sorted, i, visited, result, level);
      BfsOrderPrefix(e, start, depth, maxDepth);
      depth := depth + 1;
    }
    if |visited| < maxNodes && depth <= maxDepth {
      EndedEarly(e, start, depth, maxDepth, level);
    }
    r := Nodes(result);
  }

  lemma NothingNew(a: set<NodeId>, b: set<NodeId>)
    requires a - b == {} && b <= a
    ensures a == b
  {
    forall x | x in a ensures x in b { assert x !in a - b; }
  }

  /** An empty layer comes after a ball that has stopped growing. */
  lemma EmptyLayerStops(r: Rel, start: NodeId, depth: nat)
    requires Layer(r, start, depth) == {}
    ensures depth > 0 && Ball(r, start, depth) == Ball(r, start, depth - 1)
  {
    assert start in Layer(r, start, 0);
    if depth > 0 {
      BallGrows(r, start, depth - 1, depth);
      NothingNew(Ball(r, start, depth), Ball(r, start, depth - 1));
    }
  }

  lemma NoFrontierNoLayer(r: Rel, start: NodeId, depth: nat)
    requires IsFrontier(r, start, depth, [])
    ensures Layer(r, start, depth) == {}
  {
    assert SetOf([]) == {};
  }

  lemma OrderStops(r: Rel, start: NodeId, j: nat, k: nat)
    requires j <= k && Ball(r, start, j + 1) == Ball(r, start, j)
    ensures BfsOrder(r, start, k) == BfsOrder(r, start, j)
  {
    forall i | j < i <= k ensures Layer(r, start, i) == {} { LayerEmpty(r, start, j, i); }
    BfsOrderStops(r, start, j, k);
  }

  /** An empty frontier means that nothing farther away exists. */
  lemma EndedEarly(r: Rel, start: NodeId, depth: nat, maxDepth: nat, level: seq<NodeId>)
    requires IsFrontier(r, start, depth, level) && level == [] && depth <= maxDepth
    ensures depth > 0 && BfsOrder(r, start, maxDepth) == BfsOrder(r, start, depth - 1)
  {
    NoFrontierNoLayer(r, start, depth);
    EmptyLayerStops(r, start, depth);
    var j := depth - 1;
    OrderStops(r, start, j, maxDepth);
  }
}
