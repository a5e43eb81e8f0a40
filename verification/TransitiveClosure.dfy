/** The transitive closure, streamed in lexicographic order. */
module TransitiveClosure {
  import opened Graphs
  import opened Sorting
  import opened Topology
  import opened Breadth

  type Pair = (NodeId, NodeId)

  /** What a walk of at least one edge to another node leads to. */
  ghost function Others(g: Graph, n: NodeId): set<NodeId> {
    ReachSet(g, n) - {n}
  }

  ghost function From(n: NodeId, targets: seq<NodeId>): (r: seq<Pair>)
    ensures |r| == |targets|
  {
    seq(|targets|, i requires 0 <= i < |targets| => (n, targets[i]))
  }

  /** The pairs from each node of `ns` in turn, targets ascending. */
  ghost function ClosureOf(g: Graph, ns: seq<NodeId>): seq<Pair> {
    if ns == [] then [] else
      ClosureOf(g, ns[..|ns| - 1]) + From(ns[|ns| - 1], InOrder(Others(g, ns[|ns| - 1])))
  }

  predicate PairLess(a: Pair, b: Pair) {
    a.0 < b.0 || (a.0 == b.0 && a.1 < b.1)
  }

  lemma FromMembers(n: NodeId, targets: seq<NodeId>, a: NodeId, b: NodeId)
    ensures (a, b) in From(n, targets) <==> a == n && b in targets
  {
    if a == n && b in targets {
      var i :| 0 <= i < |targets| && targets[i] == b;
      assert From(n, targets)[i] == (a, b);
    }
  }

  /** The closure holds exactly the pairs of different nodes that a walk connects. */
  lemma {:induction false} ClosureIsReachability(g: Graph, ns: seq<NodeId>, a: NodeId, b: NodeId)
    ensures (a, b) in ClosureOf(g, ns) <==> a in ns && a != b && Reachable(EdgesOf(g), a, b)
  {
    if ns != [] {
      var n := ns[|ns| - 1];
      ClosureIsReachability(g, ns[..|ns| - 1], a, b);
      assert a in ns <==> a in ns[..|ns| - 1] || a == n;
      InOrderIsAscending(Others(g, n));
      FromMembers(n, InOrder(Others(g, n)), a, b);
      assert b in InOrder(Others(g, n)) <==> b in SetOf(InOrder(Others(g, n)));
      ReachSetIsExact(g, n);
    }
  }

  /** It comes in strictly ascending order, so no pair comes twice. */
  lemma {:induction false} ClosureAscends(g: Graph, ns: seq<NodeId>, i: nat, j: nat)
    requires Ascending(ns) && i < j < |ClosureOf(g, ns)|
    ensures PairLess(ClosureOf(g, ns)[i], ClosureOf(g, ns)[j])
  {
    if ns != [] {
      var t, n := ns[..|ns| - 1], ns[|ns| - 1];
      var head, targets := ClosureOf(g, t), InOrder(Others(g, n));
      InOrderIsAscending(Others(g, n));
      if j < |head| {
        ClosureAscends(g, t, i, j);
      } else if i < |head| {
        assert head[i] in ClosureOf(g, t);
        ClosureIsReachability(g, t, head[i].0, head[i].1);
        var k :| 0 <= k < |t| && t[k] == head[i].0;
        assert ns[k] < n;
      } else {
        assert targets[i - |head|] < targets[j - |head|];
      }
    }
  }

  // ---------------------------------------------------------------- discovery

  /** Appends the unseen neighbours of `u`; gives up when the list outgrows `limit`. */
  method PushUnseen(g: Graph, ghost starts: seq<NodeId>, queue0: seq<NodeId>, u: NodeId,
          limit: Option<nat>) returns (queue: seq<NodeId>, full: bool)
    requires Queue(g, starts, queue0) && u in queue0
    ensures Queue(g, starts, queue) && queue0 <= queue
    ensures full ==> limit.Some? && |queue| > limit.value
    ensures !full ==> forall v :: (u, v) in EdgesOf(g) ==> v in queue
    ensures !full && limit.Some? && |queue0| <= limit.value ==> |queue| <= limit.value
  {
    queue, full := queue0, false;
    var neighbors := Out(g, u);
    for i := 0 to |neighbors|
      invariant !full && Queue(g, starts, queue) && queue0 <= queue
      invariant forall j :: 0 <= j < i ==> neighbors[j].to in queue
      invariant limit.Some? && |queue0| <= limit.value ==> |queue| <= limit.value
    {
      var v := neighbors[i].to;
      if v !in queue {
        OutIsEdge(g, u, u, i);
        assert ReachableFrom(EdgesOf(g), starts, u);
        ReachableFromStep(EdgesOf(g), starts, u, v);
        EnqueueOk(g, starts, queue, v);
        queue := queue + [v];
        if limit.Some? && |queue| > limit.value {
          return queue, true;
        }
      }
    }
    forall v | (u, v) in EdgesOf(g) ensures v in queue { var j := EdgeIsOut(g, u, v); }
  }

  /** The nodes before `head` have been expanded. */
  ghost predicate Expanded(g: Graph, queue: seq<NodeId>, head: nat) {
    forall i, v {:trigger (queue[i], v) in EdgesOf(g)} :: 0 <= i < head && i < |queue| && (queue[i], v) in EdgesOf(g) ==> v in queue
  }

  lemma ExpandedNext(g: Graph, before: seq<NodeId>, queue: seq<NodeId>, head: nat)
    requires Expanded(g, before, head) && before <= queue && head < |before|
    requires forall v :: (before[head], v) in EdgesOf(g) ==> v in queue
    ensures Expanded(g, queue, head + 1)
  {
    forall i, v | 0 <= i < head + 1 && i < |queue| && (queue[i], v) in EdgesOf(g) ensures v in queue {
      assert queue[i] == before[i];
    }
  }

  lemma ExpandedIsAll(g: Graph, starts: seq<NodeId>, queue: seq<NodeId>)
    requires Queue(g, starts, queue) && Expanded(g, queue, |queue|)
    ensures SetOf(queue) == ReachableSet(g, starts)
  {
    forall u, v | u in SetOf(queue) && (u, v) in EdgesOf(g) ensures v in SetOf(queue) {
      var i :| 0 <= i < |queue| && queue[i] == u;
      assert (queue[i], v) in EdgesOf(g);
    }
    forall n | ReachableFrom(EdgesOf(g), starts, n) ensures n in SetOf(queue) {
      ClosedIsAll(EdgesOf(g), starts, SetOf(queue), n);
    }
    QueueInReach(g, starts, queue);
  }

  lemma QueueInReach(g: Graph, starts: seq<NodeId>, queue: seq<NodeId>)
    requires Queue(g, starts, queue)
    ensures SetOf(queue) <= ReachableSet(g, starts) && |queue| <= |ReachableSet(g, starts)|
  {
    forall n | n in SetOf(queue) ensures n in ReachableSet(g, starts) {
      assert ReachableFrom(EdgesOf(g), starts, n);
      var s :| s in starts && Reachable(EdgesOf(g), s, n);
      var p :| WalkFromTo(EdgesOf(g), p, s, n);
      if |p| > 1 { assert EdgeAt(EdgesOf(g), p, |p| - 2); }
    }
    DistinctSize(queue);
    SubsetCard(SetOf(queue), ReachableSet(g, starts));
  }

  /** `_prepareTransitiveClosure` after validation: everything reachable, unless the node limit cuts in. */
  method Explore(g: Graph, starts: seq<NodeId>, maxNodes: nat) returns (queue: seq<NodeId>)
    requires Distinct(starts)
    ensures Queue(g, starts, queue)
    ensures |ReachableSet(g, starts)| <= maxNodes ==> SetOf(queue) == ReachableSet(g, starts)
  {
    queue := starts;
    StartsQueued(g, starts);
    var head := 0;
    while head < |queue|
      invariant head <= |queue| && Queue(g, starts, queue) && Expanded(g, queue, head)
      decreases |ReachableSet(g, starts)| - head
    {
      QueueInReach(g, starts, queue);
      if |queue| >= maxNodes {
        if |ReachableSet(g, starts)| <= maxNodes { SameSize(g, starts, queue); }
        return;
      }
      ghost var before := queue;
      var full;
      queue, full := PushUnseen(g, starts, queue, queue[head], None);
      ExpandedNext(g, before, queue, head);
      head := head + 1;
    }
    ExpandedIsAll(g, starts, queue);
  }

  lemma StartsQueued(g: Graph, starts: seq<NodeId>)
    requires Distinct(starts)
    ensures Queue(g, starts, starts) && Expanded(g, starts, 0)
  {
    forall n | n in starts ensures ReachableFrom(EdgesOf(g), starts, n) { ReachableSelf(EdgesOf(g), n); }
  }

  lemma SameSize(g: Graph, starts: seq<NodeId>, queue: seq<NodeId>)
    requires Queue(g, starts, queue) && |queue| >= |ReachableSet(g, starts)|
    ensures SetOf(queue) == ReachableSet(g, starts)
  {
    QueueInReach(g, starts, queue);
    DistinctSize(queue);
    if n :| n in ReachableSet(g, starts) && n !in SetOf(queue) {
      SubsetCard(SetOf(queue) + {n}, ReachableSet(g, starts));
    }
  }

  lemma OneStartReach(g: Graph, n: NodeId)
    ensures ReachableSet(g, [n]) == ReachSet(g, n)
  {
    ReachSetIsExact(g, n);
    forall x ensures x in ReachableSet(g, [n]) <==> x in ReachSet(g, n) {
      if x in ReachSet(g, n) {
        assert n in [n] && ReachableFrom(EdgesOf(g), [n], x);
        var p :| WalkFromTo(EdgesOf(g), p, n, x);
        if |p| > 1 { assert EdgeAt(EdgesOf(g), p, |p| - 2); }
        assert x in Mentioned(g, [n]);
      }
    }
  }

  lemma OthersCount(g: Graph, n: NodeId)
    ensures |Others(g, n)| + 1 == |ReachSet(g, n)| == |ReachableSet(g, [n])|
  {
    OneStartReach(g, n);
    ReachSetIsExact(g, n);
    ReachableSelf(EdgesOf(g), n);
    assert ReachSet(g, n) == Others(g, n) + {n};
  }

  /** The breadth-first part of one source: its reachable nodes, itself first. */
  method Spread(g: Graph, n: NodeId, budget: nat) returns (queue: seq<NodeId>, full: bool)
    ensures full <==> |Others(g, n)| > budget
    ensures !full ==> queue != [] && queue[0] == n && Distinct(queue) && SetOf(queue) == ReachSet(g, n)
  {
    queue, full := [n], false;
    StartsQueued(g, [n]);
    OthersCount(g, n);
    var head := 0;
    while head < |queue|
      invariant head <= |queue| <= budget + 1 && [n] <= queue && Queue(g, [n], queue) && Expanded(g, queue, head)
      decreases |ReachSet(g, n)| - head
    {
      QueueInReach(g, [n], queue);
      ghost var before := queue;
      queue, full := PushUnseen(g, [n], queue, queue[head], Some(budget + 1));
      if full {
        QueueInReach(g, [n], queue);
        return;
      }
      ExpandedNext(g, before, queue, head);
      head := head + 1;
    }
    ExpandedIsAll(g, [n], queue);
    OneStartReach(g, n);
    DistinctSize(queue);
  }

  /** The targets of one source, found breadth first and then sorted; gives up beyond `budget` targets. */
  method Targets(g: Graph, n: NodeId, budget: nat) returns (targets: seq<NodeId>, full: bool)
    ensures full <==> |Others(g, n)| > budget
    ensures !full ==> targets == InOrder(Others(g, n)) && |targets| == |Others(g, n)|
  {
    var queue;
    queue, full := Spread(g, n, budget);
    targets := [];
    if !full {
      targets := Sort((a: NodeId, b: NodeId) => a <= b, queue[1..]);
      SortedTargets(g, n, queue, targets);
      InOrderSize(Others(g, n));
    }
  }

  lemma SortedTargets(g: Graph, n: NodeId, queue: seq<NodeId>, targets: seq<NodeId>)
    requires queue != [] && queue[0] == n && Distinct(queue) && SetOf(queue) == ReachSet(g, n)
    requires multiset(targets) == multiset(queue[1..]) && SortedBy((a: NodeId, b: NodeId) => a <= b, targets)
    ensures targets == InOrder(Others(g, n)) && |targets| == |queue| - 1
  {
    var rest := queue[1..];
    DistinctAfterSorting(rest, targets);
    forall x ensures x in SetOf(targets) <==> x in Others(g, n) {
      assert x in multiset(targets) <==> x in multiset(rest);
      assert queue == [n] + rest;
      assert x in SetOf(queue) <==> x == n || x in rest;
      assert n !in rest by { assert forall i :: 0 <= i < |rest| ==> rest[i] == queue[i + 1]; }
    }
    InOrderIsAscending(Others(g, n));
    AscendingIsUnique(targets, InOrder(Others(g, n)));
    assert |targets| == |multiset(targets)| && |rest| == |multiset(rest)|;
  }

  datatype Closure = MissingStart | TooManyEdges | Pairs(edges: seq<Pair>)

  method PairWith(n: NodeId, targets: seq<NodeId>) returns (r: seq<Pair>)
    ensures r == From(n, targets)
  {
    r := [];
    for i := 0 to |targets|
      invariant r == From(n, targets)[..i]
    {
      r := r + [(n, targets[i])];
    }
  }

  lemma {:induction false} PrefixIsShorter(g: Graph, ns: seq<NodeId>, k: nat)
    requires k <= |ns|
    ensures |ClosureOf(g, ns[..k])| <= |ClosureOf(g, ns)|
    decreases |ns|
  {
    if k == |ns| {
      assert ns[..k] == ns;
    } else {
      PrefixIsShorter(g, ns[..|ns| - 1], k);
      assert ns[..|ns| - 1][..k] == ns[..k];
    }
  }

  /** All pairs from the listed nodes, or the refusal when there are too many. */
  ghost predicate Closes(g: Graph, ns: seq<NodeId>, maxEdges: nat, r: Closure) {
    && (r.TooManyEdges? <==> |ClosureOf(g, ns)| > maxEdges)
    && (r.Pairs? ==> r.edges == ClosureOf(g, ns))
  }

  /** `_streamTransitiveClosureEdges` */
  method Stream(g: Graph, nodeList: seq<NodeId>, maxEdges: nat) returns (r: Closure)
    ensures !r.MissingStart? && Closes(g, nodeList, maxEdges, r)
  {
    var edges: seq<Pair> := [];
    for i := 0 to |nodeList|
      invariant edges == ClosureOf(g, nodeList[..i]) && |edges| <= maxEdges
    {
      var n := nodeList[i];
      var targets, full := Targets(g, n, maxEdges - |edges|);
      assert nodeList[..i + 1][..i] == nodeList[..i];
      InOrderSize(Others(g, n));
      PrefixIsShorter(g, nodeList, i + 1);
      if full {
        return TooManyEdges;
      }
      var more := PairWith(n, targets);
      edges := edges + more;
    }
    assert nodeList[..|nodeList|] == nodeList;
    r := Pairs(edges);
  }

  lemma InOrderSize(s: set<NodeId>)
    ensures |InOrder(s)| == |s|
  {
    InOrderIsAscending(s);
    DistinctSize(InOrder(s));
  }

  /** What the closure is taken from: everything reachable, or an initial part of it when the node limit cuts in. */
  ghost predicate Covers(g: Graph, starts: seq<NodeId>, maxNodes: nat, nodes: set<NodeId>) {
    && SetOf(starts) <= nodes <= ReachableSet(g, starts)
    && (|ReachableSet(g, starts)| <= maxNodes ==> nodes == ReachableSet(g, starts))
  }

  /** `transitiveClosure` */
  method TransitiveClosure(g: Graph, start: seq<NodeId>, maxNodes: nat, maxEdges: nat) returns (r: Closure)
    ensures r.MissingStart? <==> exists s :: s in start && s !in g.alive
    ensures !r.MissingStart? ==> exists nodes :: Covers(g, start, maxNodes, nodes) && Closes(g, InOrder(nodes), maxEdges, r)
  {
    var starts := Dedup(start);
    for i := 0 to |starts|
      invariant forall j :: 0 <= j < i ==> starts[j] in g.alive
    {
      if starts[i] !in g.alive {
        var s := starts[i];
        assert s in starts;
        assert s in start && s !in g.alive;
        return MissingStart;
      }
    }
    var queue := Explore(g, starts, maxNodes);
    var nodeList := Sort((a: NodeId, b: NodeId) => a <= b, queue);
    NodeListOk(g, start, starts, queue, nodeList, maxNodes);
    r := Stream(g, nodeList, maxEdges);
  }

  lemma NodeListOk(g: Graph, start: seq<NodeId>, starts: seq<NodeId>, queue: seq<NodeId>, nodeList: seq<NodeId>, maxNodes: nat)
    requires forall n :: n in starts <==> n in start
    requires Queue(g, starts, queue) && (|ReachableSet(g, starts)| <= maxNodes ==> SetOf(queue) == ReachableSet(g, starts))
    requires multiset(nodeList) == multiset(queue) && SortedBy((a: NodeId, b: NodeId) => a <= b, nodeList)
    ensures Covers(g, start, maxNodes, SetOf(queue)) && nodeList == InOrder(SetOf(queue))
  {
    QueueInReach(g, starts, queue);
    SameStartsSameSet(g, start, starts);
    assert SetOf(start) <= SetOf(queue) by {
      forall x | x in SetOf(start) ensures x in SetOf(queue) { assert x in starts; }
    }
    DistinctAfterSorting(queue, nodeList);
    forall x ensures x in SetOf(nodeList) <==> x in SetOf(queue) { assert x in multiset(nodeList) <==> x in multiset(queue); }
    InOrderIsAscending(SetOf(queue));
    AscendingIsUnique(nodeList, InOrder(SetOf(queue)));
  }
}
