/** The yielding breadth-first traversal with a plain queue: depths and parents of what it yields. */
module QueueBfs {
  import opened Graphs
  import opened Breadth
  import opened Depth

  datatype Visited = Visited(sha: NodeId, depth: nat, parent: Option<NodeId>)

  /** A queue item or yielded node is the start, or was reached over an edge from a yielded node one level up. */
  ghost predicate Reached(r: Rel, start: NodeId, out: seq<Visited>, x: Visited) {
    match x.parent
    case None => x.sha == start && x.depth == 0
    case Some(u) => x.depth > 0 && (u, x.sha) in r && Has(out, u, x.depth - 1)
  }

  ghost predicate Has(out: seq<Visited>, n: NodeId, depth: nat) {
    exists i :: 0 <= i < |out| && out[i].sha == n && out[i].depth == depth
  }

  ghost predicate AllReached(r: Rel, start: NodeId, out: seq<Visited>, xs: seq<Visited>) {
    forall i {:trigger Reached(r, start, out, xs[i])} :: 0 <= i < |xs| ==> Reached(r, start, out, xs[i])
  }

  /** Depths do not go down, and span at most two levels. */
  ghost predicate QueueShape(queue: seq<Visited>) {
    && (forall i, j :: 0 <= i < j < |queue| ==> queue[i].depth <= queue[j].depth)
    && (queue != [] ==> queue[|queue| - 1].depth <= queue[0].depth + 1)
  }

  /** Every yielded depth is the distance from the start. */
  ghost predicate Exact(r: Rel, start: NodeId, out: seq<Visited>) {
    forall i {:trigger ExactAt(r, start, out[i])} :: 0 <= i < |out| ==> ExactAt(r, start, out[i])
  }

  ghost predicate ExactAt(r: Rel, start: NodeId, x: Visited) {
    x.sha in Layer(r, start, x.depth)
  }

  lemma HasIsNear(r: Rel, start: NodeId, out: seq<Visited>, n: NodeId, depth: nat)
    requires Exact(r, start, out) && Has(out, n, depth)
    ensures n in Ball(r, start, depth)
  {
    var i :| 0 <= i < |out| && out[i].sha == n && out[i].depth == depth;
    assert ExactAt(r, start, out[i]);
  }

  ghost predicate Queued(queue: seq<Visited>, n: NodeId, depth: nat) {
    exists i :: 0 <= i < |queue| && queue[i].sha == n && queue[i].depth <= depth
  }

  /** Nothing is forgotten: the start, and each successor of a yielded node above the depth bound, is seen or queued. */
  ghost predicate Pending(r: Rel, start: NodeId, maxDepth: nat, out: seq<Visited>, visited: set<NodeId>, queue: seq<Visited>) {
    && (start in visited || Queued(queue, start, 0))
    && (forall i, v {:trigger (out[i].sha, v) in r} :: 0 <= i < |out| && out[i].depth < maxDepth && (out[i].sha, v) in r ==>
          v in visited || Queued(queue, v, out[i].depth + 1))
  }

  ghost predicate ShasAre(out: seq<Visited>, visited: set<NodeId>) {
    && (forall i, j :: 0 <= i < j < |out| ==> out[i].sha != out[j].sha)
    && (forall n :: n in visited <==> exists i :: 0 <= i < |out| && out[i].sha == n)
  }

  /** Everything closer than the queue's front has been yielded. */
  lemma {:induction false} BallVisited(r: Rel, start: NodeId, maxDepth: nat, out: seq<Visited>, visited: set<NodeId>,
          queue: seq<Visited>, k: nat)
    requires Pending(r, start, maxDepth, out, visited, queue) && Exact(r, start, out) && ShasAre(out, visited)
    requires k <= maxDepth && forall i :: 0 <= i < |queue| ==> queue[i].depth > k
    ensures Ball(r, start, k) <= visited
  {
    if k > 0 {
      BallVisited(r, start, maxDepth, out, visited, queue, k - 1);
      forall v | v in Ball(r, start, k) ensures v in visited {
        if v !in Ball(r, start, k - 1) {
          var e :| e in r && e.0 in Ball(r, start, k - 1) && e.1 == v;
          var i :| 0 <= i < |out| && out[i].sha == e.0;
          assert ExactAt(r, start, out[i]);
          LayerWithin(r, start, e.0, out[i].depth, k - 1);
          assert (out[i].sha, v) in r;
        }
      }
    }
  }

  lemma LayerWithin(r: Rel, start: NodeId, n: NodeId, d: nat, k: nat)
    requires n in Layer(r, start, d) && n in Ball(r, start, k)
    ensures d <= k
  {
    if d > k { BallGrows(r, start, k, d - 1); }
  }

  /** A reached node that is not nearer has its distance as depth. */
  lemma ReachedIsExact(r: Rel, start: NodeId, out: seq<Visited>, x: Visited)
    requires Exact(r, start, out) && Reached(r, start, out, x) && (x.depth > 0 ==> x.sha !in Ball(r, start, x.depth - 1))
    ensures ExactAt(r, start, x)
  {
    if x.depth > 0 {
      var u, d := x.parent.value, x.depth - 1;
      HasIsNear(r, start, out, u, d);
      SuccessorIn(r, Ball(r, start, d), u, x.sha);
    }
  }

  ghost predicate Going(r: Rel, start: NodeId, maxDepth: nat, out: seq<Visited>, visited: set<NodeId>, queue: seq<Visited>) {
    && ShasAre(out, visited) && Exact(r, start, out) && Pending(r, start, maxDepth, out, visited, queue)
    && QueueShape(queue) && AllReached(r, start, out, queue) && Yielded(r, start, out)
    && (out != [] && queue != [] ==> out[|out| - 1].depth <= queue[0].depth)
    && WithinDepth(maxDepth, queue) && WithinDepth(maxDepth, out)
    && |visited| == |out|
  }

  ghost predicate WithinDepth(maxDepth: nat, xs: seq<Visited>) {
    forall i :: 0 <= i < |xs| ==> xs[i].depth <= maxDepth
  }

  /** Nodes come by distance, each after its parent. */
  ghost predicate Yielded(r: Rel, start: NodeId, out: seq<Visited>) {
    && (forall i, j :: 0 <= i < j < |out| ==> out[i].depth <= out[j].depth)
    && (forall i {:trigger AfterParent(r, start, out, i)} :: 0 <= i < |out| ==> AfterParent(r, start, out, i))
  }

  ghost predicate AfterParent(r: Rel, start: NodeId, out: seq<Visited>, i: int)
    requires 0 <= i < |out|
  {
    Reached(r, start, out[..i], out[i])
  }

  /** A new node at the front of the queue has its distance as depth. */
  lemma FrontIsExact(r: Rel, start: NodeId, maxDepth: nat, out: seq<Visited>, visited: set<NodeId>,
          queue: seq<Visited>, x: Visited)
    requires Going(r, start, maxDepth, out, visited, queue) && queue != [] && x == queue[0] && x.sha !in visited
    ensures ExactAt(r, start, x) && Reached(r, start, out, x)
  {
    assert Reached(r, start, out, x);
    if x.depth > 0 {
      BallVisited(r, start, maxDepth, out, visited, queue, x.depth - 1);
    }
    ReachedIsExact(r, start, out, x);
  }

  lemma DropFront(r: Rel, start: NodeId, out: seq<Visited>, queue: seq<Visited>)
    requires queue != [] && QueueShape(queue) && AllReached(r, start, out, queue)
    ensures QueueShape(queue[1..]) && AllReached(r, start, out, queue[1..])
  {
  }

  lemma QueuedLater(queue: seq<Visited>, n: NodeId, d: nat)
    requires queue != [] && Queued(queue, n, d)
    ensures n == queue[0].sha || Queued(queue[1..], n, d)
  {
    var i :| 0 <= i < |queue| && queue[i].sha == n && queue[i].depth <= d;
    if i > 0 { assert queue[1..][i - 1] == queue[i]; }
  }

  lemma SkipKeepsPending(r: Rel, start: NodeId, maxDepth: nat, out: seq<Visited>, visited: set<NodeId>, queue: seq<Visited>)
    requires Pending(r, start, maxDepth, out, visited, queue) && queue != [] && queue[0].sha in visited
    ensures Pending(r, start, maxDepth, out, visited, queue[1..])
  {
    forall n, d: nat | Queued(queue, n, d) ensures n in visited || Queued(queue[1..], n, d) { QueuedLater(queue, n, d); }
  }

  lemma SkipFront(r: Rel, start: NodeId, maxDepth: nat, out: seq<Visited>, visited: set<NodeId>, queue: seq<Visited>)
    requires Going(r, start, maxDepth, out, visited, queue) && queue != [] && queue[0].sha in visited
    ensures Going(r, start, maxDepth, out, visited, queue[1..])
  {
    SkipKeepsPending(r, start, maxDepth, out, visited, queue);
    DropFront(r, start, out, queue);
  }

  /** The unseen successors of `x`, one level down. */
  ghost predicate KidsOf(r: Rel, maxDepth: nat, visited: set<NodeId>, x: Visited, kids: seq<Visited>) {
    && (forall i :: 0 <= i < |kids| ==> kids[i].depth == x.depth + 1 <= maxDepth && kids[i].parent == Some(x.sha) && (x.sha, kids[i].sha) in r)
    && (x.depth < maxDepth ==> forall v :: (x.sha, v) in r ==> v in visited || Queued(kids, v, x.depth + 1))
  }

  lemma YieldKeepsPending(r: Rel, start: NodeId, maxDepth: nat, out: seq<Visited>, visited: set<NodeId>,
          queue: seq<Visited>, x: Visited, kids: seq<Visited>)
    requires Pending(r, start, maxDepth, out, visited, queue) && queue != [] && x == queue[0] && KidsOf(r, maxDepth, visited + {x.sha}, x, kids)
    ensures Pending(r, start, maxDepth, out + [x], visited + {x.sha}, queue[1..] + kids)
  {
    var all, seen, next := out + [x], visited + {x.sha}, queue[1..] + kids;
    forall n, d: nat | Queued(queue, n, d) ensures n in seen || Queued(next, n, d) {
      var i :| 0 <= i < |queue| && queue[i].sha == n && queue[i].depth <= d;
      if i > 0 { assert next[i - 1] == queue[i]; }
    }
    forall n, d: nat | Queued(kids, n, d) ensures Queued(next, n, d) {
      var i :| 0 <= i < |kids| && kids[i].sha == n && kids[i].depth <= d;
      assert next[|queue| - 1 + i] == kids[i];
    }
    forall i, v | 0 <= i < |all| && all[i].depth < maxDepth && (all[i].sha, v) in r ensures v in seen || Queued(next, v, all[i].depth + 1) {
      if i < |out| {
        assert (out[i].sha, v) in r;
        assert v in visited || Queued(queue, v, out[i].depth + 1);
      }
    }
  }

  lemma YieldKeepsShape(r: Rel, maxDepth: nat, visited: set<NodeId>, queue: seq<Visited>, x: Visited, kids: seq<Visited>)
    requires QueueShape(queue) && queue != [] && x == queue[0] && KidsOf(r, maxDepth, visited, x, kids)
    requires forall i :: 0 <= i < |queue| ==> queue[i].depth <= maxDepth
    ensures QueueShape(queue[1..] + kids) && forall i :: 0 <= i < |queue[1..] + kids| ==> x.depth <= (queue[1..] + kids)[i].depth <= maxDepth
  {
    var rest := queue[1..];
    var next := rest + kids;
    assert forall i :: 0 <= i < |rest| ==> rest[i] == queue[i + 1] && x.depth <= rest[i].depth <= x.depth + 1;
    assert forall i :: |rest| <= i < |next| ==> next[i] == kids[i - |rest|] && next[i].depth == x.depth + 1;
  }

  lemma YieldKeepsReached(r: Rel, start: NodeId, maxDepth: nat, out: seq<Visited>, visited: set<NodeId>,
          queue: seq<Visited>, x: Visited, kids: seq<Visited>)
    requires AllReached(r, start, out, queue) && queue != [] && x == queue[0] && KidsOf(r, maxDepth, visited, x, kids)
    ensures AllReached(r, start, out + [x], queue[1..] + kids)
  {
    var all, next := out + [x], queue[1..] + kids;
    forall i | 0 <= i < |next| ensures Reached(r, start, all, next[i]) {
      if i < |queue| - 1 {
        assert next[i] == queue[i + 1];
        ReachedStays(r, start, out, all, queue[i + 1]);
      } else {
        assert next[i] == kids[i - |queue| + 1] && all[|out|] == x;
        assert Has(all, x.sha, x.depth);
      }
    }
  }

  lemma ReachedStays(r: Rel, start: NodeId, out: seq<Visited>, all: seq<Visited>, x: Visited)
    requires Reached(r, start, out, x) && out <= all
    ensures Reached(r, start, all, x)
  {
    if x.parent.Some? {
      var i :| 0 <= i < |out| && out[i].sha == x.parent.value && out[i].depth == x.depth - 1;
      assert all[i] == out[i];
    }
  }

  lemma YieldKeepsShas(out: seq<Visited>, visited: set<NodeId>, x: Visited)
    requires ShasAre(out, visited) && x.sha !in visited
    ensures ShasAre(out + [x], visited + {x.sha})
  {
    var all := out + [x];
    forall n ensures n in visited + {x.sha} <==> exists i :: 0 <= i < |all| && all[i].sha == n {
      if i :| 0 <= i < |out| && out[i].sha == n { assert all[i].sha == n; }
      assert all[|out|].sha == x.sha;
    }
  }

  lemma YieldExtends(r: Rel, start: NodeId, out: seq<Visited>, x: Visited)
    requires Yielded(r, start, out) && Exact(r, start, out) && Reached(r, start, out, x) && ExactAt(r, start, x)
    requires out != [] ==> out[|out| - 1].depth <= x.depth
    ensures Yielded(r, start, out + [x]) && Exact(r, start, out + [x])
  {
    var all := out + [x];
    forall i | 0 <= i < |all| ensures AfterParent(r, start, all, i) {
      if i < |out| {
        assert all[..i] == out[..i] && AfterParent(r, start, out, i);
      } else {
        assert all[..i] == out;
      }
    }
    forall i | 0 <= i < |all| ensures ExactAt(r, start, all[i]) { assert i < |out| ==> ExactAt(r, start, out[i]); }
  }

  lemma YieldFront(r: Rel, start: NodeId, maxDepth: nat, out: seq<Visited>, visited: set<NodeId>,
          queue: seq<Visited>, x: Visited, kids: seq<Visited>)
    requires Going(r, start, maxDepth, out, visited, queue) && queue != [] && x == queue[0] && x.sha !in visited
    requires KidsOf(r, maxDepth, visited + {x.sha}, x, kids)
    ensures Going(r, start, maxDepth, out + [x], visited + {x.sha}, queue[1..] + kids)
  {
    var seen := visited + {x.sha};
    FrontIsExact(r, start, maxDepth, out, visited, queue, x);
    YieldKeepsPending(r, start, maxDepth, out, visited, queue, x, kids);
    YieldKeepsShape(r, maxDepth, seen, queue, x, kids);
    YieldKeepsReached(r, start, maxDepth, out, seen, queue, x, kids);
    YieldExtends(r, start, out, x);
    YieldKeepsShas(out, visited, x);
  }

  method Kids(g: Graph, maxDepth: nat, visited: set<NodeId>, x: Visited) returns (kids: seq<Visited>)
    requires x.depth <= maxDepth
    ensures KidsOf(EdgesOf(g), maxDepth, visited, x, kids)
  {
    kids := [];
    if x.depth < maxDepth {
      var neighbors := Out(g, x.sha);
      for i := 0 to |neighbors|
        invariant forall j :: 0 <= j < |kids| ==>
                    kids[j].depth == x.depth + 1 && kids[j].parent == Some(x.sha) && (x.sha, kids[j].sha) in EdgesOf(g)
        invariant forall j :: 0 <= j < i ==> neighbors[j].to in visited || Queued(kids, neighbors[j].to, x.depth + 1)
      {
        OutIsEdge(g, x.sha, x.sha, i);
        if neighbors[i].to !in visited {
          var before := kids;
          kids := kids + [Visited(neighbors[i].to, x.depth + 1, Some(x.sha))];
          assert kids[|before|].sha == neighbors[i].to;
          QueuedStays(before, kids);
        }
      }
      forall v | (x.sha, v) in EdgesOf(g) ensures v in visited || Queued(kids, v, x.depth + 1) { var j := EdgeIsOut(g, x.sha, v); }
    }
  }

  lemma QueuedStays(a: seq<Visited>, b: seq<Visited>)
    requires a <= b
    ensures forall n, d: nat :: Queued(a, n, d) ==> Queued(b, n, d)
  {
    forall n, d: nat | Queued(a, n, d) ensures Queued(b, n, d) {
      var i :| 0 <= i < |a| && a[i].sha == n && a[i].depth <= d;
      assert b[i] == a[i];
    }
  }

  /** Every node yielded is worth it: nodes come by distance with a parent one level up, each once, none too far; nothing
      nearer than the last is missing, and without the node limit nothing within the depth bound is. */
  ghost predicate Answers(r: Rel, start: NodeId, maxNodes: nat, maxDepth: nat, out: seq<Visited>) {
    && Yielded(r, start, out) && Exact(r, start, out) && |out| <= maxNodes
    && (forall i, j :: 0 <= i < j < |out| ==> out[i].sha != out[j].sha)
    && WithinDepth(maxDepth, out)
    && (forall n, k: nat :: n in Ball(r, start, k) && k <= maxDepth && (|out| < maxNodes || (out != [] && k < out[|out| - 1].depth)) ==>
          exists i :: 0 <= i < |out| && out[i].sha == n)
  }

  lemma GoingAnswers(r: Rel, start: NodeId, maxNodes: nat, maxDepth: nat, out: seq<Visited>, visited: set<NodeId>,
          queue: seq<Visited>)
    requires Going(r, start, maxDepth, out, visited, queue) && (queue == [] || |out| >= maxNodes) && |out| <= maxNodes
    ensures Answers(r, start, maxNodes, maxDepth, out)
  {
    forall n, k: nat | n in Ball(r, start, k) && k <= maxDepth && (|out| < maxNodes || (out != [] && k < out[|out| - 1].depth))
      ensures exists i :: 0 <= i < |out| && out[i].sha == n
    {
      assert forall i :: 0 <= i < |queue| ==> queue[0].depth <= queue[i].depth;
      BallVisited(r, start, maxDepth, out, visited, queue, k);
      assert n in visited;
    }
  }

  lemma StartGoing(r: Rel, start: NodeId, maxDepth: nat)
    ensures Going(r, start, maxDepth, [], {}, [Visited(start, 0, None)])
  {
    var queue := [Visited(start, 0, None)];
    assert queue[0].sha == start && queue[0].depth == 0;
  }

  /** One turn of the generator: skip the front of the queue, or yield it and queue its unseen neighbours. */
  method Turn(g: Graph, ghost start: NodeId, maxDepth: nat, out0: seq<Visited>, visited0: set<NodeId>, queue0: seq<Visited>)
      returns (out: seq<Visited>, visited: set<NodeId>, queue: seq<Visited>)
    requires Going(EdgesOf(g), start, maxDepth, out0, visited0, queue0) && queue0 != []
    ensures Going(EdgesOf(g), start, maxDepth, out, visited, queue) && |out| <= |out0| + 1
    ensures |Universe(g, start) - visited| < |Universe(g, start) - visited0| || (visited == visited0 && |queue| < |queue0|)
  {
    ghost var r := EdgesOf(g);
    var current := queue0[0];
    if current.sha in visited0 || current.depth > maxDepth {
      SkipFront(r, start, maxDepth, out0, visited0, queue0);
      out, visited, queue := out0, visited0, queue0[1..];
    } else {
      FrontIsExact(r, start, maxDepth, out0, visited0, queue0, current);
      ReachedInside(g, start, out0, current);
      OneLess(g, start, visited0, current.sha);
      var kids := Kids(g, maxDepth, visited0 + {current.sha}, current);
      YieldFront(r, start, maxDepth, out0, visited0, queue0, current, kids);
      out, visited, queue := out0 + [current], visited0 + {current.sha}, queue0[1..] + kids;
    }
  }

  /** The generator's loop, run to its end. */
  method Bfs(g: Graph, start: NodeId, maxNodes: nat, maxDepth: nat) returns (out: seq<Visited>)
    ensures Answers(EdgesOf(g), start, maxNodes, maxDepth, out)
  {
    ghost var r := EdgesOf(g);
    out := [];
    var visited: set<NodeId>, queue := {}, [Visited(start, 0, None)];
    StartGoing(r, start, maxDepth);
    while |queue| > 0 && |out| < maxNodes
      invariant Going(r, start, maxDepth, out, visited, queue) && |out| <= maxNodes
      decreases |Universe(g, start) - visited|, |queue|
    {
      out, visited, queue := Turn(g, start, maxDepth, out, visited, queue);
    }
    GoingAnswers(r, start, maxNodes, maxDepth, out, visited, queue);
  }

  lemma ReachedInside(g: Graph, start: NodeId, out: seq<Visited>, x: Visited)
    requires Reached(EdgesOf(g), start, out, x)
    ensures x.sha in Universe(g, start)
  {
    if x.parent.Some? {
      assert (x.parent.value, x.sha) in EdgesOf(g);
    }
  }
}
