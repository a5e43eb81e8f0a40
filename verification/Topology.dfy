/** Kahn's topological sort of the traversal engine, and what its order proves about cycles. */
module Topology {
  import opened Graphs
  import opened MinHeaps

  // ------------------------------------------------------------ sets and sequences

  ghost predicate Distinct(s: seq<NodeId>) {
    forall i, j :: 0 <= i < j < |s| ==> s[i] != s[j]
  }

  ghost function SetOf(s: seq<NodeId>): set<NodeId> {
    set x | x in s
  }

  lemma {:induction false} DistinctSize(s: seq<NodeId>)
    requires Distinct(s)
    ensures |SetOf(s)| == |s|
    decreases |s|
  {
    if s != [] {
      var t := s[..|s| - 1];
      DistinctSize(t);
      assert SetOf(s) == SetOf(t) + {s[|s| - 1]};
    }
  }

  lemma SetOfAppend(s: seq<NodeId>, x: NodeId)
    ensures SetOf(s + [x]) == SetOf(s) + {x}
  {
  }

  lemma MissingElement(a: set<NodeId>, b: set<NodeId>) returns (x: NodeId)
    requires |a| < |b|
    ensures x in b && x !in a
  {
    if forall y :: y in b ==> y in a {
      SubsetCard(b, a);
    }
    x :| x in b && x !in a;
  }

  /** More entries than nodes to choose from: some node repeats. */
  lemma Pigeonhole(p: seq<NodeId>, s: set<NodeId>) returns (i: nat, j: nat)
    requires |p| > |s| && forall k :: 0 <= k < |p| ==> p[k] in s
    ensures i < j < |p| && p[i] == p[j]
  {
    if Distinct(p) {
      DistinctSize(p);
      SubsetCard(SetOf(p), s);
    }
    i, j :| 0 <= i < j < |p| && p[i] == p[j];
  }

  // ------------------------------------------------------------------- in-degrees

  ghost function Occurs(es: seq<Edge>, v: NodeId): nat {
    if es == [] then 0 else Occurs(es[..|es| - 1], v) + (if es[|es| - 1].to == v then 1 else 0)
  }

  lemma {:induction false} OccursPositive(es: seq<Edge>, v: NodeId)
    ensures Occurs(es, v) > 0 <==> exists j :: 0 <= j < |es| && es[j].to == v
    decreases |es|
  {
    if es != [] {
      OccursPositive(es[..|es| - 1], v);
      if exists j :: 0 <= j < |es| && es[j].to == v {
        var j :| 0 <= j < |es| && es[j].to == v;
        assert j < |es| - 1 ==> es[..|es| - 1][j].to == v;
      }
    }
  }

  /** The number of edges into `v`, parallel ones counted, from nodes of `s`. */
  ghost function InDegree(g: Graph, s: set<NodeId>, v: NodeId): nat
    decreases s
  {
    if exists u :: u in s then
      var u :| u in s;
      Occurs(Out(g, u), v) + InDegree(g, s - {u}, v)
    else 0
  }

  lemma {:induction false} InDegreeWithout(g: Graph, s: set<NodeId>, x: NodeId, v: NodeId)
    requires x in s
    ensures InDegree(g, s, v) == Occurs(Out(g, x), v) + InDegree(g, s - {x}, v)
    decreases s
  {
    var u :| u in s && InDegree(g, s, v) == Occurs(Out(g, u), v) + InDegree(g, s - {u}, v);
    if u != x {
      InDegreeWithout(g, s - {u}, x, v);
      InDegreeWithout(g, s - {x}, u, v);
      assert s - {u} - {x} == s - {x} - {u};
    }
  }

  lemma InDegreeWith(g: Graph, s: set<NodeId>, x: NodeId, v: NodeId)
    requires x !in s
    ensures InDegree(g, s + {x}, v) == InDegree(g, s, v) + Occurs(Out(g, x), v)
  {
    InDegreeWithout(g, s + {x}, x, v);
    assert s + {x} - {x} == s;
  }

  lemma {:induction false} InDegreeZero(g: Graph, s: set<NodeId>, v: NodeId)
    ensures InDegree(g, s, v) == 0 <==> forall u :: u in s ==> (u, v) !in EdgesOf(g)
    decreases s
  {
    if u :| u in s {
      InDegreeWithout(g, s, u, v);
      InDegreeZero(g, s - {u}, v);
      OccursPositive(Out(g, u), v);
      if (u, v) in EdgesOf(g) {
        var j := EdgeIsOut(g, u, v);
      }
      if j :| 0 <= j < |Out(g, u)| && Out(g, u)[j].to == v {
        OutIsEdge(g, u, u, j);
      }
    }
  }

  // ---------------------------------------------------------- greedy topological orders

  ghost predicate Available(r: Rel, d: set<NodeId>, done: set<NodeId>, n: NodeId) {
    n in d && n !in done && forall u :: u in d && (u, n) in r ==> u in done
  }

  /** The `i`-th node is the least of those whose predecessors all come earlier. */
  ghost predicate GreedyAt(r: Rel, d: set<NodeId>, s: seq<NodeId>, i: int)
    requires 0 <= i < |s|
  {
    Available(r, d, SetOf(s[..i]), s[i]) && forall n :: Available(r, d, SetOf(s[..i]), n) ==> s[i] <= n
  }

  ghost predicate Greedy(r: Rel, d: set<NodeId>, s: seq<NodeId>) {
    forall i :: 0 <= i < |s| ==> GreedyAt(r, d, s, i)
  }

  /** Nothing can follow `s`: every node of `d` that is left waits for another one. */
  ghost predicate Stuck(r: Rel, d: set<NodeId>, s: seq<NodeId>) {
    forall n :: !Available(r, d, SetOf(s), n)
  }

  /** All nodes of `d`, each once, and every edge leads forward. */
  ghost predicate TopologicalOrder(r: Rel, d: set<NodeId>, s: seq<NodeId>) {
    && Distinct(s) && SetOf(s) == d
    && forall i, j :: 0 <= i < |s| && 0 <= j < |s| && (s[i], s[j]) in r ==> i < j
  }

  ghost predicate LexLeq(s: seq<NodeId>, t: seq<NodeId>) {
    s == t || exists i :: 0 <= i < |s| && i < |t| && s[..i] == t[..i] && s[i] < t[i]
  }

  ghost predicate IsCycle(r: Rel, d: set<NodeId>, p: seq<NodeId>) {
    |p| >= 2 && IsWalk(r, p) && p[0] == p[|p| - 1] && forall i :: 0 <= i < |p| ==> p[i] in d
  }

  ghost predicate Acyclic(r: Rel, d: set<NodeId>) {
    forall p :: !IsCycle(r, d, p)
  }

  lemma GreedyAppend(r: Rel, d: set<NodeId>, s: seq<NodeId>, n: NodeId)
    requires Greedy(r, d, s) && Available(r, d, SetOf(s), n)
    requires forall m :: Available(r, d, SetOf(s), m) ==> n <= m
    ensures Greedy(r, d, s + [n])
  {
    var t := s + [n];
    forall i | 0 <= i < |t|
      ensures GreedyAt(r, d, t, i)
    {
      if i < |s| {
        assert GreedyAt(r, d, s, i) && t[..i] == s[..i];
      } else {
        assert t[..i] == s;
      }
    }
  }

  /** In a greedy order predecessors come first. */
  lemma GreedyForward(r: Rel, d: set<NodeId>, s: seq<NodeId>, u: NodeId, j: nat) returns (i: nat)
    requires Greedy(r, d, s) && j < |s| && u in d && (u, s[j]) in r
    ensures i < j && s[i] == u
  {
    assert GreedyAt(r, d, s, j);
    assert u in s[..j];
    i :| 0 <= i < j && s[..j][i] == u;
  }

  lemma GreedyDistinct(r: Rel, d: set<NodeId>, s: seq<NodeId>)
    requires Greedy(r, d, s)
    ensures Distinct(s) && SetOf(s) <= d
  {
    forall i, j | 0 <= i < j < |s|
      ensures s[i] != s[j]
    {
      assert GreedyAt(r, d, s, j) && s[..j][i] == s[i];
    }
    forall x | x in SetOf(s)
      ensures x in d
    {
      var i :| 0 <= i < |s| && s[i] == x;
      assert GreedyAt(r, d, s, i);
    }
  }

  /** A greedy order that takes in all of `d` is a topological order. */
  lemma GreedyIsTopological(r: Rel, d: set<NodeId>, s: seq<NodeId>)
    requires Greedy(r, d, s) && |s| == |d|
    ensures TopologicalOrder(r, d, s)
  {
    GreedyDistinct(r, d, s);
    DistinctSize(s);
    SubsetCard(SetOf(s), d);
    forall i, j | 0 <= i < |s| && 0 <= j < |s| && (s[i], s[j]) in r
      ensures i < j
    {
      assert s[i] in SetOf(s);
      var k := GreedyForward(r, d, s, s[i], j);
    }
  }

  /** Greedy orders of one length are equal: the order depends on the edges and ids alone. */
  lemma {:induction false} GreedyIsUnique(r: Rel, d: set<NodeId>, s: seq<NodeId>, t: seq<NodeId>)
    requires Greedy(r, d, s) && Greedy(r, d, t) && |s| == |t|
    ensures s == t
    decreases |s|
  {
    if s != [] {
      var m := |s| - 1;
      forall i | 0 <= i < m
        ensures GreedyAt(r, d, s[..m], i) && GreedyAt(r, d, t[..m], i)
      {
        assert GreedyAt(r, d, s, i) && s[..m][..i] == s[..i];
        assert GreedyAt(r, d, t, i) && t[..m][..i] == t[..i];
      }
      GreedyIsUnique(r, d, s[..m], t[..m]);
      assert GreedyAt(r, d, s, m) && GreedyAt(r, d, t, m);
      assert s == s[..m] + [s[m]] && t == t[..m] + [t[m]];
    }
  }

  /** The greedy order is lexicographically least among all topological orders. */
  lemma GreedyIsLexLeast(r: Rel, d: set<NodeId>, s: seq<NodeId>, t: seq<NodeId>)
    requires Greedy(r, d, s) && |s| == |d| && TopologicalOrder(r, d, t)
    ensures LexLeq(s, t)
  {
    DistinctSize(t);
    var i := 0;
    while i < |s| && s[i] == t[i]
      invariant i <= |s| && s[..i] == t[..i]
    {
      assert s[..i + 1] == s[..i] + [s[i]] && t[..i + 1] == t[..i] + [t[i]];
      i := i + 1;
    }
    if i < |s| {
      assert GreedyAt(r, d, s, i);
      assert Available(r, d, SetOf(s[..i]), t[i]) by {
        assert t[i] in SetOf(t);
        forall u | u in d && (u, t[i]) in r
          ensures u in t[..i]
        {
          assert u in SetOf(t);
          var j :| 0 <= j < |t| && t[j] == u;
          assert t[..i][j] == u;
        }
      }
    } else {
      assert s == s[..i] && t == t[..i];
    }
  }

  // ------------------------------------------------------------------------ cycles

  ghost predicate HasPredecessor(r: Rel, left: set<NodeId>, v: NodeId) {
    exists u :: u in left && (u, v) in r
  }

  /** In a set where every node has a predecessor, walks of any length lead to every node. */
  lemma {:induction false} WalkBack(r: Rel, left: set<NodeId>, n: NodeId, k: nat) returns (p: seq<NodeId>)
    requires forall v {:trigger HasPredecessor(r, left, v)} :: v in left ==> HasPredecessor(r, left, v)
    requires n in left
    ensures |p| == k + 1 && IsWalk(r, p) && p[k] == n
    ensures forall i :: 0 <= i < |p| ==> p[i] in left
    decreases k
  {
    if k == 0 {
      p := [n];
    } else {
      assert HasPredecessor(r, left, n);
      var u :| u in left && (u, n) in r;
      p := WalkBack(r, left, u, k - 1);
      ExtendWalk(r, p, p[0], u, n);
      p := p + [n];
    }
  }

  /** When the order is stuck before it is complete, some cycle lies among the nodes left. */
  lemma StuckHasCycle(r: Rel, d: set<NodeId>, s: seq<NodeId>)
    requires Greedy(r, d, s) && Stuck(r, d, s) && |s| < |d|
    ensures !Acyclic(r, d)
  {
    GreedyDistinct(r, d, s);
    DistinctSize(s);
    var left := d - SetOf(s);
    var n := MissingElement(SetOf(s), d);
    forall v | v in left
      ensures HasPredecessor(r, left, v)
    {
      assert !Available(r, d, SetOf(s), v);
    }
    var p := WalkBack(r, left, n, |left|);
    var i, j := Pigeonhole(p, left);
    SplitWalk(r, p, j);
    var q := p[..j + 1];
    SplitWalk(r, q, i);
    assert IsCycle(r, d, q[i..]);
  }

  /** Walking back along a greedy order, the position drops with every hop. */
  lemma {:induction false} PositionDrops(r: Rel, d: set<NodeId>, s: seq<NodeId>, p: seq<NodeId>, j: nat) returns (i: nat)
    requires Greedy(r, d, s) && IsWalk(r, p) && (forall k :: 0 <= k < |p| ==> p[k] in d)
    requires j < |s| && s[j] == p[|p| - 1]
    ensures i + |p| - 1 <= j && s[i] == p[0]
    decreases |p|
  {
    if |p| == 1 {
      i := j;
    } else {
      var m := |p| - 1;
      assert EdgeAt(r, p, m - 1);
      var k := GreedyForward(r, d, s, p[m - 1], j);
      SplitWalk(r, p, m - 1);
      assert p[..m - 1 + 1] == p[..m];
      i := PositionDrops(r, d, s, p[..m], k);
    }
  }

  /** A greedy order that takes in all of `d` rules out cycles. */
  lemma CompleteIsAcyclic(r: Rel, d: set<NodeId>, s: seq<NodeId>)
    requires Greedy(r, d, s) && |s| == |d|
    ensures Acyclic(r, d)
  {
    GreedyIsTopological(r, d, s);
    forall p
      ensures !IsCycle(r, d, p)
    {
      if IsCycle(r, d, p) {
        assert p[0] in SetOf(s);
        var j :| 0 <= j < |s| && s[j] == p[|p| - 1];
        var i := PositionDrops(r, d, s, p, j);
      }
    }
  }

  // ----------------------------------------------------- phase 1: discovery and in-degrees

  ghost predicate ReachableFrom(r: Rel, starts: seq<NodeId>, n: NodeId) {
    exists s :: s in starts && Reachable(r, s, n)
  }

  lemma ReachableFromStep(r: Rel, starts: seq<NodeId>, u: NodeId, v: NodeId)
    requires ReachableFrom(r, starts, u) && (u, v) in r
    ensures ReachableFrom(r, starts, v)
  {
    var s :| s in starts && Reachable(r, s, u);
    ReachableStep(r, s, u, v);
  }

  /** A set that holds the starts and is closed under the edges holds everything reachable. */
  lemma ClosedIsAll(r: Rel, starts: seq<NodeId>, d: set<NodeId>, n: NodeId)
    requires forall s :: s in starts ==> s in d
    requires forall u, v :: u in d && (u, v) in r ==> v in d
    requires ReachableFrom(r, starts, n)
    ensures n in d
  {
    var s :| s in starts && Reachable(r, s, n);
    var p :| WalkFromTo(r, p, s, n);
    ClosedHoldsWalks(r, d, p, |p| - 1);
  }

  function Deg(m: map<NodeId, nat>, v: NodeId): nat {
    if v in m then m[v] else 0
  }

  /** The counter of `v` covers the nodes of `done` and the first `i` entries of `u`. */
  ghost predicate Counted(g: Graph, m: map<NodeId, nat>, done: set<NodeId>, u: NodeId, i: int, v: NodeId)
    requires 0 <= i <= |Out(g, u)|
  {
    Deg(m, v) == InDegree(g, done, v) + Occurs(Out(g, u)[..i], v)
  }

  ghost predicate Counts(g: Graph, m: map<NodeId, nat>, done: set<NodeId>, v: NodeId) {
    Deg(m, v) == InDegree(g, done, v)
  }

  ghost predicate Queue(g: Graph, starts: seq<NodeId>, queue: seq<NodeId>) {
    && Distinct(queue)
    && (forall s :: s in starts ==> s in queue)
    && (forall n {:trigger ReachableFrom(EdgesOf(g), starts, n)} :: n in queue ==> ReachableFrom(EdgesOf(g), starts, n))
  }

  /** The nodes before `head` have been expanded. */
  ghost predicate Discovering(g: Graph, starts: seq<NodeId>, queue: seq<NodeId>, head: nat, m: map<NodeId, nat>) {
    && Queue(g, starts, queue) && head <= |queue|
    && (forall u, v {:trigger (u, v) in EdgesOf(g)} :: u in queue[..head] && (u, v) in EdgesOf(g) ==> v in queue)
    && (forall v {:trigger Counts(g, m, SetOf(queue[..head]), v)} :: Counts(g, m, SetOf(queue[..head]), v))
  }

  /** The nodes in `done` and the first `i` entries of `u` have been expanded. */
  ghost predicate Listing(g: Graph, starts: seq<NodeId>, queue: seq<NodeId>, done: set<NodeId>, u: NodeId, i: nat,
          m: map<NodeId, nat>) {
    && Queue(g, starts, queue) && i <= |Out(g, u)| && u in queue && u !in done
    && (forall x, v {:trigger (x, v) in EdgesOf(g)} :: x in done && (x, v) in EdgesOf(g) ==> v in queue)
    && (forall j :: 0 <= j < i ==> Out(g, u)[j].to in queue)
    && (forall v {:trigger Counted(g, m, done, u, i, v)} :: Counted(g, m, done, u, i, v))
  }

  lemma CountNext(g: Graph, m: map<NodeId, nat>, done: set<NodeId>, u: NodeId, i: nat, v: NodeId)
    requires i < |Out(g, u)| && Counted(g, m, done, u, i, v)
    ensures var to := Out(g, u)[i].to; Counted(g, m[to := Deg(m, to) + 1], done, u, i + 1, v)
  {
    assert Out(g, u)[..i + 1][..i] == Out(g, u)[..i];
  }

  lemma EnqueueOk(g: Graph, starts: seq<NodeId>, queue: seq<NodeId>, v: NodeId)
    requires Queue(g, starts, queue) && v !in queue && ReachableFrom(EdgesOf(g), starts, v)
    ensures Queue(g, starts, queue + [v])
  {
  }

  method ListNeighbors(g: Graph, ghost starts: seq<NodeId>, queue0: seq<NodeId>, discovered0: set<NodeId>, u: NodeId,
                       m0: map<NodeId, nat>, ghost done: set<NodeId>)
      returns (queue: seq<NodeId>, discovered: set<NodeId>, m: map<NodeId, nat>)
    requires discovered0 == SetOf(queue0) && Listing(g, starts, queue0, done, u, 0, m0)
    ensures discovered == SetOf(queue) && Listing(g, starts, queue, done, u, |Out(g, u)|, m)
    ensures queue0 <= queue
  {
    queue, discovered, m := queue0, discovered0, m0;
    var neighbors := Out(g, u);
    for i := 0 to |neighbors|
      invariant discovered == SetOf(queue) && Listing(g, starts, queue, done, u, i, m)
      invariant queue0 <= queue
    {
      var v := neighbors[i].to;
      ghost var before := m;
      m := m[v := Deg(m, v) + 1];
      ghost var next := i + 1;
      forall x ensures Counted(g, m, done, u, next, x) {
        assert Counted(g, before, done, u, i, x);
        CountNext(g, before, done, u, i, x);
      }
      if v !in discovered {
        OutIsEdge(g, u, u, i);
        assert ReachableFrom(EdgesOf(g), starts, u);
        ReachableFromStep(EdgesOf(g), starts, u, v);
        EnqueueOk(g, starts, queue, v);
        discovered := discovered + {v};
        queue := queue + [v];
      }
    }
  }

  lemma StartListing(g: Graph, starts: seq<NodeId>, queue: seq<NodeId>, head: nat, m: map<NodeId, nat>)
    requires Discovering(g, starts, queue, head, m) && head < |queue|
    ensures Listing(g, starts, queue, SetOf(queue[..head]), queue[head], 0, m)
  {
    forall v ensures Counted(g, m, SetOf(queue[..head]), queue[head], 0, v) {
      assert Counts(g, m, SetOf(queue[..head]), v);
    }
  }

  lemma FinishListing(g: Graph, starts: seq<NodeId>, queue: seq<NodeId>, head: nat, u: NodeId, m: map<NodeId, nat>)
    requires head < |queue| && queue[head] == u
    requires Listing(g, starts, queue, SetOf(queue[..head]), u, |Out(g, u)|, m)
    ensures Discovering(g, starts, queue, head + 1, m)
  {
    var done := SetOf(queue[..head]);
    assert queue[..head + 1] == queue[..head] + [u];
    SetOfAppend(queue[..head], u);
    var after := SetOf(queue[..head + 1]);
    forall v ensures Counts(g, m, after, v) {
      assert Counted(g, m, done, u, |Out(g, u)|, v);
      assert Out(g, u)[..|Out(g, u)|] == Out(g, u);
      InDegreeWith(g, done, u, v);
    }
    forall x, v | x in queue[..head + 1] && (x, v) in EdgesOf(g)
      ensures v in queue
    {
      if x == u {
        var j := EdgeIsOut(g, u, v);
      } else {
        assert x in done;
      }
    }
  }

  ghost function Mentioned(g: Graph, starts: seq<NodeId>): set<NodeId> {
    SetOf(starts) + (set k | k in EdgesOf(g) :: k.1)
  }

  lemma QueueFits(g: Graph, starts: seq<NodeId>, queue: seq<NodeId>)
    requires Queue(g, starts, queue)
    ensures |queue| <= |Mentioned(g, starts)|
  {
    DistinctSize(queue);
    forall n | n in SetOf(queue)
      ensures n in Mentioned(g, starts)
    {
      assert ReachableFrom(EdgesOf(g), starts, n);
      var s :| s in starts && Reachable(EdgesOf(g), s, n);
      var p :| WalkFromTo(EdgesOf(g), p, s, n);
      if |p| > 1 {
        assert EdgeAt(EdgesOf(g), p, |p| - 2);
      }
    }
    SubsetCard(SetOf(queue), Mentioned(g, starts));
  }

  /** What discovery establishes: the queue lists what is reachable, and the counters are its in-degrees. */
  ghost predicate Discovered(g: Graph, starts: seq<NodeId>, queue: seq<NodeId>, m: map<NodeId, nat>) {
    && Distinct(queue)
    && (forall n {:trigger n in queue} {:trigger ReachableFrom(EdgesOf(g), starts, n)} :: n in queue <==> ReachableFrom(EdgesOf(g), starts, n))
    && (forall u, v {:trigger (u, v) in EdgesOf(g)} :: u in queue && (u, v) in EdgesOf(g) ==> v in queue)
    && (forall v {:trigger Counts(g, m, SetOf(queue), v)} :: Counts(g, m, SetOf(queue), v))
  }

  /** Breadth-first discovery of everything reachable, counting in-degrees on the way. */
  method Discover(g: Graph, starts: seq<NodeId>) returns (queue: seq<NodeId>, m: map<NodeId, nat>)
    requires Distinct(starts)
    ensures Discovered(g, starts, queue, m)
  {
    queue, m := starts, map[];
    var discovered: set<NodeId> := set s | s in starts;
    var head: nat := 0;
    StartDiscovering(g, starts);
    while head < |queue|
      invariant discovered == SetOf(queue) && Discovering(g, starts, queue, head, m)
      decreases |Mentioned(g, starts)| - head
    {
      QueueFits(g, starts, queue);
      StartListing(g, starts, queue, head, m);
      var u := queue[head];
      ghost var done := SetOf(queue[..head]);
      ghost var before := queue;
      queue, discovered, m := ListNeighbors(g, starts, queue, discovered, u, m, done);
      assert queue[..head] == before[..head] && queue[head] == u;
      FinishListing(g, starts, queue, head, u, m);
      head := head + 1;
    }
    FinishDiscovering(g, starts, queue, m);
  }

  lemma StartDiscovering(g: Graph, starts: seq<NodeId>)
    requires Distinct(starts)
    ensures Discovering(g, starts, starts, 0, map[])
  {
    forall n | n in starts ensures ReachableFrom(EdgesOf(g), starts, n) { ReachableSelf(EdgesOf(g), n); }
    assert SetOf(starts[..0]) == {};
  }

  lemma FinishDiscovering(g: Graph, starts: seq<NodeId>, queue: seq<NodeId>, m: map<NodeId, nat>)
    requires Discovering(g, starts, queue, |queue|, m)
    ensures Discovered(g, starts, queue, m)
  {
    assert queue[..|queue|] == queue;
    forall n | ReachableFrom(EdgesOf(g), starts, n) ensures n in queue {
      ClosedIsAll(EdgesOf(g), starts, SetOf(queue), n);
    }
  }

  // ------------------------------------------------------- phase 2: Kahn's algorithm

  lemma {:induction false} OccursPrefix(es: seq<Edge>, i: nat, v: NodeId)
    requires i <= |es|
    ensures Occurs(es[..i], v) <= Occurs(es, v)
    decreases |es|
  {
    if i < |es| {
      OccursPrefix(es[..|es| - 1], i, v);
      assert es[..|es| - 1][..i] == es[..i];
    } else {
      assert es[..i] == es;
    }
  }

  ghost predicate ReadyAt(d: set<NodeId>, sorted: seq<NodeId>, m: map<NodeId, nat>, ready: multiset<Entry>, n: NodeId) {
    Entry(n, 0.0) in ready <==> n in d && n !in sorted && Deg(m, n) == 0
  }

  ghost predicate OnceAtZero(ready: multiset<Entry>, e: Entry) {
    ready[e] <= 1 && (e in ready ==> e.priority == 0.0)
  }

  /** The heap holds exactly the unsorted nodes whose counter is zero, once each, all at priority zero. */
  ghost predicate ReadyHolds(d: set<NodeId>, sorted: seq<NodeId>, m: map<NodeId, nat>, ready: multiset<Entry>) {
    && (forall n {:trigger ReadyAt(d, sorted, m, ready, n)} :: ReadyAt(d, sorted, m, ready, n))
    && (forall e {:trigger OnceAtZero(ready, e)} :: OnceAtZero(ready, e))
  }

  ghost predicate Kahn(g: Graph, d: set<NodeId>, sorted: seq<NodeId>, m: map<NodeId, nat>, ready: multiset<Entry>) {
    && Greedy(EdgesOf(g), d, sorted)
    && (forall u, v {:trigger (u, v) in EdgesOf(g)} :: u in d && (u, v) in EdgesOf(g) ==> v in d)
    && (forall v {:trigger Counts(g, m, d - SetOf(sorted), v)} :: Counts(g, m, d - SetOf(sorted), v))
    && ReadyHolds(d, sorted, m, ready)
  }

  /** The first `i` entries of `n`, the last node sorted, have been taken off the counters. */
  ghost predicate Lowered(g: Graph, m: map<NodeId, nat>, before: set<NodeId>, n: NodeId, i: int, v: NodeId)
    requires 0 <= i <= |Out(g, n)|
  {
    Deg(m, v) + Occurs(Out(g, n)[..i], v) == InDegree(g, before, v)
  }

  ghost predicate Lowering(g: Graph, d: set<NodeId>, sorted: seq<NodeId>, n: NodeId, i: nat, m: map<NodeId, nat>,
          ready: multiset<Entry>) {
    && i <= |Out(g, n)| && n in d && n !in sorted
    && Greedy(EdgesOf(g), d, sorted + [n])
    && (forall u, v {:trigger (u, v) in EdgesOf(g)} :: u in d && (u, v) in EdgesOf(g) ==> v in d)
    && (forall v {:trigger Lowered(g, m, d - SetOf(sorted), n, i, v)} :: Lowered(g, m, d - SetOf(sorted), n, i, v))
    && (forall v {:trigger Deg(m, v)} :: v in sorted + [n] ==> Deg(m, v) == 0)
    && ReadyHolds(d, sorted + [n], m, ready)
  }

  lemma CountsAvailable(g: Graph, d: set<NodeId>, sorted: seq<NodeId>, m: map<NodeId, nat>, n: NodeId)
    requires Counts(g, m, d - SetOf(sorted), n)
    ensures Available(EdgesOf(g), d, SetOf(sorted), n) <==> n in d && n !in sorted && Deg(m, n) == 0
  {
    InDegreeZero(g, d - SetOf(sorted), n);
  }

  lemma SortedHasZero(g: Graph, d: set<NodeId>, sorted: seq<NodeId>, m: map<NodeId, nat>, v: NodeId)
    requires Greedy(EdgesOf(g), d, sorted) && v in sorted && Counts(g, m, d - SetOf(sorted), v)
    ensures Deg(m, v) == 0
  {
    var j :| 0 <= j < |sorted| && sorted[j] == v;
    forall u | u in d - SetOf(sorted)
      ensures (u, v) !in EdgesOf(g)
    {
      if (u, v) in EdgesOf(g) {
        var i := GreedyForward(EdgesOf(g), d, sorted, u, j);
      }
    }
    InDegreeZero(g, d - SetOf(sorted), v);
  }

  lemma StartLowering(g: Graph, d: set<NodeId>, sorted: seq<NodeId>, m: map<NodeId, nat>, ready: multiset<Entry>, e: Entry)
    requires Kahn(g, d, sorted, m, ready) && IsFirst(true, ready, e)
    ensures Lowering(g, d, sorted, e.item, 0, m, ready - multiset{e})
  {
    var n, r := e.item, EdgesOf(g);
    assert OnceAtZero(ready, e) && e == Entry(n, 0.0);
    forall x
      ensures Available(r, d, SetOf(sorted), x) <==> Entry(x, 0.0) in ready
    {
      assert ReadyAt(d, sorted, m, ready, x);
      assert Counts(g, m, d - SetOf(sorted), x);
      CountsAvailable(g, d, sorted, m, x);
    }
    forall x | Available(r, d, SetOf(sorted), x)
      ensures n <= x
    {
      assert Entry(x, 0.0) in ready && EntryLeq(true, e, Entry(x, 0.0));
    }
    GreedyAppend(r, d, sorted, n);
    forall v ensures Lowered(g, m, d - SetOf(sorted), n, 0, v) { assert Counts(g, m, d - SetOf(sorted), v); }
    forall v | v in sorted + [n]
      ensures Deg(m, v) == 0
    {
      assert ReadyAt(d, sorted, m, ready, n);
      if v in sorted {
        assert Counts(g, m, d - SetOf(sorted), v);
        SortedHasZero(g, d, sorted, m, v);
      }
    }
    StartReady(d, sorted, m, ready, e);
  }

  lemma StartReady(d: set<NodeId>, sorted: seq<NodeId>, m: map<NodeId, nat>, ready: multiset<Entry>, e: Entry)
    requires ReadyHolds(d, sorted, m, ready) && e == Entry(e.item, 0.0) && e in ready
    ensures ReadyHolds(d, sorted + [e.item], m, ready - multiset{e})
  {
    var rest, after := ready - multiset{e}, sorted + [e.item];
    forall n
      ensures ReadyAt(d, after, m, rest, n)
    {
      assert ReadyAt(d, sorted, m, ready, n) && OnceAtZero(ready, e);
    }
    forall x ensures OnceAtZero(rest, x) { assert OnceAtZero(ready, x); }
  }

  lemma LowerOne(g: Graph, d: set<NodeId>, sorted: seq<NodeId>, n: NodeId, i: nat, m: map<NodeId, nat>,
          ready: multiset<Entry>, v: NodeId)
    requires Lowering(g, d, sorted, n, i, m, ready) && i < |Out(g, n)| && v == Out(g, n)[i].to
    ensures Deg(m, v) > 0 && v in d && v !in sorted + [n] && Entry(v, 0.0) !in ready
    ensures var m' := m[v := Deg(m, v) - 1];
            Lowering(g, d, sorted, n, i + 1, m', if Deg(m, v) == 1 then ready + multiset{Entry(v, 0.0)} else ready)
  {
    var before := d - SetOf(sorted);
    assert Lowered(g, m, before, n, i, v);
    var es := Out(g, n);
    assert es[..i + 1][..i] == es[..i];
    OccursPrefix(es, i + 1, v);
    InDegreeWithout(g, before, n, v);
    OutIsEdge(g, n, n, i);
    var m' := m[v := Deg(m, v) - 1];
    var next := i + 1;
    forall x ensures Lowered(g, m', before, n, next, x) { assert Lowered(g, m, before, n, i, x); }
    assert forall x :: x in sorted + [n] ==> Deg(m', x) == Deg(m, x);
    LowerReady(d, sorted + [n], m, ready, v);
  }

  lemma LowerReady(d: set<NodeId>, sorted: seq<NodeId>, m: map<NodeId, nat>, ready: multiset<Entry>, v: NodeId)
    requires ReadyHolds(d, sorted, m, ready) && v in d && v !in sorted && Deg(m, v) > 0
    ensures Entry(v, 0.0) !in ready
    ensures ReadyHolds(d, sorted, m[v := Deg(m, v) - 1], if Deg(m, v) == 1 then ready + multiset{Entry(v, 0.0)} else ready)
  {
    var m' := m[v := Deg(m, v) - 1];
    var after := if Deg(m, v) == 1 then ready + multiset{Entry(v, 0.0)} else ready;
    assert ReadyAt(d, sorted, m, ready, v);
    forall x ensures ReadyAt(d, sorted, m', after, x) { assert ReadyAt(d, sorted, m, ready, x); }
    forall e ensures OnceAtZero(after, e) { assert OnceAtZero(ready, e); }
  }

  lemma FinishLowering(g: Graph, d: set<NodeId>, sorted: seq<NodeId>, n: NodeId, m: map<NodeId, nat>, ready: multiset<Entry>)
    requires Lowering(g, d, sorted, n, |Out(g, n)|, m, ready)
    ensures Kahn(g, d, sorted + [n], m, ready)
  {
    var before := d - SetOf(sorted);
    SetOfAppend(sorted, n);
    var rest := d - SetOf(sorted + [n]);
    assert before - {n} == rest;
    assert Out(g, n)[..|Out(g, n)|] == Out(g, n);
    forall v
      ensures Counts(g, m, rest, v)
    {
      assert Lowered(g, m, before, n, |Out(g, n)|, v);
      InDegreeWithout(g, before, n, v);
    }
  }

  /** The first `i` queued nodes have been offered to the heap. */
  ghost predicate Filled(queue: seq<NodeId>, i: nat, m: map<NodeId, nat>, ready: multiset<Entry>) {
    i <= |queue| && ReadyHolds(SetOf(queue[..i]), [], m, ready)
  }

  lemma FillOne(queue: seq<NodeId>, i: nat, m: map<NodeId, nat>, ready: multiset<Entry>)
    requires Distinct(queue) && i < |queue| && Filled(queue, i, m, ready)
    ensures Filled(queue, i + 1, m, if Deg(m, queue[i]) == 0 then ready + multiset{Entry(queue[i], 0.0)} else ready)
  {
    var n, d := queue[i], SetOf(queue[..i]);
    var after := if Deg(m, n) == 0 then ready + multiset{Entry(n, 0.0)} else ready;
    assert queue[..i + 1] == queue[..i] + [n];
    SetOfAppend(queue[..i], n);
    var d' := SetOf(queue[..i + 1]);
    assert n !in d;
    assert ReadyAt(d, [], m, ready, n);
    forall x ensures ReadyAt(d', [], m, after, x) { assert ReadyAt(d, [], m, ready, x); }
    forall e ensures OnceAtZero(after, e) { assert OnceAtZero(ready, e); }
  }

  lemma StartKahn(g: Graph, starts: seq<NodeId>, queue: seq<NodeId>, m: map<NodeId, nat>, ready: multiset<Entry>)
    requires Discovered(g, starts, queue, m) && Filled(queue, |queue|, m, ready)
    ensures Kahn(g, SetOf(queue), [], m, ready)
  {
    assert queue[..|queue|] == queue;
    var rest := SetOf(queue) - SetOf([]);
    assert rest == SetOf(queue);
    forall v ensures Counts(g, m, rest, v) { assert Counts(g, m, SetOf(queue), v); }
  }

  /** Takes the edges out of the node just sorted off the counters, and readies whatever reaches zero. */
  method LowerNeighbors(g: Graph, m0: map<NodeId, nat>, pq: MinHeap, n: NodeId, ghost d: set<NodeId>, ghost sorted: seq<NodeId>)
      returns (m: map<NodeId, nat>)
    requires pq.Valid() && Lowering(g, d, sorted, n, 0, m0, pq.Contents())
    modifies pq
    ensures pq.Valid() && Kahn(g, d, sorted + [n], m, pq.Contents())
  {
    m := m0;
    var neighbors := Out(g, n);
    for i := 0 to |neighbors|
      invariant pq.Valid() && Lowering(g, d, sorted, n, i, m, pq.Contents())
    {
      var v := neighbors[i].to;
      LowerOne(g, d, sorted, n, i, m, pq.Contents(), v);
      var deg := Deg(m, v) - 1;
      m := m[v := deg];
      if deg == 0 {
        pq.Insert(v, 0.0);
      }
    }
    FinishLowering(g, d, sorted, n, m, pq.Contents());
  }

  /** The order built, and whether some node was still ready when it was cut off. */
  method KahnLoop(g: Graph, starts: seq<NodeId>, queue: seq<NodeId>, m0: map<NodeId, nat>, maxNodes: nat)
      returns (sorted: seq<NodeId>, readyRemaining: bool)
    requires Discovered(g, starts, queue, m0)
    ensures Greedy(EdgesOf(g), SetOf(queue), sorted) && |sorted| <= maxNodes
    ensures !readyRemaining <==> Stuck(EdgesOf(g), SetOf(queue), sorted)
    ensures readyRemaining ==> |sorted| == maxNodes
  {
    var pq := new MinHeap(true);
    assert SetOf(queue[..0]) == {};
    for i := 0 to |queue|
      invariant pq.Valid() && pq.tieBreak && Filled(queue, i, m0, pq.Contents())
    {
      FillOne(queue, i, m0, pq.Contents());
      if Deg(m0, queue[i]) == 0 {
        pq.Insert(queue[i], 0.0);
      }
    }
    StartKahn(g, starts, queue, m0, pq.Contents());
    ghost var d := SetOf(queue);
    var m := m0;
    sorted := [];
    var empty := pq.IsEmpty();
    while !empty && |sorted| < maxNodes
      invariant pq.Valid() && pq.tieBreak && (empty <==> pq.Contents() == multiset{})
      invariant Kahn(g, d, sorted, m, pq.Contents()) && |sorted| <= maxNodes
      decreases maxNodes - |sorted|
    {
      ghost var ready := pq.Contents();
      var top := pq.ExtractMin();
      StartLowering(g, d, sorted, m, ready, top.value);
      m := LowerNeighbors(g, m, pq, top.value.item, d, sorted);
      sorted := sorted + [top.value.item];
      empty := pq.IsEmpty();
    }
    readyRemaining := !empty;
    EmptyIsStuck(g, d, sorted, m, pq.Contents());
  }

  lemma EmptyIsStuck(g: Graph, d: set<NodeId>, sorted: seq<NodeId>, m: map<NodeId, nat>, ready: multiset<Entry>)
    requires Kahn(g, d, sorted, m, ready)
    ensures ready == multiset{} <==> Stuck(EdgesOf(g), d, sorted)
  {
    forall n
      ensures Available(EdgesOf(g), d, SetOf(sorted), n) <==> Entry(n, 0.0) in ready
    {
      assert ReadyAt(d, sorted, m, ready, n);
      assert Counts(g, m, d - SetOf(sorted), n);
      CountsAvailable(g, d, sorted, m, n);
    }
    if ready != multiset{} {
      var e :| e in ready;
      assert OnceAtZero(ready, e) && e == Entry(e.item, 0.0);
    }
  }

  // --------------------------------------------------------------------- the sort

  datatype TopoResult = InvalidStart | GraphHasCycles | Order(sorted: seq<NodeId>, hasCycle: bool)

  /** Everything reachable from the starts. */
  ghost function ReachableSet(g: Graph, starts: seq<NodeId>): set<NodeId> {
    set n | n in Mentioned(g, starts) && ReachableFrom(EdgesOf(g), starts, n)
  }

  lemma QueueIsReachable(g: Graph, starts: seq<NodeId>, queue: seq<NodeId>, m: map<NodeId, nat>)
    requires Discovered(g, starts, queue, m)
    ensures SetOf(queue) == ReachableSet(g, starts) && |queue| == |ReachableSet(g, starts)|
  {
    DistinctSize(queue);
    forall n | n in queue
      ensures n in Mentioned(g, starts)
    {
      assert ReachableFrom(EdgesOf(g), starts, n);
      var s :| s in starts && Reachable(EdgesOf(g), s, n);
      var p :| WalkFromTo(EdgesOf(g), p, s, n);
      if |p| > 1 {
        assert EdgeAt(EdgesOf(g), p, |p| - 2);
      }
    }
  }

  /** Distinguishes a cycle from an order cut off by the node limit. */
  function ComputeTopoHasCycle(sortedLength: nat, discoveredSize: nat, maxNodes: nat, readyRemaining: bool): bool {
    var stoppedByLimit := sortedLength >= maxNodes && readyRemaining;
    !stoppedByLimit && sortedLength < discoveredSize
  }

  /** The starts without repetitions, in order of first appearance. */
  method Dedup(starts: seq<NodeId>) returns (r: seq<NodeId>)
    ensures Distinct(r)
    ensures forall n :: n in r <==> n in starts
  {
    r := [];
    for i := 0 to |starts|
      invariant Distinct(r)
      invariant forall n :: n in r <==> n in starts[..i]
    {
      if starts[i] !in r {
        r := r + [starts[i]];
      }
    }
  }

  /** A greedy order within the limit that cannot be continued and is not complete. */
  ghost predicate StuckEarly(r: Rel, d: set<NodeId>, maxNodes: nat, s: seq<NodeId>) {
    Greedy(r, d, s) && Stuck(r, d, s) && |s| < |d| && |s| <= maxNodes
  }

  /** The answer of the sort over the set `d` of reachable nodes. */
  ghost predicate TopoAnswers(r: Rel, d: set<NodeId>, maxNodes: nat, throwOnCycle: bool, t: TopoResult) {
    && (t.GraphHasCycles? ==> throwOnCycle && !Acyclic(r, d) && exists s :: StuckEarly(r, d, maxNodes, s))
    && (t.Order? ==> Greedy(r, d, t.sorted) && |t.sorted| <= maxNodes)
    && (t.Order? && t.hasCycle ==> !throwOnCycle && !Acyclic(r, d))
    && (t.Order? && !t.hasCycle ==> |t.sorted| == if maxNodes < |d| then maxNodes else |d|)
    && (t.Order? ==> (t.hasCycle <==> Stuck(r, d, t.sorted) && |t.sorted| < |d|))
  }

  method TopologicalSort(g: Graph, start: seq<NodeId>, maxNodes: nat, throwOnCycle: bool) returns (t: TopoResult)
    ensures t.InvalidStart? <==> exists s :: s in start && s !in g.alive
    ensures !t.InvalidStart? ==> TopoAnswers(EdgesOf(g), ReachableSet(g, start), maxNodes, throwOnCycle, t)
  {
    var starts := Dedup(start);
    for i := 0 to |starts|
      invariant forall j :: 0 <= j < i ==> starts[j] in g.alive
    {
      if starts[i] !in g.alive {
        var s := starts[i];
        assert s in starts;
        assert s in start;
        return InvalidStart;
      }
    }
    var queue, m := Discover(g, starts);
    QueueIsReachable(g, starts, queue, m);
    SameStartsSameSet(g, start, starts);
    ghost var d := SetOf(queue);
    var sorted, readyRemaining := KahnLoop(g, starts, queue, m, maxNodes);
    var hasCycle := ComputeTopoHasCycle(|sorted|, |queue|, maxNodes, readyRemaining);
    GreedySize(EdgesOf(g), d, sorted);
    if hasCycle {
      StuckHasCycle(EdgesOf(g), d, sorted);
    }
    if hasCycle && throwOnCycle {
      assert StuckEarly(EdgesOf(g), d, maxNodes, sorted);
      return GraphHasCycles;
    }
    t := Order(sorted, hasCycle);
  }

  lemma GreedySize(r: Rel, d: set<NodeId>, s: seq<NodeId>)
    requires Greedy(r, d, s)
    ensures |s| <= |d| && (|s| == |d| ==> Stuck(r, d, s))
  {
    GreedyDistinct(r, d, s);
    DistinctSize(s);
    SubsetCard(SetOf(s), d);
  }

  lemma SameStartsSameSet(g: Graph, a: seq<NodeId>, b: seq<NodeId>)
    requires forall n :: n in a <==> n in b
    ensures ReachableSet(g, a) == ReachableSet(g, b)
  {
    forall x ensures x in SetOf(a) <==> x in SetOf(b) { assert x in a <==> x in b; }
    forall n ensures ReachableFrom(EdgesOf(g), a, n) <==> ReachableFrom(EdgesOf(g), b, n) {
      if s :| s in a && Reachable(EdgesOf(g), s, n) { assert s in b; }
      if s :| s in b && Reachable(EdgesOf(g), s, n) { assert s in a; }
    }
  }

  /** With a limit that is not reached, a cycle is reported exactly when there is one, and otherwise the
      order is the lexicographically least topological order of everything reachable. */
  lemma SortIsExact(r: Rel, d: set<NodeId>, maxNodes: nat, throwOnCycle: bool, t: TopoResult)
    requires !t.InvalidStart? && TopoAnswers(r, d, maxNodes, throwOnCycle, t) && |d| <= maxNodes
    ensures (t.GraphHasCycles? || t.hasCycle) <==> !Acyclic(r, d)
    ensures Acyclic(r, d) ==> t.Order? && TopologicalOrder(r, d, t.sorted)
                              && forall o :: TopologicalOrder(r, d, o) ==> LexLeq(t.sorted, o)
  {
    if t.Order? && !t.hasCycle {
      CompleteIsAcyclic(r, d, t.sorted);
      GreedyIsTopological(r, d, t.sorted);
      forall o | TopologicalOrder(r, d, o) ensures LexLeq(t.sorted, o) { GreedyIsLexLeast(r, d, t.sorted, o); }
    }
  }

  /** The position of a node in an order that holds everything available so far. */
  lemma {:induction false} GreedyInsideStuck(r: Rel, d: set<NodeId>, s: seq<NodeId>, t: seq<NodeId>, i: nat)
    requires Greedy(r, d, s) && Greedy(r, d, t) && Stuck(r, d, t) && i <= |s|
    ensures SetOf(s[..i]) <= SetOf(t)
    decreases i
  {
    if i > 0 {
      GreedyInsideStuck(r, d, s, t, i - 1);
      assert GreedyAt(r, d, s, i - 1) && !Available(r, d, SetOf(t), s[i - 1]);
      assert s[..i] == s[..i - 1] + [s[i - 1]];
      SetOfAppend(s[..i - 1], s[i - 1]);
    }
  }

  /** There is one greedy order that is stuck. */
  lemma StuckIsUnique(r: Rel, d: set<NodeId>, s: seq<NodeId>, t: seq<NodeId>)
    requires Greedy(r, d, s) && Greedy(r, d, t) && Stuck(r, d, s) && Stuck(r, d, t)
    ensures s == t
  {
    StuckIsLongest(r, d, s, t);
    StuckIsLongest(r, d, t, s);
  }

  /** Some cycle leads to `n`. */
  ghost predicate BehindCycle(r: Rel, d: set<NodeId>, n: NodeId) {
    exists p, q :: LeadsTo(r, d, p, q, n)
  }

  ghost predicate LeadsTo(r: Rel, d: set<NodeId>, p: seq<NodeId>, q: seq<NodeId>, n: NodeId) {
    IsCycle(r, d, p) && WalkFromTo(r, q, p[0], n) && forall i :: 0 <= i < |q| ==> q[i] in d
  }

  lemma OrderedIsNotBehind(r: Rel, d: set<NodeId>, s: seq<NodeId>, n: NodeId, p: seq<NodeId>, q: seq<NodeId>)
    requires Greedy(r, d, s) && n in s
    ensures !LeadsTo(r, d, p, q, n)
  {
    if LeadsTo(r, d, p, q, n) {
      var j :| 0 <= j < |s| && s[j] == n;
      var i := PositionDrops(r, d, s, q, j);
      var k := PositionDrops(r, d, s, p, i);
      GreedyDistinct(r, d, s);
    }
  }

  /** A stuck greedy order holds exactly the nodes that no cycle leads to. */
  lemma StuckHoldsTheRest(r: Rel, d: set<NodeId>, s: seq<NodeId>, n: NodeId)
    requires Greedy(r, d, s) && Stuck(r, d, s) && n in d
    ensures n in s <==> !BehindCycle(r, d, n)
  {
    if n in s {
      forall p, q ensures !LeadsTo(r, d, p, q, n) { OrderedIsNotBehind(r, d, s, n, p, q); }
    } else {
      var left := d - SetOf(s);
      forall v | v in left
        ensures HasPredecessor(r, left, v)
      {
        assert !Available(r, d, SetOf(s), v);
      }
      var p := WalkBack(r, left, n, |left|);
      var i, j := Pigeonhole(p, left);
      SplitWalk(r, p, i);
      SplitWalk(r, p[i..], j - i);
      assert LeadsTo(r, d, p[i..][..j - i + 1], p[i..], n);
    }
  }

  /** When the sort reports a cycle without refusing, it lists exactly the nodes that no cycle leads to. */
  lemma CyclicSortIsExact(r: Rel, d: set<NodeId>, maxNodes: nat, throwOnCycle: bool, t: TopoResult, n: NodeId)
    requires t.Order? && t.hasCycle && TopoAnswers(r, d, maxNodes, throwOnCycle, t) && n in d
    ensures n in t.sorted <==> !BehindCycle(r, d, n)
  {
    StuckHoldsTheRest(r, d, t.sorted, n);
  }

  lemma StuckIsLongest(r: Rel, d: set<NodeId>, s: seq<NodeId>, t: seq<NodeId>)
    requires Greedy(r, d, s) && Stuck(r, d, s) && Greedy(r, d, t)
    ensures |t| <= |s| && (|t| == |s| ==> t == s)
  {
    GreedyInsideStuck(r, d, t, s, |t|);
    assert t[..|t|] == t;
    GreedyDistinct(r, d, s);
    GreedyDistinct(r, d, t);
    DistinctSize(s);
    DistinctSize(t);
    SubsetCard(SetOf(t), SetOf(s));
    if |t| == |s| {
      GreedyIsUnique(r, d, s, t);
    }
  }

  /** The answer of the sort is a function of the edges, the ids, the limit and the mode. */
  lemma SortIsUnique(r: Rel, d: set<NodeId>, maxNodes: nat, throwOnCycle: bool, t: TopoResult, u: TopoResult)
    requires !t.InvalidStart? && TopoAnswers(r, d, maxNodes, throwOnCycle, t)
    requires !u.InvalidStart? && TopoAnswers(r, d, maxNodes, throwOnCycle, u)
    ensures t == u
  {
    if t.Order? && t.hasCycle {
      OneIsStuck(r, d, maxNodes, throwOnCycle, t.sorted, u);
    } else if u.Order? && u.hasCycle {
      OneIsStuck(r, d, maxNodes, throwOnCycle, u.sorted, t);
    } else if t.GraphHasCycles? && u.Order? {
      var s :| StuckEarly(r, d, maxNodes, s);
      OneIsStuck(r, d, maxNodes, throwOnCycle, s, u);
    } else if u.GraphHasCycles? && t.Order? {
      var s :| StuckEarly(r, d, maxNodes, s);
      OneIsStuck(r, d, maxNodes, throwOnCycle, s, t);
    } else if t.Order? {
      GreedyIsUnique(r, d, t.sorted, u.sorted);
    }
  }

  /** Where a greedy order gets stuck early within the limit, every answer says so. */
  lemma OneIsStuck(r: Rel, d: set<NodeId>, maxNodes: nat, throwOnCycle: bool, s: seq<NodeId>, t: TopoResult)
    requires StuckEarly(r, d, maxNodes, s)
    requires !t.InvalidStart? && TopoAnswers(r, d, maxNodes, throwOnCycle, t)
    ensures t == if throwOnCycle then GraphHasCycles else Order(s, true)
  {
    if t.Order? {
      StuckIsLongest(r, d, s, t.sorted);
      if t.hasCycle {
        StuckIsUnique(r, d, s, t.sorted);
      }
    }
  }
}
