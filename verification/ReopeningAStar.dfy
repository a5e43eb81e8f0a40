/** A* of the pathfinding example: it reopens nodes whenever a shorter way appears, so an admissible
    heuristic is enough. Node weights and heuristic values are naturals; a step costs the weight of the
    node it enters. */
module ReopeningAStar {
  import opened Graphs
  import opened MinHeaps

  type Adjacency = map<NodeId, seq<NodeId>>
  type NodeWeight = NodeId -> nat

  datatype Result = Result(path: seq<NodeId>, totalCost: Option<nat>)

  function Next(adj: Adjacency, n: NodeId): seq<NodeId> {
    if n in adj then adj[n] else []
  }

  ghost function Steps(adj: Adjacency): Rel {
    set u, v | u in adj && v in adj[u] :: (u, v)
  }

  ghost function Nodes(adj: Adjacency, start: NodeId): set<NodeId> {
    {start} + (set u, v | u in adj && v in adj[u] :: v)
  }

  lemma NextIsStep(adj: Adjacency, start: NodeId, u: NodeId, i: nat)
    requires i < |Next(adj, u)|
    ensures (u, Next(adj, u)[i]) in Steps(adj) && Next(adj, u)[i] in Nodes(adj, start)
  {
    var v := Next(adj, u)[i];
    assert u in adj && v in adj[u];
    assert (u, v) in Steps(adj);
  }

  lemma StepIsNext(adj: Adjacency, u: NodeId, v: NodeId) returns (i: nat)
    requires (u, v) in Steps(adj)
    ensures i < |Next(adj, u)| && Next(adj, u)[i] == v
  {
    i :| 0 <= i < |adj[u]| && adj[u][i] == v;
  }

  /** The cost of a walk: the weights of all nodes it enters. */
  ghost function Cost(w: NodeWeight, p: seq<NodeId>): nat {
    if |p| <= 1 then 0 else Cost(w, p[..|p| - 1]) + w(p[|p| - 1])
  }

  lemma {:induction false} CostSplit(w: NodeWeight, p: seq<NodeId>, k: nat)
    requires k < |p|
    ensures Cost(w, p) == Cost(w, p[..k + 1]) + Cost(w, p[k..])
    decreases |p|
  {
    if k == |p| - 1 {
      assert p[..k + 1] == p;
    } else {
      var q := p[..|p| - 1];
      CostSplit(w, q, k);
      assert q[..k + 1] == p[..k + 1] && q[k..] == p[k..][..|p[k..]| - 1];
    }
  }

  ghost predicate Admissible(adj: Adjacency, w: NodeWeight, h: NodeWeight, goal: NodeId) {
    forall p, n :: WalkFromTo(Steps(adj), p, n, goal) ==> h(n) <= Cost(w, p)
  }

  // ----------------------------------------------------- what the search keeps

  datatype State = State(dist: map<NodeId, nat>, prev: map<NodeId, NodeId>, heap: multiset<Entry>)

  function Priority(h: NodeWeight, n: NodeId, d: nat): real {
    (d + h(n)) as real
  }

  /** Following `prev` from `n` for `k` hops arrives at `start`. */
  ghost predicate Chain(prev: map<NodeId, NodeId>, start: NodeId, n: NodeId, k: nat)
    decreases k
  {
    if k == 0 then n == start else n != start && n in prev && Chain(prev, start, prev[n], k - 1)
  }

  ghost predicate Rooted(s: State, start: NodeId, n: NodeId) {
    exists k: nat :: Chain(s.prev, start, n, k)
  }

  ghost predicate Linked(adj: Adjacency, w: NodeWeight, s: State, n: NodeId)
    requires n in s.prev
  {
    var u := s.prev[n];
    u in s.dist && n in s.dist && (u, n) in Steps(adj) && s.dist[u] + w(n) <= s.dist[n]
  }

  /** Every step out of `u` has been taken into account at `u`'s current distance. */
  ghost predicate Settled(adj: Adjacency, w: NodeWeight, s: State, u: NodeId)
    requires u in s.dist
  {
    forall i {:trigger Accounted(adj, w, s, u, i)} :: 0 <= i < |Next(adj, u)| ==> Accounted(adj, w, s, u, i)
  }

  ghost predicate Accounted(adj: Adjacency, w: NodeWeight, s: State, u: NodeId, i: int)
    requires u in s.dist && 0 <= i < |Next(adj, u)|
  {
    var v := Next(adj, u)[i];
    v in s.dist && s.dist[v] <= s.dist[u] + w(v)
  }

  ghost predicate Queued(h: NodeWeight, s: State, n: NodeId)
    requires n in s.dist
  {
    Entry(n, Priority(h, n, s.dist[n])) in s.heap
  }

  ghost predicate Pending(adj: Adjacency, w: NodeWeight, h: NodeWeight, s: State, n: NodeId)
    requires n in s.dist
  {
    Settled(adj, w, s, n) || Queued(h, s, n)
  }

  ghost predicate TreeOk(adj: Adjacency, w: NodeWeight, s: State, start: NodeId) {
    && start in s.dist && s.dist[start] == 0
    && s.prev.Keys == s.dist.Keys - {start}
    && s.dist.Keys <= Nodes(adj, start)
    && (forall n {:trigger Linked(adj, w, s, n)} :: n in s.prev ==> Linked(adj, w, s, n))
    && (forall n {:trigger Rooted(s, start, n)} :: n in s.dist ==> Rooted(s, start, n))
  }

  /** Between two extractions. The goal is never settled: extracting it ends the search. */
  ghost predicate Invariant(adj: Adjacency, w: NodeWeight, h: NodeWeight, s: State, start: NodeId, goal: NodeId) {
    && TreeOk(adj, w, s, start)
    && (forall n {:trigger Pending(adj, w, h, s, n)} :: n in s.dist ==> Pending(adj, w, h, s, n))
    && (goal in s.dist ==> Queued(h, s, goal))
  }

  /** While the first `i` steps out of `u` have been taken. */
  ghost predicate Taking(adj: Adjacency, w: NodeWeight, h: NodeWeight, s: State, start: NodeId, goal: NodeId,
          u: NodeId, i: nat) {
    && TreeOk(adj, w, s, start) && u in s.dist && u != goal && i <= |Next(adj, u)|
    && (forall n {:trigger Pending(adj, w, h, s, n)} :: n in s.dist && n != u ==> Pending(adj, w, h, s, n))
    && (forall j {:trigger Accounted(adj, w, s, u, j)} :: 0 <= j < i ==> Accounted(adj, w, s, u, j))
    && (goal in s.dist ==> Queued(h, s, goal))
  }

  // ------------------------------------------------- predecessor chains stay rooted

  /** A chain from a node nearer than `v` never passes through `v`, so re-parenting `v` leaves it alone. */
  lemma {:induction false} ChainAvoids(adj: Adjacency, w: NodeWeight, s: State, start: NodeId, n: NodeId, k: nat,
          v: NodeId, u: NodeId)
    requires TreeOk(adj, w, s, start) && n in s.dist && Chain(s.prev, start, n, k)
    requires v in s.dist ==> s.dist[n] < s.dist[v]
    ensures Chain(s.prev[v := u], start, n, k)
    decreases k
  {
    if k > 0 {
      assert Linked(adj, w, s, n);
      ChainAvoids(adj, w, s, start, s.prev[n], k - 1, v, u);
    }
  }

  /** After re-parenting `v` under a rooted `u`, every chain still ends at the start. */
  lemma {:induction false} ChainRedirected(adj: Adjacency, w: NodeWeight, s: State, start: NodeId, n: NodeId, k: nat,
          v: NodeId, u: NodeId, ku: nat)
    returns (k': nat)
    requires TreeOk(adj, w, s, start) && n in s.dist && Chain(s.prev, start, n, k)
    requires v != start && Chain(s.prev[v := u], start, u, ku)
    ensures Chain(s.prev[v := u], start, n, k')
    decreases k
  {
    if n == v {
      k' := ku + 1;
    } else if k == 0 {
      k' := 0;
    } else {
      assert Linked(adj, w, s, n);
      k' := ChainRedirected(adj, w, s, start, s.prev[n], k - 1, v, u, ku);
      k' := k' + 1;
    }
  }

  ghost function Improve(h: NodeWeight, s: State, u: NodeId, v: NodeId, d: nat): State {
    State(s.dist[v := d], s.prev[v := u], s.heap + multiset{Entry(v, Priority(h, v, d))})
  }

  ghost predicate Improves(adj: Adjacency, w: NodeWeight, s: State, u: NodeId, v: NodeId) {
    u in s.dist && (u, v) in Steps(adj) && (v !in s.dist || s.dist[u] + w(v) < s.dist[v])
  }

  lemma ImproveRooted(adj: Adjacency, w: NodeWeight, h: NodeWeight, s: State, start: NodeId, u: NodeId, v: NodeId, n: NodeId)
    requires TreeOk(adj, w, s, start) && Improves(adj, w, s, u, v) && (n in s.dist || n == v)
    ensures Rooted(Improve(h, s, u, v, s.dist[u] + w(v)), start, n)
  {
    assert Rooted(s, start, u);
    var ku: nat :| Chain(s.prev, start, u, ku);
    ChainAvoids(adj, w, s, start, u, ku, v, u);
    if n == v {
      assert Chain(s.prev[v := u], start, v, ku + 1);
    } else {
      assert Rooted(s, start, n);
      var k: nat :| Chain(s.prev, start, n, k);
      var k' := ChainRedirected(adj, w, s, start, n, k, v, u, ku);
    }
  }

  lemma ImproveTreeOk(adj: Adjacency, w: NodeWeight, h: NodeWeight, s: State, start: NodeId, u: NodeId, v: NodeId)
    requires TreeOk(adj, w, s, start) && Improves(adj, w, s, u, v) && v in Nodes(adj, start)
    ensures TreeOk(adj, w, Improve(h, s, u, v, s.dist[u] + w(v)), start)
  {
    var t := Improve(h, s, u, v, s.dist[u] + w(v));
    forall n | n in t.prev ensures Linked(adj, w, t, n) { assert n == v || Linked(adj, w, s, n); }
    forall n | n in t.dist ensures Rooted(t, start, n) { ImproveRooted(adj, w, h, s, start, u, v, n); }
  }

  lemma ImprovePending(adj: Adjacency, w: NodeWeight, h: NodeWeight, s: State, u: NodeId, v: NodeId, n: NodeId)
    requires Improves(adj, w, s, u, v) && n in s.dist && n != v && Pending(adj, w, h, s, n)
    ensures Pending(adj, w, h, Improve(h, s, u, v, s.dist[u] + w(v)), n)
  {
    var t := Improve(h, s, u, v, s.dist[u] + w(v));
    if Settled(adj, w, s, n) {
      forall i | 0 <= i < |Next(adj, n)| ensures Accounted(adj, w, t, n, i) { assert Accounted(adj, w, s, n, i); }
    }
  }

  lemma TakeImprove(adj: Adjacency, w: NodeWeight, h: NodeWeight, s: State, start: NodeId, goal: NodeId, u: NodeId,
          i: nat, v: NodeId)
    requires Taking(adj, w, h, s, start, goal, u, i) && i < |Next(adj, u)| && v == Next(adj, u)[i]
    requires v !in s.dist || s.dist[u] + w(v) < s.dist[v]
    ensures Taking(adj, w, h, Improve(h, s, u, v, s.dist[u] + w(v)), start, goal, u, i + 1)
  {
    var t := Improve(h, s, u, v, s.dist[u] + w(v));
    NextIsStep(adj, start, u, i);
    ImproveTreeOk(adj, w, h, s, start, u, v);
    forall n | n in t.dist && n != u
      ensures Pending(adj, w, h, t, n)
    {
      if n == v {
        assert Queued(h, t, v);
      } else {
        ImprovePending(adj, w, h, s, u, v, n);
      }
    }
    forall j | 0 <= j < i + 1 ensures Accounted(adj, w, t, u, j) { assert j == i || Accounted(adj, w, s, u, j); }
    assert goal in t.dist ==> Queued(h, t, goal);
  }

  lemma TakeKeep(adj: Adjacency, w: NodeWeight, h: NodeWeight, s: State, start: NodeId, goal: NodeId, u: NodeId, i: nat)
    requires Taking(adj, w, h, s, start, goal, u, i) && i < |Next(adj, u)|
    requires Next(adj, u)[i] in s.dist && s.dist[Next(adj, u)[i]] <= s.dist[u] + w(Next(adj, u)[i])
    ensures Taking(adj, w, h, s, start, goal, u, i + 1)
  {
    assert Accounted(adj, w, s, u, i);
  }

  lemma TakeAll(adj: Adjacency, w: NodeWeight, h: NodeWeight, s: State, start: NodeId, goal: NodeId, u: NodeId)
    requires Taking(adj, w, h, s, start, goal, u, |Next(adj, u)|)
    ensures Invariant(adj, w, h, s, start, goal)
  {
    assert Settled(adj, w, s, u);
    forall n | n in s.dist ensures Pending(adj, w, h, s, n) { }
  }

  ghost function Drop(s: State, e: Entry): State {
    s.(heap := s.heap - multiset{e})
  }

  lemma DropTreeOk(adj: Adjacency, w: NodeWeight, s: State, start: NodeId, e: Entry)
    requires TreeOk(adj, w, s, start)
    ensures TreeOk(adj, w, Drop(s, e), start)
  {
    var t := Drop(s, e);
    forall n | n in t.prev ensures Linked(adj, w, t, n) { assert Linked(adj, w, s, n); }
    forall n | n in t.dist ensures Rooted(t, start, n) { assert Rooted(s, start, n); }
  }

  lemma DropPending(adj: Adjacency, w: NodeWeight, h: NodeWeight, s: State, e: Entry, n: NodeId)
    requires n in s.dist && Pending(adj, w, h, s, n)
    requires e != Entry(n, Priority(h, n, s.dist[n]))
    ensures Pending(adj, w, h, Drop(s, e), n)
  {
    if Settled(adj, w, s, n) {
      forall i | 0 <= i < |Next(adj, n)| ensures Accounted(adj, w, Drop(s, e), n, i) { assert Accounted(adj, w, s, n, i); }
    }
  }

  /** An entry whose priority is out of date is dropped without effect. */
  lemma DropStale(adj: Adjacency, w: NodeWeight, h: NodeWeight, s: State, start: NodeId, goal: NodeId, e: Entry)
    requires Invariant(adj, w, h, s, start, goal)
    requires e.item in s.dist ==> e.priority != Priority(h, e.item, s.dist[e.item])
    ensures Invariant(adj, w, h, Drop(s, e), start, goal)
  {
    DropTreeOk(adj, w, s, start, e);
    forall n | n in s.dist ensures Pending(adj, w, h, Drop(s, e), n) {
      assert Pending(adj, w, h, s, n);
      DropPending(adj, w, h, s, e, n);
    }
  }

  lemma StartTaking(adj: Adjacency, w: NodeWeight, h: NodeWeight, s: State, start: NodeId, goal: NodeId, e: Entry)
    requires Invariant(adj, w, h, s, start, goal) && e.item in s.dist && e.item != goal
    ensures Taking(adj, w, h, Drop(s, e), start, goal, e.item, 0)
  {
    DropTreeOk(adj, w, s, start, e);
    forall n | n in s.dist && n != e.item ensures Pending(adj, w, h, Drop(s, e), n) {
      assert Pending(adj, w, h, s, n);
      DropPending(adj, w, h, s, e, n);
    }
  }

  // ------------------------------------------------------------- what it proves

  /** Along a walk of settled nodes the distances never exceed the cost. */
  lemma {:induction false} SettledWalk(adj: Adjacency, w: NodeWeight, s: State, start: NodeId, p: seq<NodeId>, k: nat)
    requires TreeOk(adj, w, s, start)
    requires IsWalk(Steps(adj), p) && p[0] == start && k < |p|
    requires forall i :: 0 <= i < k && p[i] in s.dist ==> Settled(adj, w, s, p[i])
    ensures p[k] in s.dist && s.dist[p[k]] <= Cost(w, p[..k + 1])
    decreases k
  {
    if k > 0 {
      SettledWalk(adj, w, s, start, p, k - 1);
      assert EdgeAt(Steps(adj), p, k - 1);
      var i := StepIsNext(adj, p[k - 1], p[k]);
      assert Settled(adj, w, s, p[k - 1]);
      assert Accounted(adj, w, s, p[k - 1], i);
      assert p[..k + 1][..k] == p[..k - 1 + 1];
    }
  }

  /** The first node of the walk that is not settled, or its end. */
  lemma FirstUnsettled(adj: Adjacency, w: NodeWeight, s: State, p: seq<NodeId>) returns (k: nat)
    requires |p| > 0
    ensures k < |p| && forall i :: 0 <= i < k && p[i] in s.dist ==> Settled(adj, w, s, p[i])
    ensures k < |p| - 1 ==> p[k] in s.dist && !Settled(adj, w, s, p[k])
  {
    k := 0;
    while k < |p| - 1 && (p[k] in s.dist ==> Settled(adj, w, s, p[k]))
      invariant k < |p| && forall i :: 0 <= i < k && p[i] in s.dist ==> Settled(adj, w, s, p[i])
    {
      k := k + 1;
    }
  }

  /** Extracting an up-to-date goal entry: with an admissible heuristic its distance is least. */
  lemma GoalIsLeast(adj: Adjacency, w: NodeWeight, h: NodeWeight, s: State, start: NodeId, goal: NodeId, p: seq<NodeId>)
    requires Invariant(adj, w, h, s, start, goal) && goal in s.dist && Admissible(adj, w, h, goal)
    requires IsFirst(false, s.heap, Entry(goal, Priority(h, goal, s.dist[goal])))
    requires WalkFromTo(Steps(adj), p, start, goal)
    ensures s.dist[goal] <= Cost(w, p)
  {
    var k := FirstUnsettled(adj, w, s, p);
    SettledWalk(adj, w, s, start, p, k);
    if k == |p| - 1 {
      assert p[..k + 1] == p;
    } else {
      assert Pending(adj, w, h, s, p[k]);
      CostSplit(w, p, k);
      SplitWalk(Steps(adj), p, k);
    }
  }

  lemma AllSettledReaches(adj: Adjacency, w: NodeWeight, h: NodeWeight, s: State, start: NodeId, goal: NodeId)
    requires Invariant(adj, w, h, s, start, goal) && s.heap == multiset{}
    ensures goal !in s.dist && !Reachable(Steps(adj), start, goal)
  {
    if Reachable(Steps(adj), start, goal) {
      var p :| WalkFromTo(Steps(adj), p, start, goal);
      forall i | 0 <= i < |p| - 1 && p[i] in s.dist ensures Settled(adj, w, s, p[i]) { assert Pending(adj, w, h, s, p[i]); }
      SettledWalk(adj, w, s, start, p, |p| - 1);
    }
  }

  // ---------------------------------------------------------------- termination

  ghost function Sum(m: map<NodeId, nat>): nat
    decreases m.Keys
  {
    if exists k :: k in m.Keys then
      var k :| k in m.Keys;
      m[k] + Sum(m - {k})
    else 0
  }

  lemma {:induction false} SumWithout(m: map<NodeId, nat>, x: NodeId)
    requires x in m
    ensures Sum(m) == m[x] + Sum(m - {x})
    decreases m.Keys
  {
    var k :| k in m.Keys && Sum(m) == m[k] + Sum(m - {k});
    if k != x {
      SumWithout(m - {k}, x);
      SumWithout(m - {x}, k);
      assert m - {k} - {x} == m - {x} - {k};
    }
  }

  /** `t` has discovered more nodes than `s`, or knows the same nodes at smaller distances. */
  ghost predicate Closer(t: State, s: State, all: set<NodeId>) {
    |all - t.dist.Keys| < |all - s.dist.Keys| || (t.dist.Keys == s.dist.Keys && Sum(t.dist) < Sum(s.dist))
  }

  ghost function Unknown(adj: Adjacency, start: NodeId, s: State): nat {
    |Nodes(adj, start) - s.dist.Keys|
  }

  lemma ImproveIsCloser(adj: Adjacency, w: NodeWeight, h: NodeWeight, s: State, u: NodeId, v: NodeId, all: set<NodeId>)
    requires Improves(adj, w, s, u, v) && v in all
    ensures Closer(Improve(h, s, u, v, s.dist[u] + w(v)), s, all)
  {
    var t := Improve(h, s, u, v, s.dist[u] + w(v));
    if v in s.dist {
      SumWithout(s.dist, v);
      SumWithout(t.dist, v);
      assert s.dist - {v} == t.dist - {v};
      assert t.dist.Keys == s.dist.Keys;
    } else {
      assert all - s.dist.Keys == (all - t.dist.Keys) + {v};
    }
  }

  /** The state after the `i`-th step out of `u` was looked at. */
  ghost function AfterStep(adj: Adjacency, w: NodeWeight, h: NodeWeight, s: State, u: NodeId, i: nat): State
    requires u in s.dist && i < |Next(adj, u)|
  {
    var v := Next(adj, u)[i];
    if v !in s.dist || s.dist[u] + w(v) < s.dist[v] then Improve(h, s, u, v, s.dist[u] + w(v)) else s
  }

  lemma TakeStepOk(adj: Adjacency, w: NodeWeight, h: NodeWeight, s: State, start: NodeId, goal: NodeId, u: NodeId, i: nat)
    requires Taking(adj, w, h, s, start, goal, u, i) && i < |Next(adj, u)|
    ensures Taking(adj, w, h, AfterStep(adj, w, h, s, u, i), start, goal, u, i + 1)
    ensures AfterStep(adj, w, h, s, u, i) == s || Closer(AfterStep(adj, w, h, s, u, i), s, Nodes(adj, start))
  {
    var v := Next(adj, u)[i];
    if v !in s.dist || s.dist[u] + w(v) < s.dist[v] {
      NextIsStep(adj, start, u, i);
      TakeImprove(adj, w, h, s, start, goal, u, i, v);
      ImproveIsCloser(adj, w, h, s, u, v, Nodes(adj, start));
    } else {
      TakeKeep(adj, w, h, s, start, goal, u, i);
    }
  }

  // ------------------------------------------------------------------ the search

  /** The walk that following `prev` from `n` for `k` hops spells, start first. */
  ghost function ChainWalk(prev: map<NodeId, NodeId>, n: NodeId, k: nat): seq<NodeId>
    decreases k
  {
    if k == 0 || n !in prev then [n] else ChainWalk(prev, prev[n], k - 1) + [n]
  }

  lemma {:induction false} ChainWalkOk(adj: Adjacency, w: NodeWeight, s: State, start: NodeId, n: NodeId, k: nat)
    requires TreeOk(adj, w, s, start) && n in s.dist && Chain(s.prev, start, n, k)
    ensures WalkFromTo(Steps(adj), ChainWalk(s.prev, n, k), start, n)
    ensures Cost(w, ChainWalk(s.prev, n, k)) <= s.dist[n]
    decreases k
  {
    if k > 0 {
      assert Linked(adj, w, s, n);
      var u := s.prev[n];
      ChainWalkOk(adj, w, s, start, u, k - 1);
      var p := ChainWalk(s.prev, u, k - 1);
      ExtendWalk(Steps(adj), p, start, u, n);
      assert (p + [n])[..|p + [n]| - 1] == p;
    }
  }

  /** Follows `prev` back from `goal`; the empty path when that does not lead to the start. */
  method ReconstructPath(prev: map<NodeId, NodeId>, start: NodeId, goal: NodeId, ghost k: nat,
          ghost rooted: bool) returns (path: seq<NodeId>)
    requires rooted ==> Chain(prev, start, goal, k)
    requires !rooted ==> goal != start && goal !in prev
    ensures path == if rooted then ChainWalk(prev, goal, k) else []
  {
    var collected := [];
    var current := Some(goal);
    ghost var left := k;
    while current.Some?
      invariant !rooted ==> (current == Some(goal) && collected == []) || (current == None && collected == [goal])
      invariant rooted && current.Some? ==> Chain(prev, start, current.value, left)
      invariant rooted && current.Some? ==> ChainWalk(prev, goal, k) == ChainWalk(prev, current.value, left) + Reverse(collected)
      invariant rooted ==> current.Some?
      decreases current.Some?, left
    {
      var node := current.value;
      assert Reverse(collected + [node]) == [node] + Reverse(collected);
      collected := collected + [node];
      if node == start {
        break;
      }
      current := if node in prev then Some(prev[node]) else None;
      left := if rooted then left - 1 else left;
    }
    if collected[|collected| - 1] != start {
      return [];
    }
    path := Reverse(collected);
  }

  method TakeStep(adj: Adjacency, w: NodeWeight, h: NodeWeight, dist0: map<NodeId, nat>, prev0: map<NodeId, NodeId>,
                  pq: MinHeap, node: NodeId, i: nat, ghost s0: State)
      returns (dist: map<NodeId, nat>, prev: map<NodeId, NodeId>, ghost s: State)
    requires pq.Valid() && s0 == State(dist0, prev0, pq.Contents()) && node in dist0 && i < |Next(adj, node)|
    modifies pq
    ensures pq.Valid() && s == State(dist, prev, pq.Contents())
    ensures s == AfterStep(adj, w, h, s0, node, i)
  {
    dist, prev, s := dist0, prev0, s0;
    var v := Next(adj, node)[i];
    var nextDist := dist[node] + w(v);
    if v !in dist || nextDist < dist[v] {
      s := Improve(h, s, node, v, nextDist);
      dist := dist[v := nextDist];
      prev := prev[v := node];
      pq.Insert(v, Priority(h, v, nextDist));
    }
  }

  /** Takes every step out of the node just extracted, pushing whatever it improves. */
  method TakeSteps(adj: Adjacency, w: NodeWeight, h: NodeWeight, dist0: map<NodeId, nat>, prev0: map<NodeId, NodeId>,
                   pq: MinHeap, node: NodeId, ghost start: NodeId, ghost goal: NodeId, ghost s0: State)
      returns (dist: map<NodeId, nat>, prev: map<NodeId, NodeId>, ghost s: State)
    requires pq.Valid() && s0 == State(dist0, prev0, pq.Contents())
    requires Taking(adj, w, h, s0, start, goal, node, 0)
    modifies pq
    ensures pq.Valid() && s == State(dist, prev, pq.Contents())
    ensures Invariant(adj, w, h, s, start, goal)
    ensures s == s0 || Closer(s, s0, Nodes(adj, start))
  {
    dist, prev, s := dist0, prev0, s0;
    for i := 0 to |Next(adj, node)|
      invariant pq.Valid() && s == State(dist, prev, pq.Contents())
      invariant Taking(adj, w, h, s, start, goal, node, i)
      invariant s == s0 || Closer(s, s0, Nodes(adj, start))
    {
      TakeStepOk(adj, w, h, s, start, goal, node, i);
      dist, prev, s := TakeStep(adj, w, h, dist, prev, pq, node, i, s);
    }
    TakeAll(adj, w, h, s, start, goal, node);
  }

  lemma InitialOk(adj: Adjacency, w: NodeWeight, h: NodeWeight, start: NodeId, goal: NodeId, s: State)
    requires s == State(map[start := 0], map[], multiset{Entry(start, Priority(h, start, 0))})
    ensures Invariant(adj, w, h, s, start, goal)
  {
    assert Chain(s.prev, start, start, 0);
    assert Rooted(s, start, start);
    assert Queued(h, s, start);
    assert Pending(adj, w, h, s, start);
  }

  /** Every turn makes progress: new nodes, else smaller distances, else a shorter queue. */
  lemma StepDecreases(adj: Adjacency, start: NodeId, s: State, t: State, e: Entry)
    requires e in s.heap && (t == Drop(s, e) || Closer(t, Drop(s, e), Nodes(adj, start)))
    ensures (Unknown(adj, start, s), Sum(s.dist), |s.heap| decreases to Unknown(adj, start, t), Sum(t.dist), |t.heap|)
  {
  }

  /** One turn of the main loop; `arrived` when the extracted entry is the goal's current one. */
  method Turn(adj: Adjacency, w: NodeWeight, h: NodeWeight, goal: NodeId, dist0: map<NodeId, nat>, prev0: map<NodeId, NodeId>,
              pq: MinHeap, ghost start: NodeId, ghost s0: State)
      returns (arrived: bool, dist: map<NodeId, nat>, prev: map<NodeId, NodeId>, ghost s: State)
    requires pq.Valid() && !pq.tieBreak && s0 == State(dist0, prev0, pq.Contents()) && s0.heap != multiset{}
    requires Invariant(adj, w, h, s0, start, goal)
    modifies pq
    ensures pq.Valid() && s.dist == dist && s.prev == prev
    ensures arrived ==> s == s0 && Arrived(h, goal, s)
    ensures !arrived ==> s.heap == pq.Contents() && Invariant(adj, w, h, s, start, goal)
    ensures !arrived ==> (Unknown(adj, start, s0), Sum(s0.dist), |s0.heap| decreases to Unknown(adj, start, s), Sum(s.dist), |s.heap|)
  {
    dist, prev, s := dist0, prev0, s0;
    var top := pq.ExtractMin();
    var node := top.value.item;
    if node !in dist || top.value.priority != Priority(h, node, dist[node]) {
      DropStale(adj, w, h, s, start, goal, top.value);
      StepDecreases(adj, start, s0, Drop(s0, top.value), top.value);
      return false, dist, prev, Drop(s, top.value);
    }
    if node == goal {
      return true, dist, prev, s;
    }
    StartTaking(adj, w, h, s, start, goal, top.value);
    arrived := false;
    dist, prev, s := TakeSteps(adj, w, h, dist, prev, pq, node, start, goal, Drop(s, top.value));
    StepDecreases(adj, start, s0, s, top.value);
  }

  /** What the final state says about the path handed out. */
  ghost predicate Answers(adj: Adjacency, w: NodeWeight, h: NodeWeight, start: NodeId, goal: NodeId, r: Result) {
    && (r.path == [] <==> !Reachable(Steps(adj), start, goal))
    && (r.totalCost.None? <==> !Reachable(Steps(adj), start, goal))
    && (r.path != [] ==> WalkFromTo(Steps(adj), r.path, start, goal) && Cost(w, r.path) <= r.totalCost.value)
    && (r.path != [] && Admissible(adj, w, h, goal) ==>
          Cost(w, r.path) == r.totalCost.value
          && forall p :: WalkFromTo(Steps(adj), p, start, goal) ==> r.totalCost.value <= Cost(w, p))
  }

  ghost predicate Arrived(h: NodeWeight, goal: NodeId, s: State) {
    goal in s.dist && IsFirst(false, s.heap, Entry(goal, Priority(h, goal, s.dist[goal])))
  }

  lemma ArrivedAnswers(adj: Adjacency, w: NodeWeight, h: NodeWeight, start: NodeId, goal: NodeId, s: State) returns (k: nat)
    requires Invariant(adj, w, h, s, start, goal) && Arrived(h, goal, s)
    ensures Chain(s.prev, start, goal, k)
    ensures Answers(adj, w, h, start, goal, Result(ChainWalk(s.prev, goal, k), Some(s.dist[goal])))
  {
    assert Rooted(s, start, goal);
    k :| Chain(s.prev, start, goal, k);
    ChainWalkOk(adj, w, s, start, goal, k);
    if Admissible(adj, w, h, goal) {
      forall p | WalkFromTo(Steps(adj), p, start, goal) ensures s.dist[goal] <= Cost(w, p) {
        GoalIsLeast(adj, w, h, s, start, goal, p);
      }
    }
  }

  /** The main loop: until the goal is extracted or the queue is empty. */
  method Explore(adj: Adjacency, w: NodeWeight, h: NodeWeight, start: NodeId, goal: NodeId)
      returns (arrived: bool, dist: map<NodeId, nat>, prev: map<NodeId, NodeId>, ghost s: State)
    ensures s.dist == dist && s.prev == prev
    ensures Invariant(adj, w, h, s, start, goal) && (if arrived then Arrived(h, goal, s) else s.heap == multiset{})
  {
    dist, prev := map[start := 0], map[];
    var pq := new MinHeap(false);
    pq.Insert(start, Priority(h, start, 0));
    s := State(dist, prev, pq.Contents());
    InitialOk(adj, w, h, start, goal, s);
    var empty := false;
    while !empty
      invariant pq.Valid() && !pq.tieBreak && s == State(dist, prev, pq.Contents())
      invariant empty <==> s.heap == multiset{}
      invariant Invariant(adj, w, h, s, start, goal)
      decreases Unknown(adj, start, s), Sum(s.dist), |s.heap|
    {
      arrived, dist, prev, s := Turn(adj, w, h, goal, dist, prev, pq, start, s);
      if arrived {
        return;
      }
      empty := pq.IsEmpty();
    }
    arrived := false;
  }

  method AStar(adj: Adjacency, w: NodeWeight, h: NodeWeight, start: NodeId, goal: NodeId) returns (r: Result)
    ensures Answers(adj, w, h, start, goal, r)
  {
    var arrived, dist, prev;
    ghost var s;
    arrived, dist, prev, s := Explore(adj, w, h, start, goal);
    ghost var k := 0;
    if arrived {
      k := ArrivedAnswers(adj, w, h, start, goal, s);
    } else {
      AllSettledReaches(adj, w, h, s, start, goal);
    }
    var path := ReconstructPath(prev, start, goal, k, arrived);
    r := Result(path, if goal in dist then Some(dist[goal]) else None);
  }

  /** Dijkstra's search of the same example is this one with the zero heuristic, which is always admissible. */
  method Dijkstra(adj: Adjacency, w: NodeWeight, start: NodeId, goal: NodeId) returns (r: Result)
    ensures r.path == [] <==> !Reachable(Steps(adj), start, goal)
    ensures r.path != [] ==>
              && WalkFromTo(Steps(adj), r.path, start, goal) && r.totalCost == Some(Cost(w, r.path))
              && forall p :: WalkFromTo(Steps(adj), p, start, goal) ==> Cost(w, r.path) <= Cost(w, p)
  {
    var h: NodeWeight := n => 0;
    assert Admissible(adj, w, h, goal);
    r := AStar(adj, w, h, start, goal);
  }
}
