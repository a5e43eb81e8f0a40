/** Bidirectional A*: one search over the outgoing lists from the start, one over the incoming lists from
    the goal, stopped when the lesser of the two least keys reaches the best meeting cost `mu`. */
module Bidirectional {
  import opened Graphs
  import opened MinHeaps
  import opened BestFirst
  import opened WeightedSearch
  import opened SearchOrder
  import opened BothWays

  /** The best meeting found so far: its cost and node. */
  datatype Meeting = Meeting(mu: Option<real>, node: NodeId)

  ghost predicate NoBetter(d: map<NodeId, real>, other: map<NodeId, real>, b: Meeting, n: NodeId)
    requires n in d && n in other
  {
    b.mu.Some? && b.mu.value <= d[n] + other[n]
  }

  /** `mu` is the least cost of meeting at a node both searches know, and `node` attains it. */
  ghost predicate BestMeeting(d: map<NodeId, real>, other: map<NodeId, real>, b: Meeting) {
    && (b.mu.Some? ==> b.node in d && b.node in other && d[b.node] + other[b.node] == b.mu.value)
    && (forall n {:trigger NoBetter(d, other, b, n)} :: n in d && n in other ==> NoBetter(d, other, b, n))
  }

  ghost predicate NotBefore(d: map<NodeId, real>, other: map<NodeId, real>, b: Meeting, n: NodeId)
    requires n in d && n in other
  {
    b.mu.Some? && d[n] + other[n] == b.mu.value ==> b.node <= n
  }

  /** Of the nodes at which meeting is as cheap, the smallest is kept. */
  ghost predicate LeastMeeting(d: map<NodeId, real>, other: map<NodeId, real>, b: Meeting) {
    forall n {:trigger NotBefore(d, other, b, n)} :: n in d && n in other ==> NotBefore(d, other, b, n)
  }

  /** The best meeting, and with `tie` the smallest of the best. */
  ghost predicate Keeps(d: map<NodeId, real>, other: map<NodeId, real>, b: Meeting, tie: bool) {
    BestMeeting(d, other, b) && (tie ==> LeastMeeting(d, other, b))
  }

  /** A one-sided search between two expansions. */
  ghost predicate SideOk(g: Graph, w: Weight, c: Costs, s: Search, k: Policy) {
    Outer(g, w, c, s, k) && (Fair(c, k) ==> Bounded(c, s, k))
  }

  ghost predicate SideExpanding(g: Graph, w: Weight, c: Costs, s: Search, k: Policy, u: NodeId, i: nat) {
    Inner(g, w, c, s, k, u, i) && (Fair(c, k) ==> Bounded(c, s, k))
  }

  lemma SideStart(g: Graph, w: Weight, c: Costs, start: NodeId, k: Policy)
    requires Prices(g, w, c)
    ensures SideOk(g, w, c, Initial(start, k), k)
  {
    InitialOk(c, start, k);
  }

  lemma SideSkip(g: Graph, w: Weight, c: Costs, s: Search, k: Policy, tie: bool, e: Entry)
    requires SideOk(g, w, c, s, k) && IsFirst(tie, s.heap, e) && e.item in s.closed
    ensures SideOk(g, w, c, Drop(s, e), k)
  {
    DropStale(g, w, c, s, k, e);
  }

  lemma SideEnter(g: Graph, w: Weight, c: Costs, s: Search, k: Policy, tie: bool, e: Entry)
    requires SideOk(g, w, c, s, k) && IsFirst(tie, s.heap, e) && e.item !in s.closed
    ensures SideExpanding(g, w, c, Close(s, e), k, e.item, 0) && e.item in s.dist
  {
    EnterInner(g, w, c, s, k, e);
    if Fair(c, k) {
      CloseKeepsBounded(c, s, k, e);
    }
  }

  lemma SideEntry(g: Graph, w: Weight, c: Costs, s: Search, k: Policy, tie: bool, u: NodeId, i: nat)
    requires SideExpanding(g, w, c, s, k, u, i) && i < |Out(g, u)|
    ensures SideExpanding(g, w, c, After(g, w, s, k, tie, u, i), k, u, i + 1)
    ensures After(g, w, s, k, tie, u, i).closed == s.closed
  {
    InnerStep(g, w, c, s, k, tie, u, i);
  }

  lemma SideLeave(g: Graph, w: Weight, c: Costs, s: Search, k: Policy, u: NodeId)
    requires SideExpanding(g, w, c, s, k, u, |Out(g, u)|)
    ensures SideOk(g, w, c, s, k)
  {
    LeaveInner(g, w, c, s, k, u);
  }

  lemma SideFits(g: Graph, w: Weight, c: Costs, s: Search, k: Policy)
    requires SideOk(g, w, c, s, k) && c.Keys == EdgesOf(g)
    ensures |s.closed| <= |ReachSet(g, s.start)|
    ensures |s.closed| == |ReachSet(g, s.start)| ==> s.closed == ReachSet(g, s.start)
  {
    forall n | n in s.closed ensures n in ReachSet(g, s.start) { DiscoveredIsReachable(g, c, s, n); }
    SubsetCard(s.closed, ReachSet(g, s.start));
  }

  /** `s` is `s0` after its next node `u` was closed, whose key is least in the heap. */
  ghost predicate JustClosed(k: Policy, tie: bool, s0: Search, s: Search, u: NodeId) {
    && IsNext(k, tie, NoHeap(s0), u) && NoHeap(s) == CloseNode(NoHeap(s0), u)
    && forall e :: e in s0.heap ==> Key(k, u, s0.dist[u]) <= e.priority
  }

  lemma NextIsClosed(g: Graph, w: Weight, c: Costs, s: Search, k: Policy, tie: bool, e: Entry)
    requires SideOk(g, w, c, s, k) && IsFirst(tie, s.heap, e) && e.item !in s.closed
    ensures JustClosed(k, tie, s, Close(s, e), e.item)
  {
    FirstIsNext(g, w, c, s, k, tie, e);
    assert NotEarly(s, k, e);
  }

  /** The whole expansion of a node, as a function of the costs. */
  ghost predicate Expands(c: Costs, k: Policy, tie: bool, s0: Search, s: Search, u: NodeId) {
    && IsNext(k, tie, NoHeap(s0), u) && NoHeap(s) == CloseAndExpand(c, NoHeap(s0), u, tie)
    && forall e :: e in s0.heap ==> Key(k, u, s0.dist[u]) <= e.priority
  }

  lemma ExpansionEnds(g: Graph, w: Weight, c: Costs, k: Policy, tie: bool, s0: Search, s1: Search, s: Search, u: NodeId)
    requires Prices(g, w, c) && JustClosed(k, tie, s0, s1, u) && ReplayedUpTo(g, w, tie, NoHeap(s1), s, u, |Out(g, u)|)
    ensures Expands(c, k, tie, s0, s, u)
  {
    RowIsPriced(g, w, c, u);
    ExpandedIsExpand(Row(c, u), NoHeap(s1), s, u, tie);
    assert NoHeap(NoHeap(s1)) == CloseNode(NoHeap(s0), u);
  }

  /** Takes the meeting at `n` when it is cheaper, or with `tie` as cheap at a smaller node. */
  function Offer(b: Meeting, tie: bool, n: NodeId, cost: real): (r: Meeting)
    ensures r.mu.Some? && r.mu.value <= cost
    ensures b.mu.Some? ==> r.mu.value <= b.mu.value
    ensures r == b || r == Meeting(Some(cost), n)
  {
    if b.mu.None? || cost < b.mu.value || (tie && cost == b.mu.value && n < b.node) then Meeting(Some(cost), n) else b
  }

  lemma OfferKnown(d: map<NodeId, real>, other: map<NodeId, real>, b: Meeting, tie: bool, n: NodeId)
    requires BestMeeting(d, other, b) && n in d && n in other
    ensures BestMeeting(d, other, Offer(b, tie, n, d[n] + other[n]))
  {
    assert NoBetter(d, other, b, n);
    var r := Offer(b, tie, n, d[n] + other[n]);
    forall x | x in d && x in other ensures NoBetter(d, other, r, x) { assert NoBetter(d, other, b, x); }
  }

  lemma OfferKnownLeast(d: map<NodeId, real>, other: map<NodeId, real>, b: Meeting, tie: bool, n: NodeId)
    requires Keeps(d, other, b, tie) && n in d && n in other
    ensures Keeps(d, other, Offer(b, tie, n, d[n] + other[n]), tie)
  {
    OfferKnown(d, other, b, tie, n);
    var r := Offer(b, tie, n, d[n] + other[n]);
    if tie {
      forall x | x in d && x in other ensures NotBefore(d, other, r, x) { assert NotBefore(d, other, b, x) && NoBetter(d, other, b, x); }
    }
  }

  /** Keeping the best meeting when the distance of `v` is first set or improved. */
  lemma OfferImproved(d: map<NodeId, real>, other: map<NodeId, real>, b: Meeting, tie: bool, v: NodeId, alt: real)
    requires BestMeeting(d, other, b) && (v in d ==> alt <= d[v])
    ensures v in other ==> BestMeeting(d[v := alt], other, Offer(b, tie, v, alt + other[v]))
    ensures v !in other ==> BestMeeting(d[v := alt], other, b)
  {
    var d' := d[v := alt];
    if v in other {
      var r := Offer(b, tie, v, alt + other[v]);
      if v in d { assert NoBetter(d, other, b, v); }
      forall x | x in d' && x in other ensures NoBetter(d', other, r, x) { assert x == v || NoBetter(d, other, b, x); }
    } else {
      forall x | x in d' && x in other ensures NoBetter(d', other, b, x) { assert NoBetter(d, other, b, x); }
    }
  }

  lemma OfferImprovedLeast(d: map<NodeId, real>, other: map<NodeId, real>, b: Meeting, tie: bool, v: NodeId, alt: real)
    requires Keeps(d, other, b, tie) && (v in d ==> alt <= d[v])
    ensures v in other ==> Keeps(d[v := alt], other, Offer(b, tie, v, alt + other[v]), tie)
    ensures v !in other ==> Keeps(d[v := alt], other, b, tie)
  {
    OfferImproved(d, other, b, tie, v, alt);
    var d' := d[v := alt];
    if tie {
      var r := if v in other then Offer(b, tie, v, alt + other[v]) else b;
      forall x | x in d' && x in other
        ensures NotBefore(d', other, r, x)
      {
        if x != v { assert NotBefore(d, other, b, x) && NoBetter(d, other, b, x); }
      }
    }
  }

  /** Extracts a node of one side: a stale entry is dropped, otherwise the node is closed. */
  method CloseNext(g: Graph, w: Weight, k: Policy, tie: bool, m0: Maps, pq: MinHeap, ghost c: Costs, ghost s0: Search)
      returns (explored: bool, current: NodeId, m: Maps, ghost s: Search)
    requires pq.Valid() && pq.tieBreak == tie && pq.Contents() == s0.heap && s0.heap != multiset{}
    requires Shows(s0, s0.start, m0) && SideOk(g, w, c, s0, k)
    modifies pq
    ensures pq.Valid() && pq.Contents() == s.heap
    ensures Shows(s, s0.start, m) && m.dist == m0.dist
    ensures explored ==> SideExpanding(g, w, c, s, k, current, 0) && |m.visited| == |m0.visited| + 1
    ensures explored ==> current in m.dist && JustClosed(k, tie, s0, s, current)
    ensures !explored ==> NoHeap(s) == NoHeap(s0)
    ensures !explored ==> SideOk(g, w, c, s, k) && m.visited == m0.visited && |s.heap| < |s0.heap|
  {
    m := m0;
    var top := pq.ExtractMin();
    current := top.value.item;
    explored := current !in m.visited;
    if explored {
      SideEnter(g, w, c, s0, k, tie, top.value);
      NextIsClosed(g, w, c, s0, k, tie, top.value);
      AddOne(m.visited, current);
      s := Close(s0, top.value);
      m := m.(visited := m.visited + {current});
    } else {
      SideSkip(g, w, c, s0, k, tie, top.value);
      s := Drop(s0, top.value);
    }
  }

  /** Looks at one neighbour-list entry and, when it improves its node, offers that node as a meeting. */
  method RelaxAndOffer(g: Graph, w: Weight, k: Policy, tie: bool, m0: Maps, pq: MinHeap, other: Maps, b0: Meeting,
                       current: NodeId, i: nat, ghost c: Costs, ghost s0: Search)
      returns (m: Maps, b: Meeting, ghost s: Search)
    requires pq.Valid() && pq.Contents() == s0.heap
    requires Shows(s0, s0.start, m0) && Inner(g, w, c, s0, k, current, i) && i < |Out(g, current)|
    requires Keeps(m0.dist, other.dist, b0, tie)
    modifies pq
    ensures pq.Valid() && pq.Contents() == s.heap
    ensures Shows(s, s0.start, m) && s == After(g, w, s0, k, tie, current, i)
    ensures Keeps(m.dist, other.dist, b, tie)
  {
    var improved;
    improved, m, s := RelaxEntry(g, w, k, tie, m0, pq, current, i, c, s0);
    b := b0;
    if improved {
      var v := Out(g, current)[i].to;
      OfferImprovedLeast(m0.dist, other.dist, b, tie, v, m.dist[v]);
      if v in other.dist {
        b := Offer(b, tie, v, m.dist[v] + other.dist[v]);
      }
    }
  }

  /** Looks at every neighbour-list entry of the node just closed. */
  method RelaxAll(g: Graph, w: Weight, k: Policy, tie: bool, m0: Maps, pq: MinHeap, other: Maps, b0: Meeting,
                  u: NodeId, ghost c: Costs, ghost s0: Search)
      returns (m: Maps, b: Meeting, ghost s: Search)
    requires pq.Valid() && pq.Contents() == s0.heap
    requires Shows(s0, s0.start, m0) && SideExpanding(g, w, c, s0, k, u, 0) && Keeps(m0.dist, other.dist, b0, tie)
    modifies pq
    ensures pq.Valid() && pq.Contents() == s.heap
    ensures Shows(s, s0.start, m) && m.visited == m0.visited
    ensures SideExpanding(g, w, c, s, k, u, |Out(g, u)|) && Keeps(m.dist, other.dist, b, tie)
    ensures ReplayedUpTo(g, w, tie, NoHeap(s0), s, u, |Out(g, u)|)
  {
    m, b, s := m0, b0, s0;
    NothingExpanded(g, w, tie, s0, u);
    for i := 0 to |Out(g, u)|
      invariant pq.Valid() && pq.Contents() == s.heap
      invariant Shows(s, s0.start, m) && m.visited == m0.visited
      invariant SideExpanding(g, w, c, s, k, u, i) && Keeps(m.dist, other.dist, b, tie)
      invariant ReplayedUpTo(g, w, tie, NoHeap(s0), s, u, i)
    {
      SideEntry(g, w, c, s, k, tie, u, i);
      ReplayEntry(g, w, tie, k, NoHeap(s0), s, u, i);
      m, b, s := RelaxAndOffer(g, w, k, tie, m, pq, other, b, u, i, c, s);
    }
  }

  /** Expands one node of one side. `explored` tells whether a node was closed. */
  method Expand(g: Graph, w: Weight, k: Policy, tie: bool, m0: Maps, pq: MinHeap, other: Maps, b0: Meeting,
                ghost c: Costs, ghost s0: Search)
      returns (explored: bool, m: Maps, b: Meeting, ghost s: Search, ghost current: NodeId)
    requires pq.Valid() && pq.tieBreak == tie && pq.Contents() == s0.heap && s0.heap != multiset{}
    requires Shows(s0, s0.start, m0) && SideOk(g, w, c, s0, k)
    requires Keeps(m0.dist, other.dist, b0, tie) && other.visited <= other.dist.Keys
    modifies pq
    ensures pq.Valid() && pq.Contents() == s.heap
    ensures Shows(s, s0.start, m) && SideOk(g, w, c, s, k)
    ensures Keeps(m.dist, other.dist, b, tie)
    ensures explored ==> Expands(c, k, tie, s0, s, current)
    ensures !explored ==> NoHeap(s) == NoHeap(s0)
    ensures explored ==> |m.visited| == |m0.visited| + 1
    ensures !explored ==> m.visited == m0.visited && |s.heap| < |s0.heap|
  {
    var u;
    explored, u, m, s := CloseNext(g, w, k, tie, m0, pq, c, s0);
    current := u;
    b := b0;
    if !explored {
      return;
    }
    if u in other.visited {
      OfferKnownLeast(m.dist, other.dist, b, tie, u);
      b := Offer(b, tie, u, m.dist[u] + other.dist[u]);
    }
    ghost var s1 := s;
    m, b, s := RelaxAll(g, w, k, tie, m, pq, other, b, u, c, s);
    SideLeave(g, w, c, s, k, u);
    ExpansionEnds(g, w, c, k, tie, s0, s1, s, u);
  }

  // ---------------------------------------------------------------- stopping

  /** Nothing left on this side can lead to a meeting cheaper than `b`. */
  ghost predicate Exhausted(s: Search, b: Meeting) {
    forall e :: e in s.heap ==> b.mu.Some? && b.mu.value <= e.priority
  }

  ghost predicate SideStopped(g: Graph, s: Search, b: Meeting) {
    Exhausted(s, b) || s.closed == ReachSet(g, s.start)
  }

  /** One side with a consistent heuristic that does not overrate the goal is enough for `mu` to be least. */
  lemma StoppedIsLeast(g: Graph, w: Weight, c: Costs, s: Search, k: Policy, other: map<NodeId, real>, b: Meeting,
                       goal: NodeId, p: seq<NodeId>)
    requires SideOk(g, w, c, s, k) && c.Keys == EdgesOf(g) && BestMeeting(s.dist, other, b) && SideStopped(g, s, b)
    requires !k.biased && Consistent(c, k.h) && k.h(goal) <= 0.0
    requires goal in other && other[goal] == 0.0
    requires WalkFromTo(c.Keys, p, s.start, goal)
    ensures b.mu.Some? && b.mu.value <= PathCost(c, p)
  {
    if goal in s.closed {
      assert NoBetter(s.dist, other, b, goal);
      assert Discount(k, s.dist[goal]) <= PathCost(c, p);
    } else {
      var i := FrontierIsBounded(c, s, k, p, goal);
      DiscoveredIsReachable(g, c, s, p[i]);
      assert InHeap(s, k, p[i]);
      ConsistentAlong(c, k.h, p[i..]);
    }
  }

  lemma StoppedUnmet(g: Graph, w: Weight, c: Costs, s: Search, k: Policy, other: map<NodeId, real>, b: Meeting, goal: NodeId)
    requires SideOk(g, w, c, s, k) && c.Keys == EdgesOf(g) && BestMeeting(s.dist, other, b) && SideStopped(g, s, b)
    requires goal in other && b.mu.None?
    ensures !Reachable(c.Keys, s.start, goal)
  {
    assert goal in s.dist ==> NoBetter(s.dist, other, b, goal);
    if Reachable(c.Keys, s.start, goal) {
      StoppedEarly(g, c, s, k, goal);
    }
  }

  /** The walk through the meeting costs `mu`. */
  lemma MeetingWalk(c: Costs, back: Costs, sf: Search, sb: Search, b: Meeting)
    requires TreeOk(c, sf) && Relaxed(c, sf, {}) && TreeOk(back, sb) && Relaxed(back, sb, {})
    requires ReverseCosts(c, back) && BestMeeting(sf.dist, sb.dist, b) && b.mu.Some?
    ensures WalkFromTo(c.Keys, Through(sf.tree[b.node], sb.tree[b.node]), sf.start, sb.start)
    ensures PathCost(c, Through(sf.tree[b.node], sb.tree[b.node])) == b.mu.value
  {
    TreeIsExact(c, sf, b.node);
    TreeIsExact(back, sb, b.node);
    ReverseWalk(c, back, sb.tree[b.node]);
    PathCostJoin(c, sf.tree[b.node], Reverse(sb.tree[b.node]), sf.start, b.node, sb.start);
  }

  /** A cheapest walk of the reversed graph is a cheapest walk. */
  lemma ReversedLowerBound(c: Costs, back: Costs, total: real, s: NodeId, t: NodeId)
    requires ReverseCosts(c, back)
    requires forall q :: WalkFromTo(back.Keys, q, t, s) ==> total <= PathCost(back, q)
    ensures forall p :: WalkFromTo(c.Keys, p, s, t) ==> total <= PathCost(c, p)
  {
    assert ReverseCosts(back, c);
    forall p | WalkFromTo(c.Keys, p, s, t)
      ensures total <= PathCost(c, p)
    {
      ReverseWalk(back, c, p);
      assert WalkFromTo(back.Keys, Reverse(p), t, s);
    }
  }

  // ------------------------------------------------------------- the searches

  /** Walks the forward predecessors back from the meeting, then the backward map on to the goal. */
  method ReconstructBiPath(prev: map<NodeId, NodeId>, next: map<NodeId, NodeId>, start: NodeId, goal: NodeId, meeting: NodeId,
                           ghost c: Costs, ghost back: Costs, ghost sf: Search, ghost sb: Search) returns (path: seq<NodeId>)
    requires TreeOk(c, sf) && sf.prev == prev && sf.start == start && meeting in sf.dist
    requires TreeOk(back, sb) && sb.prev == next && sb.start == goal && meeting in sb.dist
    ensures path == Through(sf.tree[meeting], sb.tree[meeting])
  {
    path := ReconstructPath(prev, start, meeting, c, sf);
    var cur := meeting;
    assert Reached(back, sb, meeting);
    ghost var rest := Reverse(sb.tree[cur])[1..];
    while cur != goal
      invariant cur in sb.dist && Reached(back, sb, cur)
      invariant rest == Reverse(sb.tree[cur])[1..]
      invariant path + rest == Through(sf.tree[meeting], sb.tree[meeting])
      decreases |sb.tree[cur]|
    {
      assert Linked(back, sb, cur);
      if cur !in next {
        break;
      }
      var following := next[cur];
      assert Reached(back, sb, following);
      assert Reverse(sb.tree[cur]) == [cur] + Reverse(sb.tree[following]);
      assert rest == [following] + Reverse(sb.tree[following])[1..];
      rest := rest[1..];
      cur := following;
      path := path + [cur];
    }
    assert rest == [];
  }

  /** Both searches side by side, and what the loop knows about them. */
  ghost predicate BothOk(out: Graph, inn: Graph, w: Weight, c: Costs, back: Costs, sf: Search, sb: Search,
                         kf: Policy, kb: Policy, start: NodeId, goal: NodeId, b: Meeting) {
    && c.Keys == EdgesOf(out) && back.Keys == EdgesOf(inn)
    && SideOk(out, w, c, sf, kf) && SideOk(inn, Flip(w), back, sb, kb)
    && sf.start == start && sb.start == goal
    && BestMeeting(sf.dist, sb.dist, b)
  }

  lemma MeetingSym(d: map<NodeId, real>, other: map<NodeId, real>, b: Meeting)
    requires BestMeeting(d, other, b)
    ensures BestMeeting(other, d, b)
  {
    forall n | n in other && n in d ensures NoBetter(other, d, b, n) { assert NoBetter(d, other, b, n); }
  }

  /** `kf` or `kb` guides its search soundly. */
  ghost predicate Guided(c: Costs, back: Costs, hf: Heuristic, hb: Heuristic, start: NodeId, goal: NodeId) {
    (Consistent(c, hf) && hf(goal) <= 0.0) || (Consistent(back, hb) && hb(start) <= 0.0)
  }

  /** The limit lies above everything the two searches could explore. */
  ghost predicate Unlimited(out: Graph, inn: Graph, start: NodeId, goal: NodeId, limit: Option<nat>) {
    limit.None? || |ReachSet(out, start)| + |ReachSet(inn, goal)| <= limit.value
  }

  lemma ForwardReady(out: Graph, inn: Graph, w: Weight, c: Costs, back: Costs, sf: Search, sb: Search,
                     kf: Policy, kb: Policy, b: Meeting)
    requires BothOk(out, inn, w, c, back, sf, sb, kf, kb, sf.start, sb.start, b)
    ensures SideOk(out, w, c, sf, kf) && BestMeeting(sf.dist, sb.dist, b) && sb.closed <= sb.dist.Keys
  {
  }

  lemma BackwardReady(out: Graph, inn: Graph, w: Weight, c: Costs, back: Costs, sf: Search, sb: Search,
                      kf: Policy, kb: Policy, b: Meeting)
    requires BothOk(out, inn, w, c, back, sf, sb, kf, kb, sf.start, sb.start, b)
    ensures SideOk(inn, Flip(w), back, sb, kb) && BestMeeting(sb.dist, sf.dist, b) && sf.closed <= sf.dist.Keys
  {
    MeetingSym(sf.dist, sb.dist, b);
  }

  lemma BothFit(out: Graph, inn: Graph, w: Weight, c: Costs, back: Costs, sf: Search, sb: Search,
                kf: Policy, kb: Policy, b: Meeting)
    requires BothOk(out, inn, w, c, back, sf, sb, kf, kb, sf.start, sb.start, b)
    ensures |sf.closed| <= |ReachSet(out, sf.start)| && |sb.closed| <= |ReachSet(inn, sb.start)|
    ensures |sf.closed| + |sb.closed| == |ReachSet(out, sf.start)| + |ReachSet(inn, sb.start)| ==>
              sf.closed == ReachSet(out, sf.start) && sb.closed == ReachSet(inn, sb.start)
  {
    SideFits(out, w, c, sf, kf);
    SideFits(inn, Flip(w), back, sb, kb);
  }

  lemma StoppedFound(out: Graph, inn: Graph, w: Weight, c: Costs, back: Costs, sf: Search, sb: Search,
                     hf: Heuristic, hb: Heuristic, start: NodeId, goal: NodeId, b: Meeting)
    requires BothOk(out, inn, w, c, back, sf, sb, Policy(hf, false), Policy(hb, false), start, goal, b)
    requires ReverseCosts(c, back) && b.mu.Some?
    requires SideStopped(out, sf, b) && SideStopped(inn, sb, b)
    requires Guided(c, back, hf, hb, start, goal)
    ensures forall p :: WalkFromTo(c.Keys, p, start, goal) ==> b.mu.value <= PathCost(c, p)
  {
    if Consistent(c, hf) && hf(goal) <= 0.0 {
      forall p | WalkFromTo(c.Keys, p, start, goal)
        ensures b.mu.value <= PathCost(c, p)
      {
        StoppedIsLeast(out, w, c, sf, Policy(hf, false), sb.dist, b, goal, p);
      }
    } else {
      MeetingSym(sf.dist, sb.dist, b);
      forall q | WalkFromTo(back.Keys, q, goal, start)
        ensures b.mu.value <= PathCost(back, q)
      {
        StoppedIsLeast(inn, Flip(w), back, sb, Policy(hb, false), sf.dist, b, start, q);
      }
      ReversedLowerBound(c, back, b.mu.value, start, goal);
    }
  }

  /** From `start` to itself the empty walk is cheapest when a search is guided soundly. */
  lemma TrivialIsCheapest(c: Costs, back: Costs, hf: Heuristic, hb: Heuristic, start: NodeId)
    requires ReverseCosts(c, back) && Guided(c, back, hf, hb, start, start)
    ensures CheapestWalk(c, [start], start, start)
  {
    if Consistent(c, hf) {
      forall q | WalkFromTo(c.Keys, q, start, start) ensures 0.0 <= PathCost(c, q) { ConsistentAlong(c, hf, q); }
    } else {
      forall q | WalkFromTo(back.Keys, q, start, start) ensures 0.0 <= PathCost(back, q) { ConsistentAlong(back, hb, q); }
      ReversedLowerBound(c, back, 0.0, start, start);
    }
  }

  lemma PeekExhausts(s: Search, b: Meeting, least: Option<real>)
    requires least.None? ==> s.heap == multiset{}
    requires least.Some? ==> forall e :: e in s.heap ==> least.value <= e.priority
    requires least.None? || (b.mu.Some? && least.value >= b.mu.value)
    ensures Exhausted(s, b)
  {
  }

  // ------------------------------------------------- the turns as moves

  ghost function Flat(sf: Search, sb: Search): Sides {
    Sides(NoHeap(sf), NoHeap(sb))
  }

  /** `least` is what the heap shows as its least priority. */
  ghost predicate Shown(heap: multiset<Entry>, least: Option<real>) {
    && (least.None? ==> heap == multiset{})
    && (least.Some? ==> (forall e :: e in heap ==> least.value <= e.priority) && exists e :: e in heap && e.priority == least.value)
  }

  lemma OpenIsShown(s: Search, k: Policy, least: Option<real>, y: NodeId)
    requires HeapOk(s, k) && Shown(s.heap, least) && Open(NoHeap(s), y)
    ensures least.Some? && least.value <= Key(k, y, s.dist[y])
  {
    assert InHeap(s, k, y);
  }

  lemma MeetingsAbove(sf: Search, sb: Search, b: Meeting, x: real)
    requires BestMeeting(sf.dist, sb.dist, b) && (b.mu.Some? ==> x < b.mu.value)
    ensures Below(Flat(sf, sb), x)
  {
    forall n | Common(Flat(sf, sb), n) ensures x < Sum(Flat(sf, sb), n) { assert NoBetter(sf.dist, sb.dist, b, n); }
  }

  ghost predicate MovesOn(c: Costs, back: Costs, kf: Policy, kb: Policy, tie: bool, s: Sides, t: Sides, m: Move) {
    Goes(kf, kb, tie, s, m) && t == BothWays.Moved(c, back, tie, s, m)
  }

  lemma ForwardGoes(c: Costs, back: Costs, kf: Policy, kb: Policy, tie: bool, sf0: Search, sf: Search, sb: Search, b: Meeting,
                    f: Option<real>, r: Option<real>, u: NodeId)
    requires HeapOk(sb, kb) && BestMeeting(sf0.dist, sb.dist, b) && Shown(sf0.heap, f) && Shown(sb.heap, r)
    requires Expands(c, kf, tie, sf0, sf, u) && f.Some? && (r.Some? ==> f.value <= r.value) && (b.mu.Some? ==> f.value < b.mu.value)
    ensures MovesOn(c, back, kf, kb, tie, Flat(sf0, sb), Flat(sf, sb), Move(true, u))
  {
    var e :| e in sf0.heap && e.priority == f.value;
    assert Key(kf, u, sf0.dist[u]) <= e.priority;
    MeetingsAbove(sf0, sb, b, Key(kf, u, sf0.dist[u]));
    forall y | Open(NoHeap(sb), y) ensures Key(kf, u, sf0.dist[u]) <= Key(kb, y, sb.dist[y]) { OpenIsShown(sb, kb, r, y); }
  }

  lemma BackwardGoes(c: Costs, back: Costs, kf: Policy, kb: Policy, tie: bool, sf: Search, sb0: Search, sb: Search, b: Meeting,
                     f: Option<real>, r: Option<real>, u: NodeId)
    requires HeapOk(sf, kf) && BestMeeting(sf.dist, sb0.dist, b) && Shown(sf.heap, f) && Shown(sb0.heap, r)
    requires Expands(back, kb, tie, sb0, sb, u) && r.Some? && (f.Some? ==> r.value < f.value) && (b.mu.Some? ==> r.value < b.mu.value)
    ensures MovesOn(c, back, kf, kb, tie, Flat(sf, sb0), Flat(sf, sb), Move(false, u))
  {
    var e :| e in sb0.heap && e.priority == r.value;
    assert Key(kb, u, sb0.dist[u]) <= e.priority;
    MeetingsAbove(sf, sb0, b, Key(kb, u, sb0.dist[u]));
    forall y | Open(NoHeap(sf), y) ensures Key(kb, u, sb0.dist[u]) < Key(kf, y, sf.dist[y]) { OpenIsShown(sf, kf, f, y); }
  }

  lemma SideExhausted(s: Search, k: Policy, b: Meeting, y: NodeId)
    requires HeapOk(s, k) && Exhausted(s, b) && Open(NoHeap(s), y)
    ensures b.mu.Some? && b.mu.value <= Key(k, y, s.dist[y])
  {
    assert InHeap(s, k, y);
  }

  lemma ExhaustedIsFinished(kf: Policy, kb: Policy, tie: bool, sf: Search, sb: Search, b: Meeting)
    requires HeapOk(sf, kf) && HeapOk(sb, kb) && sf.tree.Keys == sf.dist.Keys && sb.tree.Keys == sb.dist.Keys
    requires BestMeeting(sf.dist, sb.dist, b) && Exhausted(sf, b) && Exhausted(sb, b)
    ensures Finished(kf, kb, tie, Flat(sf, sb))
  {
    var s := Flat(sf, sb);
    forall m
      ensures !Goes(kf, kb, tie, s, m)
    {
      if m.forward && Open(s.f, m.node) {
        SideExhausted(sf, kf, b, m.node);
        assert Common(s, b.node);
      } else if !m.forward && Open(s.b, m.node) {
        SideExhausted(sb, kb, b, m.node);
        assert Common(s, b.node);
      }
    }
  }

  lemma KeepsSym(d: map<NodeId, real>, other: map<NodeId, real>, b: Meeting, tie: bool)
    requires Keeps(d, other, b, tie)
    ensures Keeps(other, d, b, tie)
  {
    MeetingSym(d, other, b);
    if tie {
      forall n | n in other && n in d ensures NotBefore(other, d, b, n) { assert NotBefore(d, other, b, n); }
    }
  }

  /** One expansion of the forward side. */
  method ForwardTurn(out: Graph, inn: Graph, w: Weight, kf: Policy, kb: Policy, tie: bool, mf0: Maps, mb0: Maps,
                     pf: MinHeap, pb: MinHeap, b0: Meeting, ghost c: Costs, ghost back: Costs, ghost sf0: Search, ghost sb0: Search,
                     ghost f: Option<real>, ghost r: Option<real>)
      returns (closed: bool, mf: Maps, b: Meeting, ghost sf: Search)
    requires pf.Valid() && pf.tieBreak == tie && pf.Contents() == sf0.heap
    requires pb.Valid() && pb.tieBreak == tie && pb.Contents() == sb0.heap && pf != pb
    requires Shows(sf0, sf0.start, mf0) && Shows(sb0, sb0.start, mb0)
    requires BothOk(out, inn, w, c, back, sf0, sb0, kf, kb, sf0.start, sb0.start, b0) && Keeps(sf0.dist, sb0.dist, b0, tie)
    requires Shown(sf0.heap, f) && Shown(sb0.heap, r)
    requires f.Some? && (r.Some? ==> f.value <= r.value) && (b0.mu.Some? ==> f.value < b0.mu.value)
    modifies pf
    ensures pf.Valid() && pf.Contents() == sf.heap && Shows(sf, sf0.start, mf)
    ensures BothOk(out, inn, w, c, back, sf, sb0, kf, kb, sf0.start, sb0.start, b) && Keeps(sf.dist, sb0.dist, b, tie)
    ensures closed ==> |mf.visited| == |mf0.visited| + 1 && exists m :: MovesOn(c, back, kf, kb, tie, Flat(sf0, sb0), Flat(sf, sb0), m)
    ensures !closed ==> NoHeap(sf) == NoHeap(sf0) && mf.visited == mf0.visited && |sf.heap| < |sf0.heap|
  {
    ForwardReady(out, inn, w, c, back, sf0, sb0, kf, kb, b0);
    ghost var u;
    closed, mf, b, sf, u := Expand(out, w, kf, tie, mf0, pf, mb0, b0, c, sf0);
    if closed {
      ForwardGoes(c, back, kf, kb, tie, sf0, sf, sb0, b0, f, r, u);
    }
  }

  /** One expansion of the backward side. */
  method BackwardTurn(out: Graph, inn: Graph, w: Weight, kf: Policy, kb: Policy, tie: bool, mf0: Maps, mb0: Maps,
                     pf: MinHeap, pb: MinHeap, b0: Meeting, ghost c: Costs, ghost back: Costs, ghost sf0: Search, ghost sb0: Search,
                     ghost f: Option<real>, ghost r: Option<real>)
      returns (closed: bool, mb: Maps, b: Meeting, ghost sb: Search)
    requires pf.Valid() && pf.tieBreak == tie && pf.Contents() == sf0.heap
    requires pb.Valid() && pb.tieBreak == tie && pb.Contents() == sb0.heap && pf != pb
    requires Shows(sf0, sf0.start, mf0) && Shows(sb0, sb0.start, mb0)
    requires BothOk(out, inn, w, c, back, sf0, sb0, kf, kb, sf0.start, sb0.start, b0) && Keeps(sf0.dist, sb0.dist, b0, tie)
    requires Shown(sf0.heap, f) && Shown(sb0.heap, r)
    requires r.Some? && (f.Some? ==> r.value < f.value) && (b0.mu.Some? ==> r.value < b0.mu.value)
    modifies pb
    ensures pb.Valid() && pb.Contents() == sb.heap && Shows(sb, sb0.start, mb)
    ensures BothOk(out, inn, w, c, back, sf0, sb, kf, kb, sf0.start, sb0.start, b) && Keeps(sf0.dist, sb.dist, b, tie)
    ensures closed ==> |mb.visited| == |mb0.visited| + 1 && exists m :: MovesOn(c, back, kf, kb, tie, Flat(sf0, sb0), Flat(sf0, sb), m)
    ensures !closed ==> NoHeap(sb) == NoHeap(sb0) && mb.visited == mb0.visited && |sb.heap| < |sb0.heap|
  {
    BackwardReady(out, inn, w, c, back, sf0, sb0, kf, kb, b0);
    KeepsSym(sf0.dist, sb0.dist, b0, tie);
    ghost var u;
    closed, mb, b, sb, u := Expand(inn, Flip(w), kb, tie, mb0, pb, mf0, b0, back, sb0);
    KeepsSym(sb.dist, sf0.dist, b, tie);
    if closed {
      BackwardGoes(c, back, kf, kb, tie, sf0, sb0, sb, b0, f, r, u);
    }
  }

  /** One turn: stop when no better meeting can be left, otherwise expand the side with the lesser least key. */
  method BothTurn(out: Graph, inn: Graph, w: Weight, kf: Policy, kb: Policy, tie: bool, mf0: Maps, mb0: Maps,
                  pf: MinHeap, pb: MinHeap, b0: Meeting, ghost c: Costs, ghost back: Costs, ghost sf0: Search, ghost sb0: Search)
      returns (stop: bool, closed: bool, mf: Maps, mb: Maps, b: Meeting, ghost sf: Search, ghost sb: Search)
    requires pf.Valid() && pf.tieBreak == tie && pf.Contents() == sf0.heap
    requires pb.Valid() && pb.tieBreak == tie && pb.Contents() == sb0.heap && pf != pb
    requires Shows(sf0, sf0.start, mf0) && Shows(sb0, sb0.start, mb0)
    requires BothOk(out, inn, w, c, back, sf0, sb0, kf, kb, sf0.start, sb0.start, b0) && Keeps(sf0.dist, sb0.dist, b0, tie)
    modifies pf, pb
    ensures pf.Valid() && pf.Contents() == sf.heap && pb.Valid() && pb.Contents() == sb.heap
    ensures Shows(sf, sf0.start, mf) && Shows(sb, sb0.start, mb)
    ensures BothOk(out, inn, w, c, back, sf, sb, kf, kb, sf0.start, sb0.start, b) && Keeps(sf.dist, sb.dist, b, tie)
    ensures closed ==> exists m :: MovesOn(c, back, kf, kb, tie, Flat(sf0, sb0), Flat(sf, sb), m)
    ensures !closed ==> Flat(sf, sb) == Flat(sf0, sb0)
    ensures stop ==> Finished(kf, kb, tie, Flat(sf, sb))
    ensures stop ==> Exhausted(sf, b) && Exhausted(sb, b)
    ensures |mf.visited| + |mb.visited| == |mf0.visited| + |mb0.visited| + (if closed then 1 else 0)
    ensures !stop && !closed ==> |sf.heap| + |sb.heap| < |sf0.heap| + |sb0.heap|
  {
    stop, closed, mf, mb, b, sf, sb := false, false, mf0, mb0, b0, sf0, sb0;
    var f := pf.PeekPriority();
    var r := pb.PeekPriority();
    if (f.None? || (b.mu.Some? && f.value >= b.mu.value)) && (r.None? || (b.mu.Some? && r.value >= b.mu.value)) {
      PeekExhausts(sf, b, f);
      PeekExhausts(sb, b, r);
      ExhaustedIsFinished(kf, kb, tie, sf, sb, b);
      stop := true;
    } else if f.Some? && (r.None? || f.value <= r.value) {
      closed, mf, b, sf := ForwardTurn(out, inn, w, kf, kb, tie, mf, mb, pf, pb, b, c, back, sf, sb, f, r);
    } else {
      closed, mb, b, sb := BackwardTurn(out, inn, w, kf, kb, tie, mf, mb, pf, pb, b, c, back, sf, sb, f, r);
    }
  }

  ghost predicate BothStopped(out: Graph, inn: Graph, sf: Search, sb: Search, b: Meeting) {
    SideStopped(out, sf, b) && SideStopped(inn, sb, b)
  }

  /** The answer the final state stands for. */
  ghost predicate Answers(c: Costs, back: Costs, hf: Heuristic, hb: Heuristic, start: NodeId, goal: NodeId,
                          stopped: bool, r: PathResult) {
    && !r.InvalidStart?
    && (r.Found? ==> WalkFromTo(c.Keys, r.path, start, goal) && PathCost(c, r.path) == r.totalCost)
    && (r.Found? && stopped && Guided(c, back, hf, hb, start, goal) ==> CheapestWalk(c, r.path, start, goal))
    && (r.NoPath? && stopped ==> !Reachable(c.Keys, start, goal))
  }

  /** The two searches are what the moves `ms` make of them. */
  ghost predicate Played(c: Costs, back: Costs, kf: Policy, kb: Policy, tie: bool, start: NodeId, goal: NodeId, ms: seq<Move>,
                         sf: Search, sb: Search) {
    Runs(c, back, kf, kb, tie, start, goal, ms) && Both(c, back, tie, start, goal, ms) == Flat(sf, sb)
  }

  lemma PlayedStart(c: Costs, back: Costs, kf: Policy, kb: Policy, tie: bool, start: NodeId, goal: NodeId)
    requires start != goal
    ensures Played(c, back, kf, kb, tie, start, goal, [], Initial(start, kf), Initial(goal, kb))
    ensures Keeps(map[start := 0.0], map[goal := 0.0], Meeting(None, start), tie)
  {
  }

  lemma PlayedOn(c: Costs, back: Costs, kf: Policy, kb: Policy, tie: bool, start: NodeId, goal: NodeId, ms: seq<Move>, m: Move,
                 sf0: Search, sb0: Search, sf: Search, sb: Search)
    requires Played(c, back, kf, kb, tie, start, goal, ms, sf0, sb0)
    requires MovesOn(c, back, kf, kb, tie, Flat(sf0, sb0), Flat(sf, sb), m)
    ensures Played(c, back, kf, kb, tie, start, goal, ms + [m], sf, sb)
  {
    RunsMore(c, back, kf, kb, tie, start, goal, ms, m);
  }

  lemma PlayedTurn(c: Costs, back: Costs, kf: Policy, kb: Policy, tie: bool, start: NodeId, goal: NodeId, ms: seq<Move>, closed: bool,
                   sf0: Search, sb0: Search, sf: Search, sb: Search) returns (ns: seq<Move>)
    requires Played(c, back, kf, kb, tie, start, goal, ms, sf0, sb0)
    requires closed ==> exists m :: MovesOn(c, back, kf, kb, tie, Flat(sf0, sb0), Flat(sf, sb), m)
    requires !closed ==> Flat(sf, sb) == Flat(sf0, sb0)
    ensures Played(c, back, kf, kb, tie, start, goal, ns, sf, sb) && |ns| == |ms| + if closed then 1 else 0
  {
    ns := ms;
    if closed {
      var m :| MovesOn(c, back, kf, kb, tie, Flat(sf0, sb0), Flat(sf, sb), m);
      PlayedOn(c, back, kf, kb, tie, start, goal, ms, m, sf0, sb0, sf, sb);
      ns := ms + [m];
    }
  }

  lemma MeetingJoins(sf: Search, sb: Search, b: Meeting, tie: bool, r: PathResult)
    requires Keeps(sf.dist, sb.dist, b, tie) && sf.tree.Keys == sf.dist.Keys && sb.tree.Keys == sb.dist.Keys
    requires if b.mu.None? then r == NoPath else
               b.node in sb.tree && sb.tree[b.node] != [] && r == Found(Through(sf.tree[b.node], sb.tree[b.node]), b.mu.value)
    ensures Joins(tie, Flat(sf, sb), r)
  {
    var s := Flat(sf, sb);
    if b.mu.None? {
      forall n ensures !Common(s, n) { assert Common(s, n) ==> !NoBetter(sf.dist, sb.dist, b, n); }
    } else {
      forall x | Common(s, x)
        ensures Sum(s, b.node) < Sum(s, x) || (Sum(s, b.node) == Sum(s, x) && (tie ==> b.node <= x))
      {
        assert NoBetter(sf.dist, sb.dist, b, x);
        assert tie ==> NotBefore(sf.dist, sb.dist, b, x);
      }
      assert MeetsAt(tie, s, b.node);
      assert JoinedAt(tie, s, b.node, r.path, r.totalCost);
    }
  }

  /** Builds the answer once the loop has ended. */
  method Conclude(mf: Maps, mb: Maps, b: Meeting, start: NodeId, goal: NodeId, ghost out: Graph, ghost inn: Graph,
                  ghost w: Weight, ghost c: Costs, ghost back: Costs, ghost sf: Search, ghost sb: Search,
                  ghost hf: Heuristic, ghost hb: Heuristic, ghost tie: bool) returns (r: PathResult)
    requires Shows(sf, start, mf) && Shows(sb, goal, mb) && ReverseCosts(c, back)
    requires BothOk(out, inn, w, c, back, sf, sb, Policy(hf, false), Policy(hb, false), start, goal, b)
    requires Keeps(sf.dist, sb.dist, b, tie)
    ensures Answers(c, back, hf, hb, start, goal, BothStopped(out, inn, sf, sb, b), r)
    ensures Joins(tie, Flat(sf, sb), r)
  {
    if b.mu.None? {
      if BothStopped(out, inn, sf, sb, b) {
        StoppedUnmet(out, w, c, sf, Policy(hf, false), sb.dist, b, goal);
      }
      MeetingJoins(sf, sb, b, tie, NoPath);
      return NoPath;
    }
    var path := ReconstructBiPath(mf.prev, mb.prev, start, goal, b.node, c, back, sf, sb);
    MeetingWalk(c, back, sf, sb, b);
    if BothStopped(out, inn, sf, sb, b) && Guided(c, back, hf, hb, start, goal) {
      StoppedFound(out, inn, w, c, back, sf, sb, hf, hb, start, goal, b);
    }
    assert Reached(back, sb, b.node);
    r := Found(path, b.mu.value);
    MeetingJoins(sf, sb, b, tie, r);
  }

  lemma TrivialAnswers(c: Costs, back: Costs, hf: Heuristic, hb: Heuristic, start: NodeId, stopped: bool)
    requires ReverseCosts(c, back)
    ensures Answers(c, back, hf, hb, start, start, stopped, Found([start], 0.0))
  {
    assert WalkFromTo(c.Keys, [start], start, start) && PathCost(c, [start]) == 0.0;
    if Guided(c, back, hf, hb, start, start) {
      TrivialIsCheapest(c, back, hf, hb, start);
    }
  }

  lemma BothStart(out: Graph, inn: Graph, w: Weight, c: Costs, back: Costs, kf: Policy, kb: Policy, start: NodeId, goal: NodeId)
    requires Prices(out, w, c) && Prices(inn, Flip(w), back) && start != goal
    ensures BothOk(out, inn, w, c, back, Initial(start, kf), Initial(goal, kb), kf, kb, start, goal, Meeting(None, start))
  {
    PricedEdges(out, w, c);
    PricedEdges(inn, Flip(w), back);
    SideStart(out, w, c, start, kf);
    SideStart(inn, Flip(w), back, goal, kb);
  }

  /** The two-sided loop. `tie` selects the lexicographic tie-breaks; `limit` bounds the nodes explored. */
  method RunBoth(out: Graph, inn: Graph, w: Weight, start: NodeId, goal: NodeId, kf: Policy, kb: Policy,
                 tie: bool, limit: Option<nat>, ghost c: Costs, ghost back: Costs)
      returns (mf: Maps, mb: Maps, b: Meeting, ghost sf: Search, ghost sb: Search, ghost ms: seq<Move>)
    requires Prices(out, w, c) && Prices(inn, Flip(w), back) && start != goal
    ensures Shows(sf, start, mf) && Shows(sb, goal, mb)
    ensures BothOk(out, inn, w, c, back, sf, sb, kf, kb, start, goal, b) && Keeps(sf.dist, sb.dist, b, tie)
    ensures Played(c, back, kf, kb, tie, start, goal, ms, sf, sb)
    ensures (ms != [] ==> Within(limit, |ms| - 1)) && (!Within(limit, |ms|) || Finished(kf, kb, tie, Flat(sf, sb)))
    ensures Unlimited(out, inn, start, goal, limit) ==> BothStopped(out, inn, sf, sb, b)
  {
    mf, mb := Maps(map[start := 0.0], map[], {}), Maps(map[goal := 0.0], map[], {});
    sf, sb := Initial(start, kf), Initial(goal, kb);
    var pf := new MinHeap(tie);
    var pb := new MinHeap(tie);
    pf.Insert(start, Key(kf, start, 0.0));
    pb.Insert(goal, Key(kb, goal, 0.0));
    BothStart(out, inn, w, c, back, kf, kb, start, goal);
    PlayedStart(c, back, kf, kb, tie, start, goal);
    b := Meeting(None, start);
    var explored, stop := 0, false;
    ms := [];
    ghost var bound := |ReachSet(out, start)| + |ReachSet(inn, goal)|;
    while !stop && (limit.None? || explored < limit.value)
      invariant pf.Valid() && pf.tieBreak == tie && pf.Contents() == sf.heap
      invariant pb.Valid() && pb.tieBreak == tie && pb.Contents() == sb.heap && pf != pb
      invariant Shows(sf, start, mf) && Shows(sb, goal, mb)
      invariant BothOk(out, inn, w, c, back, sf, sb, kf, kb, start, goal, b)
      invariant Keeps(sf.dist, sb.dist, b, tie) && Played(c, back, kf, kb, tie, start, goal, ms, sf, sb)
      invariant |ms| == explored && (limit.Some? ==> explored <= limit.value) && (stop ==> Finished(kf, kb, tie, Flat(sf, sb)))
      invariant explored == |mf.visited| + |mb.visited| <= bound
      invariant stop ==> Exhausted(sf, b) && Exhausted(sb, b)
      decreases !stop, bound - explored, |sf.heap| + |sb.heap|
    {
      var closed;
      ghost var sf0, sb0 := sf, sb;
      stop, closed, mf, mb, b, sf, sb := BothTurn(out, inn, w, kf, kb, tie, mf, mb, pf, pb, b, c, back, sf, sb);
      BothFit(out, inn, w, c, back, sf, sb, kf, kb, b);
      explored := if closed then explored + 1 else explored;
      ms := PlayedTurn(c, back, kf, kb, tie, start, goal, ms, closed, sf0, sb0, sf, sb);
    }
    BothFit(out, inn, w, c, back, sf, sb, kf, kb, b);
  }

  /** The loop, and the answer it leads to. */
  method SearchBothWays(out: Graph, inn: Graph, w: Weight, start: NodeId, goal: NodeId, hf: Heuristic, hb: Heuristic,
                        tie: bool, limit: Option<nat>, ghost c: Costs, ghost back: Costs) returns (r: PathResult)
    requires Prices(out, w, c) && Prices(inn, Flip(w), back) && ReverseCosts(c, back) && start != goal
    ensures Answers(c, back, hf, hb, start, goal, Unlimited(out, inn, start, goal, limit), r)
    ensures AnswersBoth(c, back, Policy(hf, false), Policy(hb, false), tie, start, goal, limit, r)
  {
    var kf, kb := Policy(hf, false), Policy(hb, false);
    var mf, mb, b;
    ghost var sf, sb, ms;
    mf, mb, b, sf, sb, ms := RunBoth(out, inn, w, start, goal, kf, kb, tie, limit, c, back);
    r := Conclude(mf, mb, b, start, goal, out, inn, w, c, back, sf, sb, hf, hb, tie);
    assert CourseOfBoth(c, back, kf, kb, tie, start, goal, limit, ms, r);
  }

  /** Bidirectional A* of the traversal engine. */
  method BidirectionalAStar(out: Graph, inn: Graph, w: Weight, start: NodeId, goal: NodeId, hf: Heuristic, hb: Heuristic,
                            maxNodes: nat) returns (r: PathResult)
    requires Inverse(out, inn)
    ensures r.InvalidStart? <==> start !in out.alive
    ensures !r.InvalidStart? ==>
              Answers(CostsOf(out, w), CostsOf(inn, Flip(w)), hf, hb, start, goal,
                      Unlimited(out, inn, start, goal, Some(maxNodes)), r)
    ensures !r.InvalidStart? ==>
              AnswersBoth(CostsOf(out, w), CostsOf(inn, Flip(w)), Policy(hf, false), Policy(hb, false), true, start, goal, Some(maxNodes), r)
  {
    if start !in out.alive {
      return InvalidStart;
    }
    ghost var c, back := CostsOf(out, w), CostsOf(inn, Flip(w));
    InverseCosts(out, inn, w, c, back);
    if start == goal {
      TrivialAnswers(c, back, hf, hb, start, Unlimited(out, inn, start, goal, Some(maxNodes)));
      return Found([start], 0.0);
    }
    r := SearchBothWays(out, inn, w, start, goal, hf, hb, true, Some(maxNodes), c, back);
  }

  /** Bidirectional A* of the commit-DAG path finder: no tie-breaks, no node limit, no start check. */
  method DagBidirectionalAStar(out: Graph, inn: Graph, w: Weight, from: NodeId, to: NodeId, hf: Heuristic, hb: Heuristic)
      returns (r: PathResult)
    requires Inverse(out, inn)
    ensures Answers(CostsOf(out, w), CostsOf(inn, Flip(w)), hf, hb, from, to, true, r)
    ensures AnswersBoth(CostsOf(out, w), CostsOf(inn, Flip(w)), Policy(hf, false), Policy(hb, false), false, from, to, None, r)
  {
    ghost var c, back := CostsOf(out, w), CostsOf(inn, Flip(w));
    InverseCosts(out, inn, w, c, back);
    if from == to {
      TrivialAnswers(c, back, hf, hb, from, true);
      return Found([from], 0.0);
    }
    r := SearchBothWays(out, inn, w, from, to, hf, hb, false, None, c, back);
  }
}
