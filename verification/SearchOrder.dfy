/** A best-first search as a function of the costs alone: the order in which it closes nodes, and the
    distances, predecessors and walks that this order leaves behind. Heaps and neighbour lists do not
    occur here; that the searches follow it is proved beside them. */
module SearchOrder {
  import opened Graphs
  import opened MinHeaps
  import opened BestFirst

  /** The costs of the edges out of `u`. */
  ghost function Row(c: Costs, u: NodeId): map<NodeId, real> {
    map v | v in (set e | e in c && e.0 == u :: e.1) :: c[(u, v)]
  }

  function NoHeuristic(n: NodeId): real {
    0.0
  }

  /** Dijkstra's policy: by distance alone. */
  function ByCost(): Policy {
    Policy(NoHeuristic, false)
  }

  /** The search without its heap. */
  ghost function NoHeap(s: Search): Search {
    s.(heap := multiset{})
  }

  /** The nodes to which `u` offers a better way, or with `tie` an equally good one from a smaller node. */
  ghost function Bettered(row: map<NodeId, real>, s: Search, u: NodeId, tie: bool): set<NodeId>
    requires u in s.dist
  {
    set v | v in row && Updates(s, u, v, s.dist[u] + row[v], tie)
  }

  /** All edges of `row` out of `u` are relaxed at once. */
  ghost function Expand(row: map<NodeId, real>, s: Search, u: NodeId, tie: bool): Search
    requires u in s.dist && u in s.tree
  {
    var b := Bettered(row, s, u, tie);
    s.(dist := s.dist + map v | v in b :: s.dist[u] + row[v],
       prev := s.prev + map v | v in b :: u,
       tree := s.tree + map v | v in b :: s.tree[u] + [v])
  }

  ghost function CloseNode(s: Search, u: NodeId): Search {
    s.(closed := s.closed + {u}, order := s.order + [u])
  }

  ghost function CloseAndExpand(c: Costs, s: Search, u: NodeId, tie: bool): Search {
    if u in s.dist && u in s.tree then Expand(Row(c, u), CloseNode(s, u), u, tie) else s
  }

  /** The search after closing the nodes of `us` in turn. */
  ghost function Replay(c: Costs, tie: bool, start: NodeId, us: seq<NodeId>): Search {
    if us == [] then Search(start, map[start := 0.0], map[], {}, map[start := [start]], multiset{}, [])
    else CloseAndExpand(c, Replay(c, tie, start, us[..|us| - 1]), us[|us| - 1], tie)
  }

  ghost predicate Open(s: Search, n: NodeId) {
    n in s.dist && n in s.tree && n !in s.closed
  }

  /** `n` is a least open node, and with `tie` the smallest one of the least key. */
  ghost predicate IsNext(k: Policy, tie: bool, s: Search, n: NodeId) {
    && Open(s, n)
    && forall y {:trigger Open(s, y)} :: Open(s, y) ==> EntryLeq(tie, Entry(n, Key(k, n, s.dist[n])), Entry(y, Key(k, y, s.dist[y])))
  }

  /** The `i`-th node of `us` is next when those before it have been closed, and it is not yet the goal. */
  ghost predicate FollowsAt(c: Costs, k: Policy, tie: bool, start: NodeId, goal: NodeId, us: seq<NodeId>, i: int)
    requires 0 <= i < |us|
  {
    IsNext(k, tie, Replay(c, tie, start, us[..i]), us[i]) && us[i] != goal
  }

  ghost predicate Follows(c: Costs, k: Policy, tie: bool, start: NodeId, goal: NodeId, us: seq<NodeId>) {
    forall i {:trigger FollowsAt(c, k, tie, start, goal, us, i)} :: 0 <= i < |us| ==> FollowsAt(c, k, tie, start, goal, us, i)
  }

  ghost predicate Within(limit: Option<nat>, n: nat) {
    limit.None? || n < limit.value
  }

  /** `r` is what a search says that has closed the nodes of `us` and stops then. */
  ghost predicate Stops(c: Costs, k: Policy, tie: bool, start: NodeId, goal: NodeId, limit: Option<nat>, us: seq<NodeId>, r: PathResult) {
    var s := Replay(c, tie, start, us);
    match r
    case InvalidStart => false
    case NoPath => !Within(limit, |us|) || forall n :: !Open(s, n)
    case Found(path, totalCost) => Within(limit, |us|) && IsNext(k, tie, s, goal) && path == s.tree[goal] && totalCost == s.dist[goal]
  }

  /** `us` is the whole order of closing of a search that answers `r`. */
  ghost predicate Course(c: Costs, k: Policy, tie: bool, start: NodeId, goal: NodeId, limit: Option<nat>, us: seq<NodeId>, r: PathResult) {
    && Follows(c, k, tie, start, goal, us) && Stops(c, k, tie, start, goal, limit, us, r)
    && (us != [] ==> Within(limit, |us| - 1))
  }

  /** `r` is a possible answer of the search. */
  ghost predicate Answers(c: Costs, k: Policy, tie: bool, start: NodeId, goal: NodeId, limit: Option<nat>, r: PathResult) {
    exists us :: Course(c, k, tie, start, goal, limit, us, r)
  }

  // ------------------------------------------------------------ determinism

  lemma NextAt(c: Costs, k: Policy, tie: bool, start: NodeId, goal: NodeId, us: seq<NodeId>, i: nat)
    requires Follows(c, k, tie, start, goal, us) && i < |us|
    ensures IsNext(k, tie, Replay(c, tie, start, us[..i]), us[i]) && us[i] != goal
  {
    assert FollowsAt(c, k, tie, start, goal, us, i);
  }

  lemma FollowsMore(c: Costs, k: Policy, tie: bool, start: NodeId, goal: NodeId, us: seq<NodeId>, u: NodeId)
    requires Follows(c, k, tie, start, goal, us)
    requires IsNext(k, tie, Replay(c, tie, start, us), u) && u != goal
    ensures Follows(c, k, tie, start, goal, us + [u])
  {
    var vs := us + [u];
    forall i | 0 <= i < |vs|
      ensures FollowsAt(c, k, tie, start, goal, vs, i)
    {
      if i < |us| {
        assert FollowsAt(c, k, tie, start, goal, us, i) && vs[..i] == us[..i];
      } else {
        assert vs[..i] == us;
      }
    }
  }

  lemma NextIsUnique(k: Policy, s: Search, a: NodeId, b: NodeId)
    requires IsNext(k, true, s, a) && IsNext(k, true, s, b)
    ensures a == b
  {
    assert Open(s, a) && Open(s, b);
  }

  /** With the tie-breaker, of two orders of closing one is an initial part of the other. */
  lemma {:induction false} OrdersAgree(c: Costs, k: Policy, start: NodeId, goal: NodeId, us: seq<NodeId>, vs: seq<NodeId>, i: nat)
    requires Follows(c, k, true, start, goal, us) && Follows(c, k, true, start, goal, vs)
    requires i <= |us| && i <= |vs|
    ensures us[..i] == vs[..i]
  {
    if i > 0 {
      OrdersAgree(c, k, start, goal, us, vs, i - 1);
      assert FollowsAt(c, k, true, start, goal, us, i - 1) && FollowsAt(c, k, true, start, goal, vs, i - 1);
      NextIsUnique(k, Replay(c, true, start, us[..i - 1]), us[i - 1], vs[i - 1]);
      assert us[..i] == us[..i - 1] + [us[i - 1]] && vs[..i] == vs[..i - 1] + [vs[i - 1]];
    }
  }

  /** A search that could stop does not go on. */
  lemma StopsForGood(c: Costs, k: Policy, start: NodeId, goal: NodeId, limit: Option<nat>, us: seq<NodeId>, r: PathResult,
                     vs: seq<NodeId>, q: PathResult)
    requires Course(c, k, true, start, goal, limit, us, r) && Course(c, k, true, start, goal, limit, vs, q)
    requires |us| <= |vs|
    ensures us == vs
  {
    OrdersAgree(c, k, start, goal, us, vs, |us|);
    assert us[..|us|] == us;
    if |us| < |vs| {
      assert FollowsAt(c, k, true, start, goal, vs, |us|);
      var s := Replay(c, true, start, us);
      assert Open(s, vs[|us|]);
      if r.Found? {
        NextIsUnique(k, s, goal, vs[|us|]);
      }
    }
  }

  /** With the tie-breaker there is one answer: it depends on costs, heuristic and limit alone. */
  lemma AnswerIsUnique(c: Costs, k: Policy, start: NodeId, goal: NodeId, limit: Option<nat>, r: PathResult, q: PathResult)
    requires Answers(c, k, true, start, goal, limit, r) && Answers(c, k, true, start, goal, limit, q)
    ensures r == q
  {
    var us :| Course(c, k, true, start, goal, limit, us, r);
    var vs :| Course(c, k, true, start, goal, limit, vs, q);
    if |us| <= |vs| {
      StopsForGood(c, k, start, goal, limit, us, r, vs, q);
    } else {
      StopsForGood(c, k, start, goal, limit, vs, q, us, r);
    }
  }

  /** Two providers that list the same entries in any order lead to the same answer, for all weights and
      every heuristic. */
  lemma AnswerIgnoresListOrder(g1: Graph, g2: Graph, w: Weight, k: Policy, start: NodeId, goal: NodeId, limit: Option<nat>,
                               r1: PathResult, r2: PathResult)
    requires forall u, e :: e in Out(g1, u) <==> e in Out(g2, u)
    requires Answers(CostsOf(g1, w), k, true, start, goal, limit, r1)
    requires Answers(CostsOf(g2, w), k, true, start, goal, limit, r2)
    ensures r1 == r2
  {
    SameEntriesSameCosts(g1, g2, w, CostsOf(g1, w), CostsOf(g2, w));
    AnswerIsUnique(CostsOf(g1, w), k, start, goal, limit, r1, r2);
  }

  // ------------------------------------------------- what the searches keep for it

  /** Between two extractions: the search is the replay of the order in which it closed nodes. */
  ghost predicate Replayed(c: Costs, k: Policy, tie: bool, goal: NodeId, s: Search) {
    && Follows(c, k, tie, s.start, goal, s.order) && NoHeap(s) == Replay(c, tie, s.start, s.order)
    && |s.order| == |s.closed|
  }

  ghost predicate SameAt(s0: Search, s: Search, v: NodeId) {
    && (v in s.dist <==> v in s0.dist) && (v in s.dist && v in s0.dist ==> s.dist[v] == s0.dist[v])
    && (v in s.prev <==> v in s0.prev) && (v in s.prev && v in s0.prev ==> s.prev[v] == s0.prev[v])
    && (v in s.tree <==> v in s0.tree) && (v in s.tree && v in s0.tree ==> s.tree[v] == s0.tree[v])
  }

  ghost predicate ReachedFrom(s0: Search, s: Search, u: NodeId, v: NodeId, alt: real)
    requires u in s0.tree
  {
    && v in s.dist && s.dist[v] == alt && v in s.prev && s.prev[v] == u
    && v in s.tree && s.tree[v] == s0.tree[u] + [v]
  }

  ghost predicate ExpandedAt(row: map<NodeId, real>, s0: Search, s: Search, u: NodeId, tie: bool, v: NodeId)
    requires u in s0.dist && u in s0.tree
  {
    if v in row && Updates(s0, u, v, s0.dist[u] + row[v], tie)
    then ReachedFrom(s0, s, u, v, s0.dist[u] + row[v])
    else SameAt(s0, s, v)
  }

  /** `s` differs from `s0` by the relaxed edges of `row`, and perhaps in the heap. */
  ghost predicate Expanded(row: map<NodeId, real>, s0: Search, s: Search, u: NodeId, tie: bool)
    requires u in s0.dist && u in s0.tree
  {
    && s.start == s0.start && s.closed == s0.closed && s.order == s0.order
    && forall v {:trigger ExpandedAt(row, s0, s, u, tie, v)} :: ExpandedAt(row, s0, s, u, tie, v)
  }

  /** In the neighbour loop of `u`, after `i` entries: `s0` is the search when `u` was closed. */
  ghost predicate ReplayedUpTo(g: Graph, w: Weight, tie: bool, s0: Search, s: Search, u: NodeId, i: nat) {
    && i <= |Out(g, u)| && u in s0.dist && u in s0.tree && u in s0.closed
    && Expanded(PriceEntries(g, w, u, i), s0, s, u, tie)
  }

  /** The replayed search when the last node of `us` was closed. */
  ghost function LastClosed(c: Costs, tie: bool, start: NodeId, us: seq<NodeId>): Search
    requires us != []
  {
    CloseNode(Replay(c, tie, start, us[..|us| - 1]), us[|us| - 1])
  }

  /** What the neighbour loop of `u` keeps after `i` entries. */
  ghost predicate Replaying(g: Graph, w: Weight, c: Costs, k: Policy, tie: bool, goal: NodeId, s: Search, u: NodeId, i: nat) {
    && s.order != [] && s.order[|s.order| - 1] == u && |s.order| == |s.closed|
    && Follows(c, k, tie, s.start, goal, s.order)
    && ReplayedUpTo(g, w, tie, LastClosed(c, tie, s.start, s.order), s, u, i)
  }

  lemma ReplayStart(c: Costs, k: Policy, tie: bool, start: NodeId, goal: NodeId)
    ensures Replayed(c, k, tie, goal, Initial(start, k))
  {
  }

  lemma FirstIsNext(g: Graph, w: Weight, c: Costs, s: Search, k: Policy, tie: bool, e: Entry)
    requires Outer(g, w, c, s, k) && IsFirst(tie, s.heap, e) && e.item !in s.closed
    ensures IsNext(k, tie, NoHeap(s), e.item)
  {
    assert NotEarly(s, k, e);
    forall y | Open(NoHeap(s), y)
      ensures EntryLeq(tie, Entry(e.item, Key(k, e.item, s.dist[e.item])), Entry(y, Key(k, y, s.dist[y])))
    {
      assert InHeap(s, k, y);
    }
  }

  lemma ReplayEnter(g: Graph, w: Weight, c: Costs, s: Search, k: Policy, tie: bool, goal: NodeId, e: Entry)
    requires Outer(g, w, c, s, k) && Replayed(c, k, tie, goal, s)
    requires IsFirst(tie, s.heap, e) && e.item !in s.closed && e.item != goal
    ensures Replaying(g, w, c, k, tie, goal, Close(s, e), e.item, 0)
  {
    var t := Close(s, e);
    FirstIsNext(g, w, c, s, k, tie, e);
    FollowsMore(c, k, tie, s.start, goal, s.order, e.item);
    assert t.order[..|t.order| - 1] == s.order;
    assert NoHeap(t) == LastClosed(c, tie, s.start, t.order);
    NothingExpanded(g, w, tie, t, e.item);
  }

  lemma NothingExpanded(g: Graph, w: Weight, tie: bool, s: Search, u: NodeId)
    requires u in s.dist && u in s.tree && u in s.closed
    ensures ReplayedUpTo(g, w, tie, NoHeap(s), s, u, 0)
  {
  }

  /** One more entry in the row matters at its target only, and there it does what the neighbour loop does. */
  lemma ExpandEntryAt(row: map<NodeId, real>, s0: Search, s: Search, k: Policy, u: NodeId, v: NodeId, cost: real, tie: bool, x: NodeId)
    requires u in s0.dist && u in s0.tree && u in s0.closed && u in s.dist && u in s.tree && s.closed == s0.closed
    requires ExpandedAt(row, s0, s, u, tie, x) && ExpandedAt(row, s0, s, u, tie, u)
    ensures ExpandedAt(Added(row, v, cost), s0, Tried(s, k, u, v, cost, tie), u, tie, x)
  {
    if x == v {
      ExpandEntryHere(row, s0, s, k, u, v, cost, tie);
    }
  }

  lemma ExpandEntryHere(row: map<NodeId, real>, s0: Search, s: Search, k: Policy, u: NodeId, v: NodeId, cost: real, tie: bool)
    requires u in s0.dist && u in s0.tree && u in s0.closed && u in s.dist && u in s.tree && s.closed == s0.closed
    requires ExpandedAt(row, s0, s, u, tie, v) && ExpandedAt(row, s0, s, u, tie, u)
    ensures ExpandedAt(Added(row, v, cost), s0, Tried(s, k, u, v, cost, tie), u, tie, v)
  {
  }

  lemma PriceOneMore(g: Graph, w: Weight, u: NodeId, i: nat)
    requires i < |Out(g, u)|
    ensures var e := Out(g, u)[i]; PriceEntries(g, w, u, i + 1) == Added(PriceEntries(g, w, u, i), e.to, w(u, e.to, e.lbl))
  {
  }

  ghost function Added(row: map<NodeId, real>, v: NodeId, cost: real): map<NodeId, real> {
    if v in row && row[v] <= cost then row else row[v := cost]
  }

  ghost function Tried(s: Search, k: Policy, u: NodeId, v: NodeId, cost: real, tie: bool): Search
    requires u in s.dist && u in s.tree
  {
    if Updates(s, u, v, s.dist[u] + cost, tie) then Improve(s, k, u, v, s.dist[u] + cost) else s
  }

  lemma ExpandEntry(row: map<NodeId, real>, s0: Search, s: Search, k: Policy, u: NodeId, v: NodeId, cost: real, tie: bool)
    requires u in s0.dist && u in s0.tree && u in s0.closed && u in s.dist && u in s.tree
    requires Expanded(row, s0, s, u, tie)
    ensures Expanded(Added(row, v, cost), s0, Tried(s, k, u, v, cost, tie), u, tie)
  {
    var row', t := Added(row, v, cost), Tried(s, k, u, v, cost, tie);
    forall x: NodeId
      ensures ExpandedAt(row', s0, t, u, tie, x)
    {
      assert ExpandedAt(row, s0, s, u, tie, x) && ExpandedAt(row, s0, s, u, tie, u);
      ExpandEntryAt(row, s0, s, k, u, v, cost, tie, x);
    }
  }

  lemma AfterIsTried(g: Graph, w: Weight, s: Search, k: Policy, tie: bool, u: NodeId, i: nat)
    requires u in s.dist && u in s.tree && i < |Out(g, u)|
    ensures After(g, w, s, k, tie, u, i) == Tried(s, k, u, Out(g, u)[i].to, w(u, Out(g, u)[i].to, Out(g, u)[i].lbl), tie)
  {
  }

  lemma ReplayEntry(g: Graph, w: Weight, tie: bool, k: Policy, s0: Search, s: Search, u: NodeId, i: nat)
    requires ReplayedUpTo(g, w, tie, s0, s, u, i) && i < |Out(g, u)|
    requires u in s.dist && u in s.tree
    ensures ReplayedUpTo(g, w, tie, s0, After(g, w, s, k, tie, u, i), u, i + 1)
  {
    PriceOneMore(g, w, u, i);
    AfterIsTried(g, w, s, k, tie, u, i);
    ExpandEntry(PriceEntries(g, w, u, i), s0, s, k, u, Out(g, u)[i].to, w(u, Out(g, u)[i].to, Out(g, u)[i].lbl), tie);
  }

  lemma ReplayEntries(g: Graph, w: Weight, c: Costs, k: Policy, tie: bool, goal: NodeId, s: Search, u: NodeId, i: nat)
    requires Replaying(g, w, c, k, tie, goal, s, u, i) && i < |Out(g, u)|
    requires u in s.dist && u in s.tree
    ensures Replaying(g, w, c, k, tie, goal, After(g, w, s, k, tie, u, i), u, i + 1)
  {
    ReplayEntry(g, w, tie, k, LastClosed(c, tie, s.start, s.order), s, u, i);
  }

  ghost predicate RowAt(c: Costs, u: NodeId, p: map<NodeId, real>, v: NodeId) {
    (v in p <==> (u, v) in c) && ((u, v) in c && v in p ==> p[v] == c[(u, v)])
  }

  lemma PricedAt(g: Graph, w: Weight, c: Costs, u: NodeId, v: NodeId)
    requires Prices(g, w, c)
    ensures RowAt(c, u, PriceEntries(g, w, u, |Out(g, u)|), v)
  {
    var p := PriceEntries(g, w, u, |Out(g, u)|);
    PriceEntriesAre(g, w, u, |Out(g, u)|);
    if v in p {
      var j :| PricedBy(g, w, p, u, v, j);
      assert EntryPriced(g, w, c, u, j);
    }
    if (u, v) in c {
      assert CostListed(g, w, c, u, v);
      var j :| 0 <= j < |Out(g, u)| && Out(g, u)[j].to == v && c[(u, v)] == w(u, v, Out(g, u)[j].lbl);
      assert PricedBelow(g, w, p, u, j);
    }
  }

  lemma RowIs(c: Costs, u: NodeId, p: map<NodeId, real>)
    requires forall v :: RowAt(c, u, p, v)
    ensures p == Row(c, u)
  {
    forall v
      ensures v in p <==> v in Row(c, u)
    {
      assert RowAt(c, u, p, v);
      assert (u, v) in c ==> v in (set e | e in c && e.0 == u :: e.1) by {
        assert (u, v).0 == u && (u, v).1 == v;
      }
    }
    forall v | v in p
      ensures p[v] == Row(c, u)[v]
    {
      assert RowAt(c, u, p, v);
    }
  }

  /** The cheapest entries of a whole neighbour list are the costs of the edges. */
  lemma RowIsPriced(g: Graph, w: Weight, c: Costs, u: NodeId)
    requires Prices(g, w, c)
    ensures PriceEntries(g, w, u, |Out(g, u)|) == Row(c, u)
  {
    forall v ensures RowAt(c, u, PriceEntries(g, w, u, |Out(g, u)|), v) { PricedAt(g, w, c, u, v); }
    RowIs(c, u, PriceEntries(g, w, u, |Out(g, u)|));
  }

  lemma ExpandIsExpanded(row: map<NodeId, real>, s: Search, u: NodeId, tie: bool, v: NodeId)
    requires u in s.dist && u in s.tree
    ensures ExpandedAt(row, s, Expand(row, s, u, tie), u, tie, v)
  {
  }

  lemma ExpandedAlike(row: map<NodeId, real>, s0: Search, s: Search, t: Search, u: NodeId, tie: bool, v: NodeId)
    requires u in s0.dist && u in s0.tree
    requires ExpandedAt(row, s0, s, u, tie, v) && ExpandedAt(row, NoHeap(s0), t, u, tie, v)
    ensures SameAt(t, NoHeap(s), v)
  {
  }

  lemma ExpandedIsExpand(row: map<NodeId, real>, s0: Search, s: Search, u: NodeId, tie: bool)
    requires u in s0.dist && u in s0.tree && Expanded(row, s0, s, u, tie)
    ensures NoHeap(s) == Expand(row, NoHeap(s0), u, tie)
  {
    var t := Expand(row, NoHeap(s0), u, tie);
    forall v: NodeId
      ensures SameAt(t, NoHeap(s), v)
    {
      assert ExpandedAt(row, s0, s, u, tie, v);
      ExpandIsExpanded(row, NoHeap(s0), u, tie, v);
      ExpandedAlike(row, s0, s, t, u, tie, v);
    }
    SameEverywhere(t, NoHeap(s));
  }

  lemma SameEverywhere(s: Search, t: Search)
    requires forall v {:trigger SameAt(s, t, v)} :: SameAt(s, t, v)
    requires s.start == t.start && s.closed == t.closed && s.order == t.order && s.heap == t.heap
    ensures s == t
  {
    forall v: NodeId
      ensures (v in s.dist <==> v in t.dist) && (v in s.prev <==> v in t.prev) && (v in s.tree <==> v in t.tree)
      ensures v in s.dist && v in t.dist ==> s.dist[v] == t.dist[v]
      ensures v in s.prev && v in t.prev ==> s.prev[v] == t.prev[v]
      ensures v in s.tree && v in t.tree ==> s.tree[v] == t.tree[v]
    {
      assert SameAt(s, t, v);
    }
    assert s.dist == t.dist && s.prev == t.prev && s.tree == t.tree;
  }

  lemma {:induction false} ReplayHasNoHeap(c: Costs, tie: bool, start: NodeId, us: seq<NodeId>)
    ensures Replay(c, tie, start, us).heap == multiset{}
    decreases |us|
  {
    if us != [] {
      ReplayHasNoHeap(c, tie, start, us[..|us| - 1]);
    }
  }

  lemma ReplayLeave(g: Graph, w: Weight, c: Costs, k: Policy, tie: bool, goal: NodeId, s: Search, u: NodeId)
    requires Prices(g, w, c) && Replaying(g, w, c, k, tie, goal, s, u, |Out(g, u)|)
    ensures Replayed(c, k, tie, goal, s)
  {
    var s0 := LastClosed(c, tie, s.start, s.order);
    RowIsPriced(g, w, c, u);
    ExpandedIsExpand(Row(c, u), s0, s, u, tie);
    ReplayHasNoHeap(c, tie, s.start, s.order[..|s.order| - 1]);
    assert NoHeap(s0) == s0;
  }

  /** Extracting the goal ends the search with the answer found. */
  lemma StopsAtGoal(g: Graph, w: Weight, c: Costs, s: Search, k: Policy, tie: bool, goal: NodeId, limit: Option<nat>, e: Entry)
    requires Outer(g, w, c, s, k) && Replayed(c, k, tie, goal, s) && goal !in s.closed
    requires IsFirst(tie, s.heap, e) && e.item == goal && Within(limit, |s.closed|)
    ensures goal in s.dist && goal in s.tree
    ensures Answers(c, k, tie, s.start, goal, limit, Found(s.tree[goal], s.dist[goal]))
  {
    FirstIsNext(g, w, c, s, k, tie, e);
    assert Course(c, k, tie, s.start, goal, limit, s.order, Found(s.tree[goal], s.dist[goal]));
  }

  /** So does running out of heap entries, or into the limit. */
  lemma StopsWithoutGoal(c: Costs, s: Search, k: Policy, tie: bool, goal: NodeId, limit: Option<nat>)
    requires HeapOk(s, k) && Replayed(c, k, tie, goal, s)
    requires s.heap == multiset{} || !Within(limit, |s.closed|)
    requires s.closed != {} ==> Within(limit, |s.closed| - 1)
    ensures Answers(c, k, tie, s.start, goal, limit, NoPath)
  {
    if s.heap == multiset{} {
      forall n ensures !Open(NoHeap(s), n) { assert n in s.dist && n !in s.closed ==> InHeap(s, k, n); }
    }
    assert Course(c, k, tie, s.start, goal, limit, s.order, NoPath);
  }
}
