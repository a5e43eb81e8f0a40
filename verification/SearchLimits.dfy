/** Where the searches with a closed set lose the optimum: small graphs on which every answer is too dear,
    although the heuristic meets a condition one might expect to be enough. */
module SearchLimits {
  import opened Graphs
  import opened BestFirst
  import opened CanonicalPaths
  import opened SearchOrder

  /** One replayed closing, seen at one node. */
  lemma StepAt(c: Costs, s: Search, u: NodeId, tie: bool, v: NodeId)
    requires u in s.dist && u in s.tree
    ensures var t, s0 := CloseAndExpand(c, s, u, tie), CloseNode(s, u);
            if (u, v) in c && Updates(s0, u, v, s.dist[u] + c[(u, v)], tie)
            then ReachedFrom(s, t, u, v, s.dist[u] + c[(u, v)])
            else SameAt(s, t, v)
  {
    ExpandIsExpanded(Row(c, u), CloseNode(s, u), u, tie, v);
    assert v in Row(c, u) <==> (u, v) in c by {
      if (u, v) in c {
        assert (u, v).0 == u && (u, v).1 == v;
      }
    }
  }

  lemma StepCloses(c: Costs, s: Search, u: NodeId, tie: bool)
    requires u in s.dist && u in s.tree
    ensures CloseAndExpand(c, s, u, tie).closed == s.closed + {u}
  {
  }

  ghost predicate Costing(c: Costs, u: NodeId, v: NodeId, x: real) {
    (u, v) in c && c[(u, v)] == x
  }

  ghost predicate LeadsTo(c: Costs, u: NodeId, targets: set<NodeId>) {
    forall v {:trigger (u, v) in c} :: (u, v) in c <==> v in targets
  }

  /** A replayed closing discovers targets of its node only. */
  lemma KeysAfter(c: Costs, s: Search, u: NodeId, tie: bool, targets: set<NodeId>, known: set<NodeId>)
    requires u in s.dist && u in s.tree && s.dist.Keys <= known
    requires LeadsTo(c, u, targets) && targets <= known
    ensures CloseAndExpand(c, s, u, tie).dist.Keys <= known
  {
    forall v | v in CloseAndExpand(c, s, u, tie).dist
      ensures v in known
    {
      StepAt(c, s, u, tie, v);
    }
  }

  lemma ReplayMore(c: Costs, tie: bool, start: NodeId, us: seq<NodeId>, u: NodeId)
    ensures Replay(c, tie, start, us + [u]) == CloseAndExpand(c, Replay(c, tie, start, us), u, tie)
  {
    assert (us + [u])[..|us|] == us;
  }

  ghost predicate Stands(s: Search, v: NodeId, d: real, p: seq<NodeId>) {
    v in s.dist && v in s.tree && s.dist[v] == d && s.tree[v] == p
  }

  /** A new target stands at the end of the edge. */
  lemma StepFinds(c: Costs, s: Search, t: Search, u: NodeId, tie: bool, v: NodeId)
    requires u in s.dist && u in s.tree && t == CloseAndExpand(c, s, u, tie)
    requires (u, v) in c && v !in s.dist && v !in s.closed && v != u
    ensures Stands(t, v, s.dist[u] + c[(u, v)], s.tree[u] + [v])
  {
    StepAt(c, s, u, tie, v);
  }

  /** What is no target stays as it stands. */
  lemma StepKeeps(c: Costs, s: Search, t: Search, u: NodeId, tie: bool, v: NodeId, d: real, p: seq<NodeId>)
    requires u in s.dist && u in s.tree && t == CloseAndExpand(c, s, u, tie)
    requires (u, v) !in c && Stands(s, v, d, p)
    ensures Stands(t, v, d, p)
  {
    StepAt(c, s, u, tie, v);
  }

  /** `c` is what the provider charges. */
  lemma CostsAre(g: Graph, w: Weight, c: Costs)
    requires Prices(g, w, c)
    ensures CostsOf(g, w) == c
  {
    SameEntriesSameCosts(g, g, w, CostsOf(g, w), c);
  }

  // ------------------------------------------------- consistency is not enough with a biased key

  /** From 0 to 2 directly at cost 1, or over 1 at cost 1 - d. */
  function Triangle(): Graph {
    Graph({0, 1, 2}, map[0 := [Edge(2, 0), Edge(1, 0)], 1 := [Edge(2, 0)]])
  }

  function TriangleWeight(d: real): Weight {
    (u: NodeId, v: NodeId, l: int) => if u == 1 then 0.5 - d else if v == 1 then 0.5 else 1.0
  }

  function TriangleCosts(d: real): Costs {
    map[(0, 2) := 1.0, (0, 1) := 0.5, (1, 2) := 0.5 - d]
  }

  /** What is left to go from 1 is put at `y`, otherwise at nothing. */
  function TriangleGuess(y: real): Heuristic {
    (n: NodeId) => if n == 1 then y else 0.0
  }

  lemma TrianglePrices(d: real)
    ensures CostsOf(Triangle(), TriangleWeight(d)) == TriangleCosts(d)
  {
    var g, w, c := Triangle(), TriangleWeight(d), TriangleCosts(d);
    forall u, v | (u, v) in c
      ensures CostListed(g, w, c, u, v)
    {
      assert Out(g, 0)[0] == Edge(2, 0) && Out(g, 0)[1] == Edge(1, 0) && Out(g, 1)[0] == Edge(2, 0);
    }
    assert Prices(g, w, c);
    CostsAre(g, w, c);
  }

  /** The direct way is not a cheapest one. */
  lemma TriangleOptimum(d: real, p: seq<NodeId>)
    requires 0.0 < d && WalkFromTo(TriangleCosts(d).Keys, p, 0, 2) && PathCost(TriangleCosts(d), p) == 1.0
    ensures !CheapestWalk(TriangleCosts(d), p, 0, 2)
  {
    var c := TriangleCosts(d);
    assert WalkFromTo(c.Keys, [0], 0, 0) && PathCost(c, [0]) == 0.0;
    PathCostExtend(c, [0], 0, 0, 1);
    PathCostExtend(c, [0, 1], 0, 1, 2);
    assert [0] + [1] == [0, 1] && [0, 1] + [2] == [0, 1, 2];
  }

  ghost predicate IsTriangle(c: Costs) {
    Costing(c, 0, 1, 0.5) && Costing(c, 0, 2, 1.0) && LeadsTo(c, 0, {1, 2})
  }

  /** After 0 has been closed, 1 and 2 are open at the distances 0.5 and 1. */
  lemma TriangleFirst(c: Costs)
    requires IsTriangle(c)
    ensures var s := Replay(c, false, 0, [0]);
            s.closed == {0} && s.dist.Keys <= {0, 1, 2} && Stands(s, 1, 0.5, [0, 1]) && Stands(s, 2, 1.0, [0, 2])
  {
    var s0 := Replay(c, false, 0, []);
    ReplayMore(c, false, 0, [], 0);
    assert [] + [0] == [0];
    StepCloses(c, s0, 0, false);
    KeysAfter(c, s0, 0, false, {1, 2}, {0, 1, 2});
    var s := CloseAndExpand(c, s0, 0, false);
    StepFinds(c, s0, s, 0, false, 1);
    StepFinds(c, s0, s, 0, false, 2);
    assert [0] + [1] == [0, 1] && [0] + [2] == [0, 2];
  }

  /** The only course: 0 is closed, then the goal comes out, since it ranks below node 1. */
  lemma TriangleCourse(c: Costs, y: real, us: seq<NodeId>, r: PathResult)
    requires IsTriangle(c) && (1.0 - EPSILON) * 0.5 < y
    requires Course(c, Policy(TriangleGuess(y), true), false, 0, 2, None, us, r)
    ensures r == Found([0, 2], 1.0)
  {
    var k := Policy(TriangleGuess(y), true);
    var s0, s := Replay(c, false, 0, []), Replay(c, false, 0, [0]);
    TriangleFirst(c);
    assert Key(k, 2, 1.0) < Key(k, 1, 0.5);
    assert Open(s0, 0) && Open(s, 1) && Open(s, 2);
    assert us != [];
    NextAt(c, k, false, 0, 2, us, 0);
    assert us[..0] == [];
    assert us[..1] == [0];
    if |us| > 1 {
      NextAt(c, k, false, 0, 2, us, 1);
    } else {
      assert us == [0];
    }
  }

  lemma TriangleIsFair(c: Costs, rate: real, x: real, y: real)
    requires c.Keys == {(0, 1), (0, 2), (1, 2)} && c[(0, 1)] == 0.5 && c[(0, 2)] == 1.0 && c[(1, 2)] == x
    requires 0.0 <= rate && 0.0 <= y <= x && y <= rate * x
    ensures NonNegative(c) && Consistent(c, TriangleGuess(y)) && ConsistentBy(c, TriangleGuess(y), rate)
  {
    var h := TriangleGuess(y);
    forall u, v | (u, v) in c
      ensures h(u) <= rate * c[(u, v)] + h(v)
    {
      assert (u, v) == (1, 2) || (u, v) == (0, 1) || (u, v) == (0, 2);
    }
  }

  /** Some saving `d` on the way over 1 leaves room for such a `y`. */
  lemma RoomBelow(rate: real) returns (d: real, y: real)
    requires 1.0 - EPSILON < rate
    ensures 0.0 < d < 0.5 && (1.0 - EPSILON) * 0.5 < y <= 0.5 - d && y <= rate * (0.5 - d)
  {
    var f := if rate <= 1.0 then rate else 1.0;
    d, y := Halfway(f);
    RoomAt(rate, f, d, y);
  }

  lemma Halfway(f: real) returns (d: real, y: real)
    requires 1.0 - EPSILON < f <= 1.0
    ensures 0.0 < d < 0.5 && (1.0 - EPSILON) * 0.5 < y && y == f * 0.5 - d
  {
    d := (f - (1.0 - EPSILON)) / 4.0;
    y := f * 0.5 - d;
  }

  lemma RoomAt(rate: real, f: real, d: real, y: real)
    requires 0.0 < d < 0.5 && f <= 1.0 && f <= rate && y == f * 0.5 - d
    ensures y <= rate * (0.5 - d)
  {
    var x: real :| x == 0.5 - d;
    ProductsOrdered(f, 1.0, d);
    Distribute(f, x, 0.5, d);
    assert y <= f * x;
    ProductsOrdered(f, rate, x);
    assert y <= rate * x;
  }

  lemma Distribute(a: real, x: real, y: real, z: real)
    requires x == y - z
    ensures a * x == a * y - a * z
  {
  }

  lemma ProductsOrdered(a: real, b: real, x: real)
    requires a <= b && 0.0 <= x
    ensures a * x <= b * x
  {
  }

  /** A heuristic may drop by up to the fraction 1 - EPSILON of each cost, and no greater fraction will do:
      for every one there are weights and a consistent heuristic that meets it and with which the
      commit-DAG search always answers with a walk that is not cheapest. */
  lemma BiasLosesOptimum(rate: real) returns (g: Graph, w: Weight, h: Heuristic)
    requires 1.0 - EPSILON < rate
    ensures NonNegative(CostsOf(g, w)) && Consistent(CostsOf(g, w), h) && ConsistentBy(CostsOf(g, w), h, rate)
    ensures forall r :: Answers(CostsOf(g, w), Policy(h, true), false, 0, 2, None, r) ==> r.Found? && !CheapestWalk(CostsOf(g, w), r.path, 0, 2)
  {
    var d, y := RoomBelow(rate);
    g, w, h := Triangle(), TriangleWeight(d), TriangleGuess(y);
    var c, k := TriangleCosts(d), Policy(h, true);
    TrianglePrices(d);
    TriangleIsFair(c, rate, 0.5 - d, y);
    DirectCost(d);
    TriangleOptimum(d, [0, 2]);
    forall r | Answers(c, k, false, 0, 2, None, r)
      ensures r.Found? && !CheapestWalk(c, r.path, 0, 2)
    {
      var us :| Course(c, k, false, 0, 2, None, us, r);
      TriangleCourse(c, y, us, r);
    }
  }

  lemma DirectCost(d: real)
    ensures WalkFromTo(TriangleCosts(d).Keys, [0, 2], 0, 2) && PathCost(TriangleCosts(d), [0, 2]) == 1.0
  {
    var c := TriangleCosts(d);
    assert WalkFromTo(c.Keys, [0], 0, 0) && PathCost(c, [0]) == 0.0;
    PathCostExtend(c, [0], 0, 0, 2);
    assert [0] + [2] == [0, 2];
  }

  // ---------------------------------------- admissibility is not enough without reopening

  /** No walk from any node to the goal costs less than the heuristic says. */
  ghost predicate Admissible(c: Costs, h: Heuristic, goal: NodeId) {
    forall n, p {:trigger WalkFromTo(c.Keys, p, n, goal)} :: WalkFromTo(c.Keys, p, n, goal) ==> h(n) <= PathCost(c, p)
  }

  /** From 0 to 2 directly at cost 3 or over 1 at cost 2, and on to 3 at cost 2. */
  function Detour(): Graph {
    Graph({0, 1, 2, 3}, map[0 := [Edge(1, 0), Edge(2, 0)], 1 := [Edge(2, 0)], 2 := [Edge(3, 0)]])
  }

  function DetourWeight(): Weight {
    (u: NodeId, v: NodeId, l: int) => if u == 2 then 2.0 else if u == 0 && v == 2 then 3.0 else 1.0
  }

  function DetourCosts(): Costs {
    map[(0, 1) := 1.0, (0, 2) := 3.0, (1, 2) := 1.0, (2, 3) := 2.0]
  }

  /** Right at 1 and nothing elsewhere. */
  function DetourGuess(): Heuristic {
    (n: NodeId) => if n == 1 then 3.0 else 0.0
  }

  /** The true cost to the goal. */
  function DetourToGo(): Heuristic {
    (n: NodeId) => if n == 0 then 4.0 else if n == 1 then 3.0 else if n == 2 then 2.0 else 0.0
  }

  lemma DetourPrices()
    ensures CostsOf(Detour(), DetourWeight()) == DetourCosts()
  {
    var g, w, c := Detour(), DetourWeight(), DetourCosts();
    forall u, v | (u, v) in c
      ensures CostListed(g, w, c, u, v)
    {
      assert Out(g, 0)[0] == Edge(1, 0) && Out(g, 0)[1] == Edge(2, 0) && Out(g, 1)[0] == Edge(2, 0) && Out(g, 2)[0] == Edge(3, 0);
    }
    assert Prices(g, w, c);
    CostsAre(g, w, c);
  }

  lemma DetourIsAdmissible()
    ensures Admissible(DetourCosts(), DetourGuess(), 3)
  {
    var c := DetourCosts();
    assert Consistent(c, DetourToGo());
    forall n, p | WalkFromTo(c.Keys, p, n, 3)
      ensures DetourGuess()(n) <= PathCost(c, p)
    {
      ConsistentAlong(c, DetourToGo(), p);
    }
  }

  ghost predicate IsDetour(c: Costs) {
    && Costing(c, 0, 1, 1.0) && Costing(c, 0, 2, 3.0) && Costing(c, 2, 3, 2.0)
    && LeadsTo(c, 0, {1, 2}) && LeadsTo(c, 1, {2}) && LeadsTo(c, 2, {3})
  }

  /** 0 is closed first and makes 1 and 2 known. */
  lemma DetourFirst(c: Costs, s: Search)
    requires IsDetour(c) && s == Replay(c, true, 0, [0])
    ensures s.closed == {0} && s.dist.Keys <= {0, 1, 2} && Stands(s, 1, 1.0, [0, 1]) && Stands(s, 2, 3.0, [0, 2])
  {
    var s0 := Replay(c, true, 0, []);
    ReplayMore(c, true, 0, [], 0);
    assert [] + [0] == [0];
    StepCloses(c, s0, 0, true);
    KeysAfter(c, s0, 0, true, {1, 2}, {0, 1, 2});
    StepFinds(c, s0, s, 0, true, 1);
    StepFinds(c, s0, s, 0, true, 2);
    assert [0] + [1] == [0, 1] && [0] + [2] == [0, 2];
  }

  /** Then 2 is closed and makes 3 known. */
  lemma DetourSecond(c: Costs, s: Search, t: Search)
    requires IsDetour(c)
    requires s.closed == {0} && s.dist.Keys <= {0, 1, 2} && Stands(s, 1, 1.0, [0, 1]) && Stands(s, 2, 3.0, [0, 2])
    requires t == CloseAndExpand(c, s, 2, true)
    ensures t.closed == {0, 2} && t.dist.Keys <= {0, 1, 2, 3} && Stands(t, 1, 1.0, [0, 1]) && Stands(t, 3, 5.0, [0, 2, 3])
  {
    StepCloses(c, s, 2, true);
    KeysAfter(c, s, 2, true, {3}, {0, 1, 2, 3});
    StepKeeps(c, s, t, 2, true, 1, 1.0, [0, 1]);
    StepFinds(c, s, t, 2, true, 3);
    assert [0, 2] + [3] == [0, 2, 3];
  }

  /** Then 1 is closed and changes nothing, as 2 is closed already. */
  lemma DetourThird(c: Costs, s: Search, t: Search)
    requires IsDetour(c)
    requires s.closed == {0, 2} && s.dist.Keys <= {0, 1, 2, 3} && Stands(s, 1, 1.0, [0, 1]) && Stands(s, 3, 5.0, [0, 2, 3])
    requires t == CloseAndExpand(c, s, 1, true)
    ensures t.closed == {0, 1, 2} && t.dist.Keys <= {0, 1, 2, 3} && Stands(t, 3, 5.0, [0, 2, 3])
  {
    StepCloses(c, s, 1, true);
    KeysAfter(c, s, 1, true, {2}, {0, 1, 2, 3});
    StepKeeps(c, s, t, 1, true, 3, 5.0, [0, 2, 3]);
  }

  lemma DetourOrder(c: Costs, s0: Search, s1: Search, s2: Search, s3: Search)
    requires s0 == Replay(c, true, 0, [])
    requires s1.closed == {0} && s1.dist.Keys <= {0, 1, 2} && Stands(s1, 1, 1.0, [0, 1]) && Stands(s1, 2, 3.0, [0, 2])
    requires s2.closed == {0, 2} && s2.dist.Keys <= {0, 1, 2, 3} && Stands(s2, 1, 1.0, [0, 1]) && Stands(s2, 3, 5.0, [0, 2, 3])
    requires s3.closed == {0, 1, 2} && s3.dist.Keys <= {0, 1, 2, 3} && Stands(s3, 3, 5.0, [0, 2, 3])
    ensures IsNext(DetourPolicy(), true, s0, 0) && IsNext(DetourPolicy(), true, s1, 2)
    ensures IsNext(DetourPolicy(), true, s2, 1) && IsNext(DetourPolicy(), true, s3, 3)
  {
  }

  ghost function DetourPolicy(): Policy {
    Policy(DetourGuess(), false)
  }

  lemma DetourNexts(c: Costs)
    requires IsDetour(c)
    ensures IsNext(DetourPolicy(), true, Replay(c, true, 0, []), 0) && IsNext(DetourPolicy(), true, Replay(c, true, 0, [0]), 2)
    ensures IsNext(DetourPolicy(), true, Replay(c, true, 0, [0, 2]), 1) && IsNext(DetourPolicy(), true, Replay(c, true, 0, [0, 2, 1]), 3)
    ensures Stands(Replay(c, true, 0, [0, 2, 1]), 3, 5.0, [0, 2, 3])
  {
    var s1 := Replay(c, true, 0, [0]);
    var s2 := CloseAndExpand(c, s1, 2, true);
    var s3 := CloseAndExpand(c, s2, 1, true);
    DetourFirst(c, s1);
    DetourSecond(c, s1, s2);
    DetourThird(c, s2, s3);
    DetourOrder(c, Replay(c, true, 0, []), s1, s2, s3);
    DetourReplays(c);
  }

  lemma DetourFollows(c: Costs, k: Policy)
    requires IsNext(k, true, Replay(c, true, 0, []), 0) && IsNext(k, true, Replay(c, true, 0, [0]), 2)
    requires IsNext(k, true, Replay(c, true, 0, [0, 2]), 1)
    ensures Follows(c, k, true, 0, 3, [0, 2, 1])
  {
    FollowsOn(c, k, true, 0, 3, [], 0, [0]);
    FollowsOn(c, k, true, 0, 3, [0], 2, [0, 2]);
    FollowsOn(c, k, true, 0, 3, [0, 2], 1, [0, 2, 1]);
  }

  /** Node 2 is closed at 3, before the cheaper way to it over 1 is known, and never reopened. */
  lemma DetourCourse(c: Costs, limit: Option<nat>)
    requires IsDetour(c) && Within(limit, 3)
    ensures Course(c, DetourPolicy(), true, 0, 3, limit, [0, 2, 1], Found([0, 2, 3], 5.0))
  {
    DetourNexts(c);
    DetourFollows(c, DetourPolicy());
  }

  lemma DetourReplays(c: Costs)
    ensures Replay(c, true, 0, [0, 2]) == CloseAndExpand(c, Replay(c, true, 0, [0]), 2, true)
    ensures Replay(c, true, 0, [0, 2, 1]) == CloseAndExpand(c, Replay(c, true, 0, [0, 2]), 1, true)
  {
    ReplayMore(c, true, 0, [0], 2);
    ReplayMore(c, true, 0, [0, 2], 1);
    assert [0] + [2] == [0, 2] && [0, 2] + [1] == [0, 2, 1];
  }

  lemma FollowsOn(c: Costs, k: Policy, tie: bool, start: NodeId, goal: NodeId, us: seq<NodeId>, u: NodeId, vs: seq<NodeId>)
    requires Follows(c, k, tie, start, goal, us) && vs == us + [u]
    requires IsNext(k, tie, Replay(c, tie, start, us), u) && u != goal
    ensures Follows(c, k, tie, start, goal, vs)
  {
    FollowsMore(c, k, tie, start, goal, us, u);
  }

  lemma DetourAnswer(c: Costs, limit: Option<nat>, r: PathResult)
    requires IsDetour(c) && Within(limit, 3)
    requires Answers(c, DetourPolicy(), true, 0, 3, limit, r)
    ensures r == Found([0, 2, 3], 5.0)
  {
    DetourCourse(c, limit);
    AnswerIsUnique(c, DetourPolicy(), 0, 3, limit, r, Found([0, 2, 3], 5.0));
  }

  lemma DetourShape()
    ensures IsDetour(DetourCosts()) && Positive(DetourCosts())
  {
  }

  /** With an admissible heuristic alone, the answer of a search that never reopens a node may be dearer
      than the optimum: here it always costs 5, and a walk of cost 4 exists. */
  lemma AdmissibleIsNotEnough(limit: Option<nat>) returns (g: Graph, w: Weight, h: Heuristic)
    requires Within(limit, 3)
    ensures Positive(CostsOf(g, w)) && Admissible(CostsOf(g, w), h, 3)
    ensures forall r :: Answers(CostsOf(g, w), Policy(h, false), true, 0, 3, limit, r) ==> r == Found([0, 2, 3], 5.0)
    ensures WalkFromTo(EdgesOf(g), [0, 1, 2, 3], 0, 3) && PathCost(CostsOf(g, w), [0, 1, 2, 3]) == 4.0
  {
    g, w, h := Detour(), DetourWeight(), DetourGuess();
    var c, k := DetourCosts(), Policy(h, false);
    DetourPrices();
    DetourIsAdmissible();
    DetourShape();
    forall r | Answers(c, k, true, 0, 3, limit, r)
      ensures r == Found([0, 2, 3], 5.0)
    {
      DetourAnswer(c, limit, r);
    }
    DetourOptimum();
  }

  lemma DetourOptimum()
    ensures WalkFromTo(DetourCosts().Keys, [0, 1, 2, 3], 0, 3) && PathCost(DetourCosts(), [0, 1, 2, 3]) == 4.0
  {
    var c := DetourCosts();
    assert WalkFromTo(c.Keys, [0], 0, 0) && PathCost(c, [0]) == 0.0;
    PathCostExtend(c, [0], 0, 0, 1);
    PathCostExtend(c, [0, 1], 0, 1, 2);
    PathCostExtend(c, [0, 1, 2], 0, 2, 3);
    assert [0] + [1] == [0, 1] && [0, 1] + [2] == [0, 1, 2] && [0, 1, 2] + [3] == [0, 1, 2, 3];
  }
}
