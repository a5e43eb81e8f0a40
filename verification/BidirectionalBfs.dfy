/** Bidirectional breadth-first search: two balls grow in turn until they touch. */
module BidirectionalBfs {
  import opened Graphs
  import opened Topology
  import opened Breadth

  datatype PathAnswer = NotFound | Found(path: seq<NodeId>)

  /** The parent map of one side spells, for every node it knows, a walk from the root. */
  ghost predicate Linked(r: Rel, parent: map<NodeId, NodeId>, tree: map<NodeId, seq<NodeId>>, n: NodeId)
    requires n in parent
  {
    n in tree && parent[n] in tree && tree[n] == tree[parent[n]] + [n]
  }

  ghost predicate Spells(r: Rel, root: NodeId, tree: map<NodeId, seq<NodeId>>, n: NodeId)
    requires n in tree
  {
    WalkFromTo(r, tree[n], root, n)
  }

  ghost predicate ParentsOk(r: Rel, root: NodeId, parent: map<NodeId, NodeId>, tree: map<NodeId, seq<NodeId>>) {
    && root in tree && tree[root] == [root] && parent.Keys == tree.Keys - {root}
    && (forall n {:trigger Linked(r, parent, tree, n)} :: n in parent ==> Linked(r, parent, tree, n))
    && (forall n {:trigger Spells(r, root, tree, n)} :: n in tree ==> Spells(r, root, tree, n))
  }

  ghost predicate Short(tree: map<NodeId, seq<NodeId>>, n: NodeId, d: nat) {
    n in tree && |tree[n]| <= d + 1
  }

  /** One side after `d` expansions: it has visited the ball of radius `d`, and its frontier is the last layer. */
  ghost predicate Side(r: Rel, root: NodeId, visited: set<NodeId>, parent: map<NodeId, NodeId>, frontier: seq<NodeId>, d: nat,
                       tree: map<NodeId, seq<NodeId>>) {
    && ParentsOk(r, root, parent, tree) && tree.Keys == visited
    && visited == Ball(r, root, d) && SetOf(frontier) == Layer(r, root, d)
    && (forall n {:trigger Short(tree, n, d)} :: n in visited ==> Short(tree, n, d))
  }

  /** While the frontier of radius `d` is being expanded. */
  ghost predicate Growing(r: Rel, root: NodeId, ball: set<NodeId>, visited: set<NodeId>, parent: map<NodeId, NodeId>,
          next: seq<NodeId>, d: nat,
                          tree: map<NodeId, seq<NodeId>>) {
    && ParentsOk(r, root, parent, tree) && tree.Keys == visited
    && visited == ball + SetOf(next) && ball !! SetOf(next) && SetOf(next) <= Successors(r, ball)
    && (forall n {:trigger Short(tree, n, d)} :: n in ball ==> Short(tree, n, d))
    && (forall n {:trigger Short(tree, n, d + 1)} :: n in visited ==> Short(tree, n, d + 1))
  }

  lemma AddParent(r: Rel, root: NodeId, parent: map<NodeId, NodeId>, tree: map<NodeId, seq<NodeId>>, u: NodeId, v: NodeId)
    requires ParentsOk(r, root, parent, tree) && u in tree && v !in tree && (u, v) in r
    ensures ParentsOk(r, root, parent[v := u], tree[v := tree[u] + [v]])
  {
    var p, t := parent[v := u], tree[v := tree[u] + [v]];
    assert Spells(r, root, tree, u);
    ExtendWalk(r, tree[u], root, u, v);
    forall n | n in p ensures Linked(r, p, t, n) { assert n == v || Linked(r, parent, tree, n); }
    forall n | n in t ensures Spells(r, root, t, n) { assert n == v || Spells(r, root, tree, n); }
  }

  lemma GrowOne(r: Rel, root: NodeId, ball: set<NodeId>, visited: set<NodeId>, parent: map<NodeId, NodeId>,
          next: seq<NodeId>, d: nat,
                tree: map<NodeId, seq<NodeId>>, u: NodeId, v: NodeId)
    requires Growing(r, root, ball, visited, parent, next, d, tree) && u in ball && (u, v) in r && v !in visited
    ensures Growing(r, root, ball, visited + {v}, parent[v := u], next + [v], d, tree[v := tree[u] + [v]])
  {
    AddParent(r, root, parent, tree, u, v);
    SetOfAppend(next, v);
    SuccessorIn(r, ball, u, v);
    var t, e := tree[v := tree[u] + [v]], d + 1;
    assert Short(tree, u, d);
    forall n | n in ball ensures Short(t, n, d) { assert Short(tree, n, d); }
    forall n | n in visited + {v} ensures Short(t, n, e) { assert n == v || Short(tree, n, e); }
  }

  lemma StartGrowing(r: Rel, root: NodeId, visited: set<NodeId>, parent: map<NodeId, NodeId>, frontier: seq<NodeId>, d: nat,
                     tree: map<NodeId, seq<NodeId>>)
    requires Side(r, root, visited, parent, frontier, d, tree)
    ensures Growing(r, root, visited, visited, parent, [], d, tree)
  {
    var e := d + 1;
    forall n | n in visited ensures Short(tree, n, e) { assert Short(tree, n, d); }
  }

  /** Every successor of the ball has been seen: the next ball is complete. */
  lemma FinishGrowing(r: Rel, root: NodeId, visited: set<NodeId>, parent: map<NodeId, NodeId>, next: seq<NodeId>, d: nat,
                      tree: map<NodeId, seq<NodeId>>)
    requires Growing(r, root, Ball(r, root, d), visited, parent, next, d, tree)
    requires forall u, v :: u in Layer(r, root, d) && (u, v) in r ==> v in visited
    ensures Side(r, root, visited, parent, next, d + 1, tree)
  {
    forall v | v in Ball(r, root, d + 1)
      ensures v in visited
    {
      if v !in Ball(r, root, d) {
        var e :| e in r && e.0 in Ball(r, root, d) && e.1 == v;
        SuccessorOfLayer(r, root, d, e.0, v);
        assert (e.0, v) in r;
      }
    }
  }

  /** Leaving the ball means leaving its last layer. */
  lemma SuccessorOfLayer(r: Rel, root: NodeId, d: nat, u: NodeId, v: NodeId)
    requires u in Ball(r, root, d) && (u, v) in r && v !in Ball(r, root, d)
    ensures u in Layer(r, root, d)
  {
    if u in Before(r, root, d) {
      SuccessorNear(r, root, d, u, v);
    }
  }

  /** With an empty frontier nothing is left to expand, and the ball stays as it is. */
  lemma Idle(r: Rel, root: NodeId, visited: set<NodeId>, parent: map<NodeId, NodeId>, d: nat, tree: map<NodeId, seq<NodeId>>)
    requires Side(r, root, visited, parent, [], d, tree)
    ensures Side(r, root, visited, parent, [], d + 1, tree)
    ensures Ball(r, root, d + 1) == Ball(r, root, d)
  {
    assert Layer(r, root, d) == {};
    StartGrowing(r, root, visited, parent, [], d, tree);
    FinishGrowing(r, root, visited, parent, [], d, tree);
  }

  /** `n` was found from `u`, over an edge. */
  ghost predicate FoundFrom(r: Rel, parent: map<NodeId, NodeId>, n: NodeId, u: NodeId) {
    n in parent && parent[n] == u && (u, n) in r
  }

  /** `n` was found from the first node of the frontier that has an edge to it. */
  ghost predicate FoundFirst(r: Rel, frontier: seq<NodeId>, parent: map<NodeId, NodeId>, n: NodeId) {
    exists k :: FirstAt(r, frontier, parent, n, k)
  }

  ghost predicate FirstAt(r: Rel, frontier: seq<NodeId>, parent: map<NodeId, NodeId>, n: NodeId, k: int) {
    0 <= k < |frontier| && FoundFrom(r, parent, n, frontier[k]) && forall m :: 0 <= m < k ==> (frontier[m], n) !in r
  }

  ghost predicate SameParent(a: map<NodeId, NodeId>, b: map<NodeId, NodeId>, n: NodeId)
    requires n in a
  {
    n in b && b[n] == a[n]
  }

  ghost predicate Extends(a: map<NodeId, NodeId>, b: map<NodeId, NodeId>) {
    forall n {:trigger SameParent(a, b, n)} :: n in a ==> SameParent(a, b, n)
  }

  lemma ExtendsFurther(a: map<NodeId, NodeId>, b: map<NodeId, NodeId>, c: map<NodeId, NodeId>)
    requires Extends(a, b) && Extends(b, c)
    ensures Extends(a, c)
  {
    forall n | n in a ensures SameParent(a, c, n) { assert SameParent(a, b, n) && SameParent(b, c, n); }
  }

  /** One more node found from `u`. */
  lemma OneMoreParent(r: Rel, u: NodeId, known: set<NodeId>, parent0: map<NodeId, NodeId>, parent: map<NodeId, NodeId>, v: NodeId)
    requires ParentsFrom(r, u, known, parent0, parent) && v !in parent && v !in known && (u, v) in r
    ensures ParentsFrom(r, u, known, parent0, parent[v := u])
  {
    var more := parent[v := u];
    forall n | n in parent ensures SameParent(parent, more, n) {}
    ExtendsFurther(parent0, parent, more);
    forall n | n in more && n !in parent0
      ensures FoundFrom(r, more, n, u) && n !in known
    {
      assert n == v || FoundFrom(r, parent, n, u);
    }
  }

  /** What the expansion of a frontier adds to the parent map. */
  ghost predicate NewParents(r: Rel, frontier: seq<NodeId>, parent0: map<NodeId, NodeId>, parent: map<NodeId, NodeId>) {
    && Extends(parent0, parent)
    && (forall n {:trigger FoundFirst(r, frontier, parent, n)} :: n in parent && n !in parent0 ==> FoundFirst(r, frontier, parent, n))
  }

  /** What the expansion of one node adds. */
  ghost predicate ParentsFrom(r: Rel, u: NodeId, known: set<NodeId>, parent0: map<NodeId, NodeId>, parent: map<NodeId, NodeId>) {
    && Extends(parent0, parent)
    && (forall n {:trigger FoundFrom(r, parent, n, u)} :: n in parent && n !in parent0 ==> FoundFrom(r, parent, n, u) && n !in known)
  }

  /** The nodes that the next frontier node adds have no edge from the ones before it. */
  lemma OneMoreNode(r: Rel, frontier: seq<NodeId>, i: nat, known: set<NodeId>, parent0: map<NodeId, NodeId>,
          parent1: map<NodeId, NodeId>, parent: map<NodeId, NodeId>)
    requires i < |frontier| && NewParents(r, frontier, parent0, parent1) && ParentsFrom(r, frontier[i], known, parent1, parent)
    requires forall k, v {:trigger (frontier[k], v) in r} :: 0 <= k < i && (frontier[k], v) in r ==> v in known
    ensures NewParents(r, frontier, parent0, parent)
  {
    ExtendsFurther(parent0, parent1, parent);
    forall n | n in parent && n !in parent0
      ensures FoundFirst(r, frontier, parent, n)
    {
      if n in parent1 {
        assert SameParent(parent1, parent, n);
        assert FoundFirst(r, frontier, parent1, n);
        var k :| FirstAt(r, frontier, parent1, n, k);
        assert FirstAt(r, frontier, parent, n, k);
      } else {
        assert FoundFrom(r, parent, n, frontier[i]);
        assert FirstAt(r, frontier, parent, n, i);
      }
    }
  }

  /** Expands a whole frontier; stops at the first neighbour the other side has visited. */
  method ExpandFrontier(g: Graph, root: NodeId, visited0: set<NodeId>, parent0: map<NodeId, NodeId>,
          frontier: seq<NodeId>, other: set<NodeId>,
                        ghost d: nat, ghost tree0: map<NodeId, seq<NodeId>>)
      returns (met: Option<NodeId>, visited: set<NodeId>, parent: map<NodeId, NodeId>, next: seq<NodeId>, ghost tree: map<NodeId, seq<NodeId>>)
    requires Side(EdgesOf(g), root, visited0, parent0, frontier, d, tree0) && visited0 !! other
    ensures met.Some? ==> met.value in other && ParentsOk(EdgesOf(g), root, parent, tree) && Short(tree, met.value, d + 1)
    ensures met.None? ==> Side(EdgesOf(g), root, visited, parent, next, d + 1, tree) && visited !! other
    ensures NewParents(EdgesOf(g), frontier, parent0, parent)
  {
    met, visited, parent, next, tree := None, visited0, parent0, [], tree0;
    ghost var r, ball := EdgesOf(g), visited0;
    StartGrowing(r, root, visited, parent, frontier, d, tree);
    BallHoldsLayer(r, root, d);
    for i := 0 to |frontier|
      invariant met.None? && visited !! other
      invariant Growing(r, root, ball, visited, parent, next, d, tree) && NewParents(r, frontier, parent0, parent)
      invariant forall k, v {:trigger (frontier[k], v) in r} :: 0 <= k < i && (frontier[k], v) in r ==> v in visited
    {
      assert frontier[i] in SetOf(frontier);
      ghost var before, parent1 := visited, parent;
      met, visited, parent, next, tree := ExpandNode(g, root, visited, parent, next, frontier[i], other, ball, d, tree);
      OneMoreNode(r, frontier, i, before, parent0, parent1, parent);
      if met.Some? {
        return;
      }
    }
    forall u, v | u in Layer(r, root, d) && (u, v) in r
      ensures v in visited
    {
      var k :| 0 <= k < |frontier| && frontier[k] == u;
    }
    FinishGrowing(r, root, visited, parent, next, d, tree);
  }

  lemma BallHoldsLayer(r: Rel, root: NodeId, d: nat)
    ensures Layer(r, root, d) <= Ball(r, root, d)
  {
  }

  method ExpandNode(g: Graph, root: NodeId, visited0: set<NodeId>, parent0: map<NodeId, NodeId>, next0: seq<NodeId>,
          u: NodeId, other: set<NodeId>,
                    ghost ball: set<NodeId>, ghost d: nat, ghost tree0: map<NodeId, seq<NodeId>>)
      returns (met: Option<NodeId>, visited: set<NodeId>, parent: map<NodeId, NodeId>, next: seq<NodeId>, ghost tree: map<NodeId, seq<NodeId>>)
    requires Growing(EdgesOf(g), root, ball, visited0, parent0, next0, d, tree0) && u in ball && visited0 !! other
    ensures met.Some? ==> met.value in other && ParentsOk(EdgesOf(g), root, parent, tree) && Short(tree, met.value, d + 1)
    ensures met.None? ==> Growing(EdgesOf(g), root, ball, visited, parent, next, d, tree) && visited !! other && visited0 <= visited
    ensures met.None? ==> forall v :: (u, v) in EdgesOf(g) ==> v in visited
    ensures ParentsFrom(EdgesOf(g), u, visited0, parent0, parent)
  {
    met, visited, parent, next, tree := None, visited0, parent0, next0, tree0;
    ghost var r := EdgesOf(g);
    var neighbors := Out(g, u);
    for i := 0 to |neighbors|
      invariant met.None? && visited !! other && visited0 <= visited
      invariant Growing(r, root, ball, visited, parent, next, d, tree) && ParentsFrom(r, u, visited0, parent0, parent)
      invariant forall j :: 0 <= j < i ==> neighbors[j].to in visited
    {
      var v := neighbors[i].to;
      OutIsEdge(g, u, u, i);
      assert Short(tree, u, d);
      if v in other {
        AddParent(r, root, parent, tree, u, v);
        OneMoreParent(r, u, visited0, parent0, parent, v);
        parent := parent[v := u];
        tree := tree[v := tree[u] + [v]];
        return Some(v), visited, parent, next, tree;
      }
      if v !in visited {
        GrowOne(r, root, ball, visited, parent, next, d, tree, u, v);
        OneMoreParent(r, u, visited0, parent0, parent, v);
        visited := visited + {v};
        parent := parent[v := u];
        tree := tree[v := tree[u] + [v]];
        next := next + [v];
      }
    }
    forall v | (u, v) in r ensures v in visited { var j := EdgeIsOut(g, u, v); }
  }

  // ------------------------------------------------------------- where the balls meet

  ghost predicate ShortestWalk(r: Rel, p: seq<NodeId>, s: NodeId, t: NodeId) {
    WalkFromTo(r, p, s, t) && forall q :: WalkFromTo(r, q, s, t) ==> |p| <= |q|
  }

  /** A walk of at most `a + b` edges has a node in both balls. */
  lemma Midpoint(r: Rel, back: Rel, p: seq<NodeId>, from: NodeId, to: NodeId, a: nat, b: nat)
    requires forall u, v :: (u, v) in r <==> (v, u) in back
    requires WalkFromTo(r, p, from, to) && |p| <= a + b + 1
    ensures exists n :: n in Ball(r, from, a) && n in Ball(back, to, b)
  {
    var k := if a < |p| - 1 then a else |p| - 1;
    SplitWalk(r, p, k);
    WalkInBall(r, from, p[..k + 1], p[k], a);
    ReverseIsWalk(back, r, p[k..]);
    WalkInBall(back, to, Reverse(p[k..]), p[k], b);
  }

  lemma DisjointBallsFar(r: Rel, back: Rel, from: NodeId, to: NodeId, a: nat, b: nat, vf: set<NodeId>, vb: set<NodeId>)
    requires forall u, v :: (u, v) in r <==> (v, u) in back
    requires vf == Ball(r, from, a) && vb == Ball(back, to, b) && vf !! vb
    ensures forall p :: WalkFromTo(r, p, from, to) ==> |p| > a + b + 1
  {
    forall p | WalkFromTo(r, p, from, to) ensures |p| > a + b + 1 {
      if |p| <= a + b + 1 {
        Midpoint(r, back, p, from, to, a, b);
      }
    }
  }

  lemma MeetingIsShortest(r: Rel, back: Rel, from: NodeId, to: NodeId, f: seq<NodeId>, b: seq<NodeId>, n: NodeId,
          a: nat, k: nat)
    requires forall u, v :: (u, v) in r <==> (v, u) in back
    requires WalkFromTo(r, f, from, n) && WalkFromTo(back, b, to, n) && |f| + |b| <= a + k + 3
    requires forall p :: WalkFromTo(r, p, from, to) ==> |p| > a + k + 1
    ensures ShortestWalk(r, Through(f, b), from, to) && |Through(f, b)| == a + k + 2
  {
    ReverseIsWalk(r, back, b);
    JoinWalks(r, f, Reverse(b), from, n, to);
  }

  /** Walks both parent maps away from the meeting. */
  method ReconstructBidirectionalPath(fwdParent: map<NodeId, NodeId>, bwdParent: map<NodeId, NodeId>, from: NodeId,
          to: NodeId, meeting: NodeId,
                                      ghost r: Rel, ghost back: Rel, ghost tf: map<NodeId, seq<NodeId>>, ghost tb: map<NodeId, seq<NodeId>>)
      returns (path: seq<NodeId>)
    requires ParentsOk(r, from, fwdParent, tf) && ParentsOk(back, to, bwdParent, tb) && meeting in tf && meeting in tb
    ensures path == Through(tf[meeting], tb[meeting])
  {
    path := [meeting];
    var current := meeting;
    assert Spells(r, from, tf, current);
    while current in fwdParent
      invariant current in tf && Spells(r, from, tf, current)
      invariant tf[meeting] == tf[current][..|tf[current]| - 1] + path
      decreases |tf[current]|
    {
      assert Linked(r, fwdParent, tf, current);
      var up := fwdParent[current];
      assert Spells(r, from, tf, up);
      assert tf[current][..|tf[current]| - 1] == tf[up][..|tf[up]| - 1] + [up];
      current := up;
      path := [current] + path;
    }
    assert current == from;
    if path[0] != from {
      path := [from] + path;
    }
    ghost var half := path;
    assert half == tf[meeting];
    current := meeting;
    assert Spells(back, to, tb, current);
    ghost var rest := Reverse(tb[current])[1..];
    while current in bwdParent
      invariant current in tb && Spells(back, to, tb, current)
      invariant rest == Reverse(tb[current])[1..]
      invariant |path| > 0 && path[|path| - 1] == current
      invariant path + rest == Through(tf[meeting], tb[meeting])
      decreases |tb[current]|
    {
      assert Linked(back, bwdParent, tb, current);
      var down := bwdParent[current];
      assert Spells(back, to, tb, down);
      assert Reverse(tb[current]) == [current] + Reverse(tb[down]);
      assert rest == [down] + Reverse(tb[down])[1..];
      rest := rest[1..];
      current := down;
      path := path + [current];
    }
    assert current == to && rest == [];
    if path[|path| - 1] != to {
      path := path + [to];
    }
  }

  /** Both sides after `depth` rounds, still apart. */
  ghost predicate Apart(r: Rel, back: Rel, from: NodeId, to: NodeId, depth: nat,
                        vf: set<NodeId>, pf: map<NodeId, NodeId>, ff: seq<NodeId>, tf: map<NodeId, seq<NodeId>>,
                        vb: set<NodeId>, pb: map<NodeId, NodeId>, fb: seq<NodeId>, tb: map<NodeId, seq<NodeId>>) {
    Side(r, from, vf, pf, ff, depth, tf) && Side(back, to, vb, pb, fb, depth, tb) && vf !! vb
  }

  lemma StartSide(r: Rel, root: NodeId)
    ensures Side(r, root, {root}, map[], [root], 0, map[root := [root]])
  {
    var t := map[root := [root]];
    assert WalkFromTo(r, [root], root, root);
    assert Spells(r, root, t, root);
    assert SetOf([root]) == {root};
  }

  /** With both frontiers empty the balls stay apart for ever. */
  lemma {:induction false} ApartForEver(r: Rel, back: Rel, from: NodeId, to: NodeId, depth: nat, p: seq<NodeId>)
    requires forall u, v :: (u, v) in r <==> (v, u) in back
    requires Ball(r, from, depth) !! Ball(back, to, depth)
    requires Ball(r, from, depth + 1) == Ball(r, from, depth) && Ball(back, to, depth + 1) == Ball(back, to, depth)
    ensures !WalkFromTo(r, p, from, to)
  {
    if WalkFromTo(r, p, from, to) {
      var k := depth + |p|;
      BallStops(r, from, depth, k);
      BallStops(back, to, depth, k);
      Midpoint(r, back, p, from, to, k, k);
    }
  }

  /** Expands one frontier unless it is empty. */
  method ExpandSide(g: Graph, root: NodeId, visited0: set<NodeId>, parent0: map<NodeId, NodeId>,
          frontier: seq<NodeId>, other: set<NodeId>,
                    ghost d: nat, ghost tree0: map<NodeId, seq<NodeId>>)
      returns (met: Option<NodeId>, visited: set<NodeId>, parent: map<NodeId, NodeId>, next: seq<NodeId>, ghost tree: map<NodeId, seq<NodeId>>)
    requires Side(EdgesOf(g), root, visited0, parent0, frontier, d, tree0) && visited0 !! other
    ensures met.Some? ==> met.value in other && ParentsOk(EdgesOf(g), root, parent, tree) && Short(tree, met.value, d + 1)
    ensures met.None? ==> Side(EdgesOf(g), root, visited, parent, next, d + 1, tree) && visited !! other
  {
    if |frontier| > 0 {
      met, visited, parent, next, tree := ExpandFrontier(g, root, visited0, parent0, frontier, other, d, tree0);
    } else {
      Idle(EdgesOf(g), root, visited0, parent0, d, tree0);
      met, visited, parent, next, tree := None, visited0, parent0, [], tree0;
    }
  }

  /** Hands out the path through the meeting found when balls of radius `a` and `k` were still apart. */
  method Meet(pf: map<NodeId, NodeId>, pb: map<NodeId, NodeId>, from: NodeId, to: NodeId, meeting: NodeId,
          ghost r: Rel, ghost back: Rel,
              ghost tf: map<NodeId, seq<NodeId>>, ghost tb: map<NodeId, seq<NodeId>>, ghost a: nat, ghost k: nat) returns (answer: PathAnswer)
    requires forall u, v :: (u, v) in r <==> (v, u) in back
    requires ParentsOk(r, from, pf, tf) && ParentsOk(back, to, pb, tb)
    requires meeting in tf && meeting in tb && |tf[meeting]| + |tb[meeting]| <= a + k + 3
    requires forall p :: WalkFromTo(r, p, from, to) ==> |p| > a + k + 1
    ensures answer.Found? && ShortestWalk(r, answer.path, from, to) && |answer.path| == a + k + 2
  {
    assert Spells(r, from, tf, meeting) && Spells(back, to, tb, meeting);
    MeetingIsShortest(r, back, from, to, tf[meeting], tb[meeting], meeting, a, k);
    var path := ReconstructBidirectionalPath(pf, pb, from, to, meeting, r, back, tf, tb);
    answer := Found(path);
  }

  /** What the two half rounds need about the providers' edges. */
  ghost predicate Mirrored(r: Rel, back: Rel) {
    forall u, v :: (u, v) in r <==> (v, u) in back
  }

  /** Grows the forward side by one layer. */
  method ForwardHalf(g: Graph, from: NodeId, to: NodeId, vf0: set<NodeId>, pf0: map<NodeId, NodeId>, ff0: seq<NodeId>,
                     vb: set<NodeId>, pb: map<NodeId, NodeId>, ghost fb: seq<NodeId>, ghost back: Rel, ghost depth: nat,
                     ghost tf0: map<NodeId, seq<NodeId>>, ghost tb: map<NodeId, seq<NodeId>>)
      returns (answer: PathAnswer, vf: set<NodeId>, pf: map<NodeId, NodeId>, ff: seq<NodeId>, ghost tf: map<NodeId, seq<NodeId>>)
    requires Mirrored(EdgesOf(g), back) && Apart(EdgesOf(g), back, from, to, depth, vf0, pf0, ff0, tf0, vb, pb, fb, tb)
    ensures answer.Found? ==> ShortestWalk(EdgesOf(g), answer.path, from, to) && |answer.path| == 2 * depth + 2
    ensures answer.NotFound? ==> Side(EdgesOf(g), from, vf, pf, ff, depth + 1, tf) && vf !! vb
  {
    DisjointBallsFar(EdgesOf(g), back, from, to, depth, depth, vf0, vb);
    var met;
    met, vf, pf, ff, tf := ExpandSide(g, from, vf0, pf0, ff0, vb, depth, tf0);
    answer := NotFound;
    if met.Some? {
      assert Short(tb, met.value, depth);
      answer := Meet(pf, pb, from, to, met.value, EdgesOf(g), back, tf, tb, depth, depth);
    }
  }

  /** Grows the backward side by one layer, the forward side being one ahead. */
  method BackwardHalf(inn: Graph, from: NodeId, to: NodeId, vf: set<NodeId>, pf: map<NodeId, NodeId>, ghost ff: seq<NodeId>,
                      vb0: set<NodeId>, pb0: map<NodeId, NodeId>, fb0: seq<NodeId>, ghost r: Rel, ghost depth: nat, ghost ahead: nat,
                      ghost tf: map<NodeId, seq<NodeId>>, ghost tb0: map<NodeId, seq<NodeId>>)
      returns (answer: PathAnswer, vb: set<NodeId>, pb: map<NodeId, NodeId>, fb: seq<NodeId>, ghost tb: map<NodeId, seq<NodeId>>)
    requires Mirrored(r, EdgesOf(inn)) && ahead == depth + 1 && vf !! vb0
    requires Side(r, from, vf, pf, ff, ahead, tf) && Side(EdgesOf(inn), to, vb0, pb0, fb0, depth, tb0)
    ensures answer.Found? ==> ShortestWalk(r, answer.path, from, to) && |answer.path| == 2 * depth + 3
    ensures answer.NotFound? ==> Side(EdgesOf(inn), to, vb, pb, fb, ahead, tb) && vf !! vb
  {
    DisjointBallsFar(r, EdgesOf(inn), from, to, ahead, depth, vf, vb0);
    var met;
    met, vb, pb, fb, tb := ExpandSide(inn, to, vb0, pb0, fb0, vf, depth, tb0);
    answer := NotFound;
    if met.Some? {
      assert Short(tf, met.value, ahead);
      answer := Meet(pf, pb, from, to, met.value, r, EdgesOf(inn), tf, tb, ahead, depth);
    }
  }

  lemma NeverMeet(r: Rel, back: Rel, from: NodeId, to: NodeId, depth: nat,
                  vf: set<NodeId>, pf: map<NodeId, NodeId>, tf: map<NodeId, seq<NodeId>>,
                  vb: set<NodeId>, pb: map<NodeId, NodeId>, tb: map<NodeId, seq<NodeId>>)
    requires Mirrored(r, back) && Apart(r, back, from, to, depth, vf, pf, [], tf, vb, pb, [], tb)
    ensures forall p :: !WalkFromTo(r, p, from, to)
  {
    Idle(r, from, vf, pf, depth, tf);
    Idle(back, to, vb, pb, depth, tb);
    forall p ensures !WalkFromTo(r, p, from, to) { ApartForEver(r, back, from, to, depth, p); }
  }

  /** The shortest walk if one of at most `2 * maxDepth` edges exists, on any directed graph. */
  method ShortestPath(g: Graph, inn: Graph, from: NodeId, to: NodeId, maxDepth: nat) returns (answer: PathAnswer)
    requires Inverse(g, inn)
    ensures answer.Found? ==> ShortestWalk(EdgesOf(g), answer.path, from, to)
    ensures answer.Found? <==> exists p :: WalkFromTo(EdgesOf(g), p, from, to) && |p| - 1 <= 2 * maxDepth
  {
    ghost var e, back := EdgesOf(g), EdgesOf(inn);
    forall u, v ensures (u, v) in e <==> (v, u) in back { InverseEdge(g, inn, u, v); }
    if from == to {
      assert WalkFromTo(e, [from], from, to);
      return Found([from]);
    }
    var vf: set<NodeId>, pf: map<NodeId, NodeId>, ff := {from}, map[], [from];
    var vb: set<NodeId>, pb: map<NodeId, NodeId>, fb := {to}, map[], [to];
    ghost var tf, tb := map[from := [from]], map[to := [to]];
    StartSide(e, from);
    StartSide(back, to);
    for depth := 0 to maxDepth
      invariant Apart(e, back, from, to, depth, vf, pf, ff, tf, vb, pb, fb, tb)
    {
      if |ff| == 0 && |fb| == 0 {
        NeverMeet(e, back, from, to, depth, vf, pf, tf, vb, pb, tb);
        return NotFound;
      }
      answer, vf, pf, ff, tf := ForwardHalf(g, from, to, vf, pf, ff, vb, pb, fb, back, depth, tf, tb);
      if answer.Found? {
        return;
      }
      answer, vb, pb, fb, tb := BackwardHalf(inn, from, to, vf, pf, ff, vb, pb, fb, e, depth, depth + 1, tf, tb);
      if answer.Found? {
        return;
      }
    }
    DisjointBallsFar(e, back, from, to, maxDepth, maxDepth, vf, vb);
    answer := NotFound;
  }
}
