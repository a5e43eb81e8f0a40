/** Transitive reduction: the edges that a longer walk makes redundant are dropped, all others are kept. */
module Reduction {
  import opened Graphs
  import opened Sorting
  import opened Topology

  /** One labelled edge of the answer. */
  datatype Triple = Triple(from: NodeId, to: NodeId, lbl: int)

  datatype ReductionResult = NotFound | Cyclic | Reduced(edges: seq<Triple>, removed: nat)

  // ------------------------------------------------------------------- redundancy

  ghost predicate IsLongWalk(r: Rel, p: seq<NodeId>, u: NodeId, v: NodeId) {
    WalkFromTo(r, p, u, v) && |p| >= 3
  }

  /** Some walk of at least two edges leads from `u` to `v`. */
  ghost predicate LongWalk(r: Rel, u: NodeId, v: NodeId) {
    exists p :: IsLongWalk(r, p, u, v)
  }

  lemma GrandchildIsLong(r: Rel, u: NodeId, s: NodeId, x: NodeId)
    requires (u, s) in r && (s, x) in r
    ensures LongWalk(r, u, x)
  {
    var p := [u, s, x];
    assert EdgeAt(r, p, 0) && EdgeAt(r, p, 1);
    assert IsLongWalk(r, p, u, x);
  }

  lemma LongWalkStep(r: Rel, u: NodeId, x: NodeId, y: NodeId)
    requires LongWalk(r, u, x) && (x, y) in r
    ensures LongWalk(r, u, y)
  {
    var p :| IsLongWalk(r, p, u, x);
    ExtendWalk(r, p, u, x, y);
    assert IsLongWalk(r, p + [y], u, y);
  }

  /** A set with all grandchildren of `u`, closed under the edges, holds whatever a long walk reaches. */
  lemma ClosedHoldsLong(r: Rel, u: NodeId, c: set<NodeId>, v: NodeId)
    requires forall s, x :: (u, s) in r && (s, x) in r ==> x in c
    requires forall x, y :: x in c && (x, y) in r ==> y in c
    requires LongWalk(r, u, v)
    ensures v in c
  {
    var p :| IsLongWalk(r, p, u, v);
    assert EdgeAt(r, p, 0) && EdgeAt(r, p, 1);
    var s, x := p[1], p[2];
    assert (u, s) in r && (s, x) in r;
    SplitWalk(r, p, 2);
    assert p[2..][0] == x;
    ClosedHoldsWalks(r, c, p[2..], |p| - 3);
  }

  /** What the search from `u` marks: nothing when there is at most one neighbour-list entry. */
  ghost predicate Redundant(g: Graph, u: NodeId, v: NodeId) {
    |Out(g, u)| > 1 && (u, v) in EdgesOf(g) && LongWalk(EdgesOf(g), u, v)
  }

  ghost predicate MarksUpTo(g: Graph, us: seq<NodeId>, marks: Rel) {
    forall k {:trigger Redundant(g, k.0, k.1)} {:trigger k in marks} :: k in marks <==> k.0 in us && Redundant(g, k.0, k.1)
  }

  // ------------------------------------------------------- marking the edges of one node

  /** The search over the descendants of `u`: `seen` in order of discovery, the first `done` of them expanded. */
  ghost predicate Searching(g: Graph, u: NodeId, seen: seq<NodeId>, done: nat) {
    && Distinct(seen) && done <= |seen|
    && (forall x {:trigger LongWalk(EdgesOf(g), u, x)} :: x in seen ==> LongWalk(EdgesOf(g), u, x))
    && (forall x, y {:trigger (x, y) in EdgesOf(g)} :: x in seen[..done] && (x, y) in EdgesOf(g) ==> y in seen)
  }

  lemma SeenFits(g: Graph, u: NodeId, seen: seq<NodeId>, done: nat)
    requires Searching(g, u, seen, done)
    ensures |seen| <= |Universe(g, u)|
  {
    DistinctSize(seen);
    forall x | x in SetOf(seen)
      ensures x in Universe(g, u)
    {
      assert LongWalk(EdgesOf(g), u, x);
      var p :| IsLongWalk(EdgesOf(g), p, u, x);
      assert EdgeAt(EdgesOf(g), p, |p| - 2);
    }
    SubsetCard(SetOf(seen), Universe(g, u));
  }

  /** Adds the unseen successors of `x` to the next frontier. */
  method AddSuccessors(g: Graph, u: NodeId, x: NodeId, visited0: set<NodeId>, next0: seq<NodeId>,
          ghost seen0: seq<NodeId>, ghost done: nat)
      returns (visited: set<NodeId>, next: seq<NodeId>, ghost seen: seq<NodeId>)
    requires Searching(g, u, seen0, done) && visited0 == SetOf(seen0)
    requires (u, x) in EdgesOf(g) || LongWalk(EdgesOf(g), u, x)
    ensures Searching(g, u, seen, done) && visited == SetOf(seen)
    ensures exists added :: seen == seen0 + added && next == next0 + added
    ensures forall y :: (x, y) in EdgesOf(g) ==> y in seen
  {
    visited, next, seen := visited0, next0, seen0;
    ghost var added := [];
    var successors := Out(g, x);
    for i := 0 to |successors|
      invariant Searching(g, u, seen, done) && visited == SetOf(seen)
      invariant seen == seen0 + added && next == next0 + added
      invariant forall j :: 0 <= j < i ==> successors[j].to in seen
    {
      var y := successors[i].to;
      if y !in visited {
        OutIsEdge(g, u, x, i);
        if (u, x) in EdgesOf(g) {
          GrandchildIsLong(EdgesOf(g), u, x, y);
        } else {
          LongWalkStep(EdgesOf(g), u, x, y);
        }
        SetOfAppend(seen, y);
        assert (seen + [y])[..done] == seen[..done];
        visited := visited + {y};
        next := next + [y];
        seen := seen + [y];
        added := added + [y];
      }
    }
    forall y | (x, y) in EdgesOf(g)
      ensures y in seen
    {
      var j := EdgeIsOut(g, x, y);
    }
  }

  lemma ExpandedNext(g: Graph, u: NodeId, seen: seq<NodeId>, done: nat)
    requires Searching(g, u, seen, done) && done < |seen|
    requires forall y :: (seen[done], y) in EdgesOf(g) ==> y in seen
    ensures Searching(g, u, seen, done + 1)
  {
    assert seen[..done + 1] == seen[..done] + [seen[done]];
  }

  ghost predicate Grandchildren(g: Graph, u: NodeId, i: int, seen: seq<NodeId>)
    requires 0 <= i <= |Out(g, u)|
  {
    forall j, y {:trigger (Out(g, u)[j].to, y) in EdgesOf(g)} :: 0 <= j < i && (Out(g, u)[j].to, y) in EdgesOf(g) ==> y in seen
  }

  /** The marks on the edges of `u` are those to the expanded nodes; all other marks are as before. */
  ghost predicate Marking(g: Graph, u: NodeId, seen: seq<NodeId>, done: nat, marks0: Rel, marks: Rel)
    requires done <= |seen|
  {
    forall k {:trigger k in marks} :: k in marks <==> k in marks0 || (k.0 == u && k in EdgesOf(g) && k.1 in seen[..done])
  }

  /** Marks the edges of `u` to the nodes of one frontier, and collects the next one. */
  method ExpandFrontier(g: Graph, u: NodeId, directSet: set<NodeId>, visited0: set<NodeId>, frontier: seq<NodeId>, marks0: Rel,
                        ghost seen0: seq<NodeId>, ghost done0: nat, ghost original: Rel)
      returns (visited: set<NodeId>, next: seq<NodeId>, marks: Rel, ghost seen: seq<NodeId>)
    requires Searching(g, u, seen0, done0) && visited0 == SetOf(seen0) && seen0[done0..] == frontier
    requires forall v :: v in directSet <==> (u, v) in EdgesOf(g)
    requires Marking(g, u, seen0, done0, original, marks0)
    ensures Searching(g, u, seen, |seen0|) && visited == SetOf(seen) && seen0 <= seen && seen[|seen0|..] == next
    ensures Marking(g, u, seen, |seen0|, original, marks)
  {
    visited, next, marks, seen := visited0, [], marks0, seen0;
    for i := 0 to |frontier|
      invariant Searching(g, u, seen, done0 + i) && visited == SetOf(seen)
      invariant seen == seen0 + next
      invariant Marking(g, u, seen, done0 + i, original, marks)
    {
      var x := frontier[i];
      assert seen[done0 + i] == x && LongWalk(EdgesOf(g), u, x);
      if x in directSet {
        marks := marks + {(u, x)};
      }
      ghost var before := seen;
      visited, next, seen := AddSuccessors(g, u, x, visited, next, seen, done0 + i);
      ExpandedNext(g, u, seen, done0 + i);
      assert seen[..done0 + i + 1] == before[..done0 + i] + [x];
    }
  }

  lemma AllMarked(g: Graph, u: NodeId, seen: seq<NodeId>, marks0: Rel, marks: Rel)
    requires |Out(g, u)| > 1 && Searching(g, u, seen, |seen|) && Grandchildren(g, u, |Out(g, u)|, seen)
    requires Marking(g, u, seen, |seen|, marks0, marks)
    ensures forall k :: k in marks <==> k in marks0 || (k.0 == u && Redundant(g, k.0, k.1))
  {
    assert seen[..|seen|] == seen;
    forall k: (NodeId, NodeId) | k.0 == u && k in EdgesOf(g)
      ensures k.1 in seen <==> Redundant(g, k.0, k.1)
    {
      if Redundant(g, u, k.1) {
        forall s, x | (u, s) in EdgesOf(g) && (s, x) in EdgesOf(g)
          ensures x in SetOf(seen)
        {
          var j := EdgeIsOut(g, u, s);
        }
        ClosedHoldsLong(EdgesOf(g), u, SetOf(seen), k.1);
      }
    }
  }

  /** Marks the redundant edges of `u`: breadth-first from its grandchildren. */
  method MarkNode(g: Graph, u: NodeId, marks0: Rel) returns (marks: Rel)
    ensures forall k :: k in marks <==> k in marks0 || (k.0 == u && Redundant(g, k.0, k.1))
  {
    marks := marks0;
    var directEdges := Out(g, u);
    if |directEdges| <= 1 {
      return;
    }
    var directSet: set<NodeId>, visited: set<NodeId>, frontier: seq<NodeId> := {}, {}, [];
    ghost var seen: seq<NodeId> := [];
    for i := 0 to |directEdges|
      invariant Searching(g, u, seen, 0) && visited == SetOf(seen) && seen == frontier
      invariant Grandchildren(g, u, i, seen)
      invariant forall v :: v in directSet <==> exists j :: 0 <= j < i && directEdges[j].to == v
    {
      OutIsEdge(g, u, u, i);
      directSet := directSet + {directEdges[i].to};
      ghost var before := seen;
      visited, frontier, seen := AddSuccessors(g, u, directEdges[i].to, visited, frontier, seen, 0);
      assert before <= seen;
    }
    forall v
      ensures v in directSet <==> (u, v) in EdgesOf(g)
    {
      if v in directSet {
        var j: nat :| j < |directEdges| && directEdges[j].to == v;
        OutIsEdge(g, u, u, j);
      }
      if (u, v) in EdgesOf(g) {
        var j := EdgeIsOut(g, u, v);
      }
    }
    ghost var done: nat := 0;
    while |frontier| > 0
      invariant Searching(g, u, seen, done) && visited == SetOf(seen) && seen[done..] == frontier
      invariant Grandchildren(g, u, |directEdges|, seen)
      invariant Marking(g, u, seen, done, marks0, marks)
      decreases |Universe(g, u)| - done
    {
      SeenFits(g, u, seen, done);
      ghost var before := seen;
      visited, frontier, marks, seen := ExpandFrontier(g, u, directSet, visited, frontier, marks, seen, done, marks0);
      done := |before|;
      SeenFits(g, u, seen, done);
    }
    AllMarked(g, u, seen, marks0, marks);
  }

  // ------------------------------------------------------------- collecting the answer

  ghost function EntriesOf(g: Graph, u: NodeId, i: nat): seq<Triple>
    requires i <= |Out(g, u)|
  {
    if i == 0 then [] else EntriesOf(g, u, i - 1) + [Triple(u, Out(g, u)[i - 1].to, Out(g, u)[i - 1].lbl)]
  }

  /** All neighbour-list entries of the nodes, node by node. */
  ghost function AllEntries(g: Graph, us: seq<NodeId>): seq<Triple> {
    if us == [] then [] else AllEntries(g, us[..|us| - 1]) + EntriesOf(g, us[|us| - 1], |Out(g, us[|us| - 1])|)
  }

  /** The entries that are not redundant. */
  ghost function Kept(g: Graph, es: seq<Triple>): seq<Triple> {
    if es == [] then [] else
      var last := es[|es| - 1];
      Kept(g, es[..|es| - 1]) + (if Redundant(g, last.from, last.to) then [] else [last])
  }

  predicate TripleLeq(a: Triple, b: Triple) {
    a.from < b.from || (a.from == b.from && (a.to < b.to || (a.to == b.to && a.lbl <= b.lbl)))
  }

  /** `edges` are the entries of the sorted nodes that are not redundant, in order; the rest is counted. */
  ghost predicate Collected(g: Graph, order: seq<NodeId>, edges: seq<Triple>, removed: nat) {
    && SortedBy(TripleLeq, edges)
    && multiset(edges) == multiset(Kept(g, AllEntries(g, order)))
    && |edges| + removed == |AllEntries(g, order)|
  }

  method CollectNode(g: Graph, u: NodeId, redundant: Rel, edges0: seq<Triple>, removed0: nat, ghost before: seq<Triple>)
      returns (edges: seq<Triple>, removed: nat)
    requires edges0 == Kept(g, before) && |edges0| + removed0 == |before|
    requires forall v :: (u, v) in redundant <==> Redundant(g, u, v)
    ensures edges == Kept(g, before + EntriesOf(g, u, |Out(g, u)|))
    ensures |edges| + removed == |before + EntriesOf(g, u, |Out(g, u)|)|
  {
    edges, removed := edges0, removed0;
    var neighbors := Out(g, u);
    assert before + EntriesOf(g, u, 0) == before;
    for i := 0 to |neighbors|
      invariant edges == Kept(g, before + EntriesOf(g, u, i)) && |edges| + removed == |before + EntriesOf(g, u, i)|
    {
      var t := Triple(u, neighbors[i].to, neighbors[i].lbl);
      assert before + EntriesOf(g, u, i + 1) == (before + EntriesOf(g, u, i)) + [t];
      if (u, neighbors[i].to) in redundant {
        removed := removed + 1;
      } else {
        edges := edges + [t];
      }
    }
  }

  method Collect(g: Graph, order: seq<NodeId>, redundant: Rel) returns (edges: seq<Triple>, removed: nat)
    requires MarksUpTo(g, order, redundant)
    ensures Collected(g, order, edges, removed)
  {
    edges, removed := [], 0;
    for n := 0 to |order|
      invariant edges == Kept(g, AllEntries(g, order[..n])) && |edges| + removed == |AllEntries(g, order[..n])|
    {
      assert order[..n + 1][..n] == order[..n];
      forall v ensures (order[n], v) in redundant <==> Redundant(g, order[n], v) {
        var k := (order[n], v);
        assert k in redundant <==> k.0 in order && Redundant(g, k.0, k.1);
      }
      edges, removed := CollectNode(g, order[n], redundant, edges, removed, AllEntries(g, order[..n]));
    }
    assert order[..|order|] == order;
    edges := Sort(TripleLeq, edges);
    SameSize(edges, Kept(g, AllEntries(g, order)));
  }

  lemma SameSize(a: seq<Triple>, b: seq<Triple>)
    requires multiset(a) == multiset(b)
    ensures |a| == |b|
  {
    assert |multiset(a)| == |a| && |multiset(b)| == |b|;
  }

  method TransitiveReduction(g: Graph, start: seq<NodeId>, maxNodes: nat) returns (r: ReductionResult)
    ensures r.NotFound? <==> exists s :: s in start && s !in g.alive
    ensures r.Cyclic? ==> !Acyclic(EdgesOf(g), ReachableSet(g, start))
    ensures r.Reduced? ==> ReducedFrom(g, ReachableSet(g, start), maxNodes, r.edges, r.removed)
  {
    var t := TopologicalSort(g, start, maxNodes, true);
    if t.InvalidStart? {
      return NotFound;
    }
    if t.GraphHasCycles? {
      return Cyclic;
    }
    var sorted := t.sorted;
    var redundant: Rel := {};
    for n := 0 to |sorted|
      invariant MarksUpTo(g, sorted[..n], redundant)
    {
      redundant := MarkNode(g, sorted[n], redundant);
      assert sorted[..n + 1] == sorted[..n] + [sorted[n]];
    }
    assert sorted[..|sorted|] == sorted;
    var edges, removed := Collect(g, sorted, redundant);
    assert SortedOver(EdgesOf(g), ReachableSet(g, start), maxNodes, sorted);
    r := Reduced(edges, removed);
  }

  ghost predicate SortedOver(r: Rel, d: set<NodeId>, maxNodes: nat, order: seq<NodeId>) {
    Greedy(r, d, order) && |order| == if maxNodes < |d| then maxNodes else |d|
  }

  ghost predicate ReducedFrom(g: Graph, d: set<NodeId>, maxNodes: nat, edges: seq<Triple>, removed: nat) {
    exists order :: SortedOver(EdgesOf(g), d, maxNodes, order) && Collected(g, order, edges, removed)
  }

  // ------------------------------------------------- the reduction theorem, on acyclic graphs

  /** The edge relation of the answer. */
  ghost function RelOf(edges: seq<Triple>): Rel {
    set t | t in edges :: (t.from, t.to)
  }

  lemma {:induction false} KeptEntries(g: Graph, es: seq<Triple>, t: Triple)
    ensures t in Kept(g, es) <==> t in es && !Redundant(g, t.from, t.to)
    decreases |es|
  {
    if es != [] {
      var m := |es| - 1;
      KeptEntries(g, es[..m], t);
      assert es == es[..m] + [es[m]];
    }
  }

  lemma {:induction false} EntryListed(g: Graph, u: NodeId, i: nat, t: Triple)
    requires i <= |Out(g, u)|
    ensures t in EntriesOf(g, u, i) <==> t.from == u && exists j :: 0 <= j < i && Out(g, u)[j] == Edge(t.to, t.lbl)
    decreases i
  {
    if i > 0 {
      EntryListed(g, u, i - 1, t);
      if t.from == u && Out(g, u)[i - 1] == Edge(t.to, t.lbl) {
        assert t == Triple(u, Out(g, u)[i - 1].to, Out(g, u)[i - 1].lbl);
      }
    }
  }

  lemma {:induction false} AllEntriesListed(g: Graph, us: seq<NodeId>, t: Triple)
    ensures t in AllEntries(g, us) <==> t.from in us && exists j :: 0 <= j < |Out(g, t.from)| && Out(g, t.from)[j] == Edge(t.to, t.lbl)
    decreases |us|
  {
    if us != [] {
      var m := |us| - 1;
      AllEntriesListed(g, us[..m], t);
      EntryListed(g, us[m], |Out(g, us[m])|, t);
      assert us == us[..m] + [us[m]];
    }
  }

  /** The kept pairs are exactly the edges of the sorted nodes that are not redundant. */
  lemma KeptPairs(g: Graph, order: seq<NodeId>, edges: seq<Triple>, removed: nat, u: NodeId, v: NodeId)
    requires Collected(g, order, edges, removed)
    ensures (u, v) in RelOf(edges) <==> u in order && (u, v) in EdgesOf(g) && !Redundant(g, u, v)
  {
    var kept := Kept(g, AllEntries(g, order));
    if (u, v) in RelOf(edges) {
      var t :| t in edges && t.from == u && t.to == v;
      assert t in multiset(edges) && t in multiset(kept);
      KeptEntries(g, AllEntries(g, order), t);
      AllEntriesListed(g, order, t);
      var j: nat :| j < |Out(g, u)| && Out(g, u)[j] == Edge(t.to, t.lbl);
      OutIsEdge(g, u, u, j);
    }
    if u in order && (u, v) in EdgesOf(g) && !Redundant(g, u, v) {
      var j := EdgeIsOut(g, u, v);
      var t := Triple(u, v, Out(g, u)[j].lbl);
      assert Out(g, u)[j] == Edge(t.to, t.lbl);
      AllEntriesListed(g, order, t);
      KeptEntries(g, AllEntries(g, order), t);
      assert t in multiset(kept) && t in multiset(edges);
    }
  }

  ghost function Pos(order: seq<NodeId>, n: NodeId): (i: nat)
    requires n in order
    ensures i < |order| && order[i] == n
  {
    var i: nat :| i < |order| && order[i] == n;
    i
  }

  lemma {:induction false} StaysInside(r: Rel, d: set<NodeId>, p: seq<NodeId>, k: nat)
    requires forall u, v :: u in d && (u, v) in r ==> v in d
    requires IsWalk(r, p) && p[0] in d && k < |p|
    ensures p[k] in d
  {
    ClosedHoldsWalks(r, d, p, k);
  }

  /** Along a walk the positions in a topological order grow by at least one per hop. */
  lemma {:induction false} PositionsGrow(r: Rel, d: set<NodeId>, order: seq<NodeId>, p: seq<NodeId>, i: nat, j: nat)
    requires TopologicalOrder(r, d, order) && IsWalk(r, p) && (forall k :: 0 <= k < |p| ==> p[k] in order)
    requires i <= j < |p|
    ensures Pos(order, p[i]) + j - i <= Pos(order, p[j])
    decreases j
  {
    if i < j {
      PositionsGrow(r, d, order, p, i, j - 1);
      assert EdgeAt(r, p, j - 1);
    }
  }

  /** Everything the reduction argument needs to know. */
  ghost predicate Reducible(g: Graph, d: set<NodeId>, order: seq<NodeId>, k: Rel) {
    && TopologicalOrder(EdgesOf(g), d, order)
    && (forall u, v {:trigger (u, v) in EdgesOf(g)} :: u in d && (u, v) in EdgesOf(g) ==> v in d)
    && (forall u, v {:trigger (u, v) in k} {:trigger Redundant(g, u, v)} ::
          (u, v) in k <==> u in d && (u, v) in EdgesOf(g) && !Redundant(g, u, v))
  }

  /** Every edge can be walked over kept edges; by induction on how far apart its ends are in the order. */
  lemma {:induction false} EdgeIsWalkable(g: Graph, d: set<NodeId>, order: seq<NodeId>, k: Rel, u: NodeId, v: NodeId)
    requires Reducible(g, d, order, k) && u in d && (u, v) in EdgesOf(g)
    requires u in order && v in order
    ensures Reachable(k, u, v)
    decreases Pos(order, v) - Pos(order, u), 0
  {
    if Redundant(g, u, v) {
      var p :| IsLongWalk(EdgesOf(g), p, u, v);
      forall i | 0 <= i < |p| ensures p[i] in order {
        StaysInside(EdgesOf(g), d, p, i);
        assert p[i] in SetOf(order);
      }
      PrefixIsWalkable(g, d, order, k, p, |p| - 1);
    } else {
      assert EdgeAt(k, [u, v], 0);
      assert WalkFromTo(k, [u, v], u, v);
    }
  }

  lemma {:induction false} PrefixIsWalkable(g: Graph, d: set<NodeId>, order: seq<NodeId>, k: Rel, p: seq<NodeId>, n: nat)
    requires Reducible(g, d, order, k) && IsWalk(EdgesOf(g), p) && |p| >= 3 && n < |p| && p[0] in d
    requires forall i :: 0 <= i < |p| ==> p[i] in order
    ensures Reachable(k, p[0], p[n])
    decreases Pos(order, p[|p| - 1]) - Pos(order, p[0]), 0, n
  {
    if n == 0 {
      ReachableSelf(k, p[0]);
    } else {
      PrefixIsWalkable(g, d, order, k, p, n - 1);
      PositionsGrow(EdgesOf(g), d, order, p, 0, n - 1);
      PositionsGrow(EdgesOf(g), d, order, p, n, |p| - 1);
      PositionsGrow(EdgesOf(g), d, order, p, n - 1, n);
      assert EdgeAt(EdgesOf(g), p, n - 1);
      StaysInside(EdgesOf(g), d, p, n - 1);
      EdgeIsWalkable(g, d, order, k, p[n - 1], p[n]);
      ReachableTrans(k, p[0], p[n - 1], p[n]);
    }
  }

  lemma SubWalk(k: Rel, r: Rel, p: seq<NodeId>)
    requires k <= r && IsWalk(k, p)
    ensures IsWalk(r, p)
  {
    forall i | 0 <= i < |p| - 1 ensures EdgeAt(r, p, i) { assert EdgeAt(k, p, i); }
  }

  lemma {:induction false} WalkIsWalkable(g: Graph, d: set<NodeId>, order: seq<NodeId>, k: Rel, p: seq<NodeId>, n: nat)
    requires Reducible(g, d, order, k) && IsWalk(EdgesOf(g), p) && n < |p| && p[0] in d
    ensures Reachable(k, p[0], p[n])
    decreases n
  {
    if n == 0 {
      ReachableSelf(k, p[0]);
    } else {
      WalkIsWalkable(g, d, order, k, p, n - 1);
      assert EdgeAt(EdgesOf(g), p, n - 1);
      StaysInside(EdgesOf(g), d, p, n - 1);
      StaysInside(EdgesOf(g), d, p, n);
      assert p[n - 1] in SetOf(order) && p[n] in SetOf(order);
      EdgeIsWalkable(g, d, order, k, p[n - 1], p[n]);
      ReachableTrans(k, p[0], p[n - 1], p[n]);
    }
  }

  lemma ReducibleIsSubset(g: Graph, d: set<NodeId>, order: seq<NodeId>, k: Rel)
    requires Reducible(g, d, order, k)
    ensures k <= EdgesOf(g)
  {
    forall e | e in k
      ensures e in EdgesOf(g)
    {
      var u, v := e.0, e.1;
      assert (u, v) in k && e == (u, v);
    }
  }

  /** Without a kept edge its target cannot be reached from its source over the other kept edges. */
  lemma KeptIsNeeded(g: Graph, d: set<NodeId>, order: seq<NodeId>, k: Rel, u: NodeId, v: NodeId)
    requires Reducible(g, d, order, k) && (u, v) in k
    ensures !Reachable(k - {(u, v)}, u, v)
  {
    var r := k - {(u, v)};
    if Reachable(r, u, v) {
      var q :| WalkFromTo(r, q, u, v);
      ReducibleIsSubset(g, d, order, k);
      SubWalk(r, EdgesOf(g), q);
      assert u in SetOf(order);
      assert |q| >= 2;
      assert EdgeAt(r, q, 0);
      var x := q[1];
      assert IsLongWalk(EdgesOf(g), q, u, v);
      var i := EdgeIsOut(g, u, x);
      var j := EdgeIsOut(g, u, v);
      assert Redundant(g, u, v);
    }
  }

  /** What the reduction promises: the same reachability over fewer edges, none of which can be spared. */
  ghost predicate IsReductionOf(e: Rel, d: set<NodeId>, k: Rel) {
    && k <= e
    && (forall a, b :: a in d ==> (Reachable(k, a, b) <==> Reachable(e, a, b)))
    && (forall u, v :: (u, v) in k ==> !Reachable(k - {(u, v)}, u, v))
  }

  lemma ReducibleIsReduction(g: Graph, d: set<NodeId>, order: seq<NodeId>, k: Rel)
    requires Reducible(g, d, order, k)
    ensures IsReductionOf(EdgesOf(g), d, k)
  {
    var r := EdgesOf(g);
    ReducibleIsSubset(g, d, order, k);
    forall a, b | a in d
      ensures Reachable(k, a, b) <==> Reachable(r, a, b)
    {
      if Reachable(k, a, b) {
        var p :| WalkFromTo(k, p, a, b);
        SubWalk(k, r, p);
        assert WalkFromTo(r, p, a, b);
      }
      if Reachable(r, a, b) {
        var p :| WalkFromTo(r, p, a, b);
        WalkIsWalkable(g, d, order, k, p, |p| - 1);
      }
    }
    forall u, v | (u, v) in k
      ensures !Reachable(k - {(u, v)}, u, v)
    {
      KeptIsNeeded(g, d, order, k, u, v);
    }
  }

  lemma IsReducible(g: Graph, start: seq<NodeId>, order: seq<NodeId>, edges: seq<Triple>, removed: nat)
    requires var d := ReachableSet(g, start); Acyclic(EdgesOf(g), d) && Greedy(EdgesOf(g), d, order) && |order| == |d|
    requires Collected(g, order, edges, removed)
    ensures Reducible(g, ReachableSet(g, start), order, RelOf(edges))
  {
    var d, r := ReachableSet(g, start), EdgesOf(g);
    GreedyIsTopological(r, d, order);
    forall u, v | u in d && (u, v) in r
      ensures v in d
    {
      ReachableFromStep(r, start, u, v);
    }
    forall u, v
      ensures (u, v) in RelOf(edges) <==> u in d && (u, v) in r && !Redundant(g, u, v)
    {
      KeptPairs(g, order, edges, removed, u, v);
      assert u in SetOf(order) <==> u in d;
    }
  }

  // ------------------------------------------------------- the count of the answer

  /** The `j`-th neighbour-list entry of `u` is wanted: any entry, or only one that is not redundant. */
  ghost predicate Wanted(g: Graph, all: bool, u: NodeId, j: int)
    requires 0 <= j < |Out(g, u)|
  {
    all || !Redundant(g, u, Out(g, u)[j].to)
  }

  /** The wanted ones among the first `i` entries of `u`, by position. */
  ghost function RowSlots(g: Graph, all: bool, u: NodeId, i: nat): set<(NodeId, int)>
    requires i <= |Out(g, u)|
  {
    set j | 0 <= j < i && Wanted(g, all, u, j) :: (u, j)
  }

  /** The wanted entries of all nodes of `d`, by position. */
  ghost function Slots(g: Graph, all: bool, d: set<NodeId>): set<(NodeId, int)> {
    set u, j | u in d && 0 <= j < |Out(g, u)| && Wanted(g, all, u, j) :: (u, j)
  }

  ghost function Size(g: Graph, all: bool, es: seq<Triple>): nat {
    if all then |es| else |Kept(g, es)|
  }

  lemma {:induction false} RowCount(g: Graph, all: bool, before: seq<Triple>, u: NodeId, i: nat)
    requires i <= |Out(g, u)|
    ensures Size(g, all, before + EntriesOf(g, u, i)) == Size(g, all, before) + |RowSlots(g, all, u, i)|
    decreases i
  {
    if i == 0 {
      assert before + EntriesOf(g, u, 0) == before;
    } else {
      var t := Triple(u, Out(g, u)[i - 1].to, Out(g, u)[i - 1].lbl);
      var shorter := before + EntriesOf(g, u, i - 1);
      RowCount(g, all, before, u, i - 1);
      assert before + EntriesOf(g, u, i) == shorter + [t] && (shorter + [t])[..|shorter|] == shorter;
      var less := RowSlots(g, all, u, i - 1);
      if Wanted(g, all, u, i - 1) {
        assert RowSlots(g, all, u, i) == less + {(u, i - 1)};
      } else {
        assert RowSlots(g, all, u, i) == less;
      }
    }
  }

  lemma RowIsNew(g: Graph, all: bool, d: set<NodeId>, u: NodeId)
    requires u !in d
    ensures |Slots(g, all, d + {u})| == |Slots(g, all, d)| + |RowSlots(g, all, u, |Out(g, u)|)|
  {
    var a, b := Slots(g, all, d), RowSlots(g, all, u, |Out(g, u)|);
    assert Slots(g, all, d + {u}) == a + b;
    assert a * b == {};
  }

  lemma {:induction false} AllCount(g: Graph, all: bool, us: seq<NodeId>)
    requires Distinct(us)
    ensures Size(g, all, AllEntries(g, us)) == |Slots(g, all, SetOf(us))|
    decreases |us|
  {
    if us == [] {
      assert Slots(g, all, SetOf(us)) == {};
    } else {
      var m := |us| - 1;
      AllCount(g, all, us[..m]);
      RowCount(g, all, AllEntries(g, us[..m]), us[m], |Out(g, us[m])|);
      SetOfAppend(us[..m], us[m]);
      assert us == us[..m] + [us[m]];
      RowIsNew(g, all, SetOf(us[..m]), us[m]);
    }
  }

  /** The answer has one kept entry for each entry of the listed nodes that is not redundant, and counts all
      the others as removed. */
  lemma AnswerCount(g: Graph, order: seq<NodeId>, edges: seq<Triple>, removed: nat)
    requires Collected(g, order, edges, removed) && Distinct(order)
    ensures |edges| == |Slots(g, false, SetOf(order))|
    ensures |edges| + removed == |Slots(g, true, SetOf(order))|
  {
    SameSize(edges, Kept(g, AllEntries(g, order)));
    AllCount(g, false, order);
    AllCount(g, true, order);
  }

  /** The answer comes by source, then by target, then by label. */
  lemma AnswerIsSorted(g: Graph, d: set<NodeId>, maxNodes: nat, edges: seq<Triple>, removed: nat)
    requires ReducedFrom(g, d, maxNodes, edges, removed)
    ensures forall i, j :: 0 <= i < j < |edges| ==> edges[i].from <= edges[j].from
    ensures forall i, j :: 0 <= i < j < |edges| && edges[i].from == edges[j].from ==> edges[i].to <= edges[j].to
    ensures forall i, j :: 0 <= i < j < |edges| && edges[i].from == edges[j].from && edges[i].to == edges[j].to ==> edges[i].lbl <= edges[j].lbl
  {
    var order :| SortedOver(EdgesOf(g), d, maxNodes, order) && Collected(g, order, edges, removed);
    forall i, j | 0 <= i < j < |edges| ensures TripleLeq(edges[i], edges[j]) {}
  }

  /** The reduction theorem: on an acyclic graph, with the node limit not reached, the answer is a minimal
      edge relation with the original reachability; it keeps the entries of the reachable nodes that are not
      redundant, counted with their labels, and reports all the others as removed. */
  lemma ReductionTheorem(g: Graph, start: seq<NodeId>, maxNodes: nat, edges: seq<Triple>, removed: nat)
    requires Acyclic(EdgesOf(g), ReachableSet(g, start)) && |ReachableSet(g, start)| <= maxNodes
    requires ReducedFrom(g, ReachableSet(g, start), maxNodes, edges, removed)
    ensures IsReductionOf(EdgesOf(g), ReachableSet(g, start), RelOf(edges))
    ensures |edges| == |Slots(g, false, ReachableSet(g, start))|
    ensures |edges| + removed == |Slots(g, true, ReachableSet(g, start))|
  {
    var d := ReachableSet(g, start);
    var order :| SortedOver(EdgesOf(g), d, maxNodes, order) && Collected(g, order, edges, removed);
    IsReducible(g, start, order, edges, removed);
    ReducibleIsReduction(g, d, order, RelOf(edges));
    GreedyIsTopological(EdgesOf(g), d, order);
    AnswerCount(g, order, edges, removed);
  }
}
