/** Depth-first search: the stack loop against textbook recursion. */
module Depth {
  import opened Graphs
  import opened Topology
  import opened Breadth

  datatype Frame = Frame(node: NodeId, depth: nat)

  /** The neighbours of `f` in list order, one level deeper; none at the depth bound. */
  function Children(g: Graph, maxDepth: nat, f: Frame): (r: seq<Frame>) {
    if f.depth < maxDepth then seq(|Out(g, f.node)|, i requires 0 <= i < |Out(g, f.node)| => Frame(Out(g, f.node)[i].to, f.depth + 1)) else []
  }

  ghost predicate Inside(g: Graph, start: NodeId, items: seq<Frame>) {
    forall i :: 0 <= i < |items| ==> items[i].node in Universe(g, start)
  }

  lemma ChildrenInside(g: Graph, start: NodeId, maxDepth: nat, f: Frame)
    ensures Inside(g, start, Children(g, maxDepth, f))
  {
    forall i | 0 <= i < |Children(g, maxDepth, f)| ensures Children(g, maxDepth, f)[i].node in Universe(g, start) {
      OutIsEdge(g, start, f.node, i);
    }
  }

  lemma OneLess(g: Graph, start: NodeId, v: set<NodeId>, n: NodeId)
    requires n in Universe(g, start) && n !in v
    ensures |Universe(g, start) - (v + {n})| < |Universe(g, start) - v|
  {
    var a, b := Universe(g, start) - (v + {n}), Universe(g, start) - v;
    SubsetCard(a, b);
    assert n in b && n !in a;
  }

  lemma NoMore(g: Graph, start: NodeId, v: set<NodeId>, w: set<NodeId>)
    requires v <= w
    ensures |Universe(g, start) - w| <= |Universe(g, start) - v|
  {
    SubsetCard(Universe(g, start) - w, Universe(g, start) - v);
  }

  /** Recursive pre-order from one node, given what was visited before it. */
  ghost function Visit(g: Graph, start: NodeId, maxDepth: nat, f: Frame, visited: set<NodeId>): seq<NodeId>
    requires f.node in Universe(g, start)
    decreases |Universe(g, start) - visited|, 0, 0
  {
    if f.node in visited || f.depth > maxDepth then [] else
      ChildrenInside(g, start, maxDepth, f);
      OneLess(g, start, visited, f.node);
      [f.node] + VisitAll(g, start, maxDepth, Children(g, maxDepth, f), visited + {f.node})
  }

  /** The nodes of the list in turn, each seeing what the earlier ones visited. */
  ghost function VisitAll(g: Graph, start: NodeId, maxDepth: nat, items: seq<Frame>, visited: set<NodeId>): seq<NodeId>
    requires Inside(g, start, items)
    decreases |Universe(g, start) - visited|, 1, |items|
  {
    if items == [] then [] else
      var first := Visit(g, start, maxDepth, items[0], visited);
      NoMore(g, start, visited, After(visited, first));
      first + VisitAll(g, start, maxDepth, items[1..], After(visited, first))
  }

  /** What has been visited once `out` was too. */
  ghost function After(visited: set<NodeId>, out: seq<NodeId>): (r: set<NodeId>)
    ensures visited <= r
  {
    visited + SetOf(out)
  }

  lemma AfterConcat(visited: set<NodeId>, a: seq<NodeId>, b: seq<NodeId>)
    ensures After(After(visited, a), b) == After(visited, a + b)
    ensures After(visited, []) == visited
  {
    SetOfConcat(a, b);
  }

  /** The pre-order of the whole search. */
  ghost function PreOrder(g: Graph, start: NodeId, maxDepth: nat): seq<NodeId> {
    assert Inside(g, start, [Frame(start, 0)]);
    VisitAll(g, start, maxDepth, [Frame(start, 0)], {})
  }

  // -------------------------------------------------- lists of pending nodes

  lemma {:induction false} VisitAllAppend(g: Graph, start: NodeId, maxDepth: nat, a: seq<Frame>, b: seq<Frame>,
          visited: set<NodeId>)
    requires Inside(g, start, a) && Inside(g, start, b)
    ensures Inside(g, start, a + b)
    ensures VisitAll(g, start, maxDepth, a + b, visited) ==
            VisitAll(g, start, maxDepth, a, visited) + VisitAll(g, start, maxDepth, b, After(visited, VisitAll(g, start, maxDepth, a, visited)))
    decreases |a|
  {
    if a == [] {
      assert a + b == b;
      AfterConcat(visited, [], []);
    } else {
      var first := Visit(g, start, maxDepth, a[0], visited);
      var v := After(visited, first);
      var rest := VisitAll(g, start, maxDepth, a[1..], v);
      VisitAllAppend(g, start, maxDepth, a[1..], b, v);
      assert (a + b)[0] == a[0] && (a + b)[1..] == a[1..] + b;
      AfterConcat(visited, first, rest);
      Associative(first, rest, VisitAll(g, start, maxDepth, b, After(v, rest)));
    }
  }

  lemma Associative<T>(a: seq<T>, b: seq<T>, c: seq<T>)
    ensures a + (b + c) == (a + b) + c
  {
  }

  /** The frames whose node is not in `seen`. */
  ghost function Unseen(items: seq<Frame>, seen: set<NodeId>): (r: seq<Frame>)
    ensures forall f :: f in r ==> f in items
  {
    if items == [] then [] else (if items[0].node in seen then [] else [items[0]]) + Unseen(items[1..], seen)
  }

  lemma UnseenInside(g: Graph, start: NodeId, items: seq<Frame>, seen: set<NodeId>)
    requires Inside(g, start, items)
    ensures Inside(g, start, Unseen(items, seen))
  {
    forall i | 0 <= i < |Unseen(items, seen)| ensures Unseen(items, seen)[i].node in Universe(g, start) {
      assert Unseen(items, seen)[i] in items;
    }
  }

  /** Leaving out nodes that were visited already changes nothing. */
  lemma {:induction false} UnseenIsEnough(g: Graph, start: NodeId, maxDepth: nat, items: seq<Frame>,
          seen: set<NodeId>, visited: set<NodeId>)
    requires Inside(g, start, items) && seen <= visited
    ensures Inside(g, start, Unseen(items, seen))
    ensures VisitAll(g, start, maxDepth, Unseen(items, seen), visited) == VisitAll(g, start, maxDepth, items, visited)
    decreases |items|
  {
    UnseenInside(g, start, items, seen);
    if items != [] {
      var first := Visit(g, start, maxDepth, items[0], visited);
      UnseenIsEnough(g, start, maxDepth, items[1..], seen, After(visited, first));
      if items[0].node in seen {
        AfterConcat(visited, [], []);
        assert Unseen(items, seen) == Unseen(items[1..], seen);
      } else {
        var u := Unseen(items, seen);
        assert u[0] == items[0] && u[1..] == Unseen(items[1..], seen);
      }
    }
  }

  // --------------------------------------------------- what the recursion visits

  ghost predicate CoversItems(items: seq<Frame>, after: set<NodeId>) {
    forall i :: 0 <= i < |items| ==> items[i].node in after
  }

  /** The depth bound cannot bite within the closed set `c`: it has too few nodes for so deep a recursion. */
  ghost predicate Roomy(g: Graph, c: set<NodeId>, maxDepth: nat, items: seq<Frame>, visited: set<NodeId>) {
    && visited <= c && |c| <= maxDepth && Sealed(EdgesOf(g), c)
    && forall i :: 0 <= i < |items| ==> items[i].depth <= |visited| && items[i].node in c
  }

  ghost predicate Sealed(r: Rel, c: set<NodeId>) {
    forall u, v {:trigger (u, v) in r} :: u in c && (u, v) in r ==> v in c
  }

  ghost predicate Fresh(g: Graph, start: NodeId, out: seq<NodeId>, visited: set<NodeId>) {
    Distinct(out) && SetOf(out) !! visited && SetOf(out) <= Universe(g, start)
  }

  lemma FreshConcat(g: Graph, start: NodeId, a: seq<NodeId>, b: seq<NodeId>, visited: set<NodeId>)
    requires Fresh(g, start, a, visited) && Fresh(g, start, b, After(visited, a))
    ensures Fresh(g, start, a + b, visited)
  {
    SetOfConcat(a, b);
    forall i, j | 0 <= i < j < |a + b| ensures (a + b)[i] != (a + b)[j] {
      if i < |a| && j >= |a| {
        assert a[i] in SetOf(a) && b[j - |a|] in SetOf(b);
      }
    }
  }

  /** Output nodes are new, each comes once, and all lie in the universe. */
  lemma {:induction false} VisitIsFresh(g: Graph, start: NodeId, maxDepth: nat, f: Frame, visited: set<NodeId>)
    requires f.node in Universe(g, start)
    ensures Fresh(g, start, Visit(g, start, maxDepth, f, visited), visited)
    decreases |Universe(g, start) - visited|, 0, 0
  {
    if f.node !in visited && f.depth <= maxDepth {
      var one := [f.node];
      assert After(visited, one) == visited + {f.node};
      ChildrenInside(g, start, maxDepth, f);
      OneLess(g, start, visited, f.node);
      VisitAllIsFresh(g, start, maxDepth, Children(g, maxDepth, f), visited + {f.node});
      FreshConcat(g, start, one, VisitAll(g, start, maxDepth, Children(g, maxDepth, f), visited + {f.node}), visited);
    }
  }

  lemma {:induction false} VisitAllIsFresh(g: Graph, start: NodeId, maxDepth: nat, items: seq<Frame>, visited: set<NodeId>)
    requires Inside(g, start, items)
    ensures Fresh(g, start, VisitAll(g, start, maxDepth, items, visited), visited)
    decreases |Universe(g, start) - visited|, 1, |items|
  {
    if items != [] {
      var first := Visit(g, start, maxDepth, items[0], visited);
      VisitIsFresh(g, start, maxDepth, items[0], visited);
      NoMore(g, start, visited, After(visited, first));
      VisitAllIsFresh(g, start, maxDepth, items[1..], After(visited, first));
      FreshConcat(g, start, first, VisitAll(g, start, maxDepth, items[1..], After(visited, first)), visited);
    }
  }

  /** Every successor of an output node has been visited, now or before. */
  ghost predicate Closed(g: Graph, out: seq<NodeId>, after: set<NodeId>) {
    forall i, v {:trigger (out[i], v) in EdgesOf(g)} :: 0 <= i < |out| && (out[i], v) in EdgesOf(g) ==> v in after
  }

  lemma ClosedConcat(g: Graph, a: seq<NodeId>, b: seq<NodeId>, visited: set<NodeId>)
    requires Closed(g, a, After(visited, a)) && Closed(g, b, After(After(visited, a), b))
    ensures Closed(g, a + b, After(visited, a + b))
  {
    AfterConcat(visited, a, b);
    forall i, v | 0 <= i < |a + b| && ((a + b)[i], v) in EdgesOf(g) ensures v in After(visited, a + b) {
      if i < |a| {
        assert (a[i], v) in EdgesOf(g);
      } else {
        assert (b[i - |a|], v) in EdgesOf(g);
      }
    }
  }

  lemma RootClosed(g: Graph, maxDepth: nat, f: Frame, rest: seq<NodeId>, visited: set<NodeId>)
    requires f.depth < maxDepth && CoversItems(Children(g, maxDepth, f), After(visited + {f.node}, rest))
    requires Closed(g, rest, After(visited + {f.node}, rest))
    ensures After(visited, [f.node] + rest) == After(visited + {f.node}, rest)
    ensures f.node in After(visited, [f.node] + rest) && Closed(g, [f.node] + rest, After(visited, [f.node] + rest))
  {
    var one := [f.node];
    assert After(visited, one) == visited + {f.node};
    AfterConcat(visited, one, rest);
    var kids := Children(g, maxDepth, f);
    forall i, v | 0 <= i < |one + rest| && ((one + rest)[i], v) in EdgesOf(g) ensures v in After(visited, one + rest) {
      if i == 0 {
        var j := EdgeIsOut(g, f.node, v);
        assert kids[j].node == v;
      } else {
        assert (rest[i - 1], v) in EdgesOf(g);
      }
    }
  }

  lemma RoomForKids(g: Graph, c: set<NodeId>, maxDepth: nat, f: Frame, visited: set<NodeId>)
    requires Roomy(g, c, maxDepth, [f], visited) && f.node !in visited
    ensures f.depth < maxDepth && Roomy(g, c, maxDepth, Children(g, maxDepth, f), visited + {f.node})
  {
    assert [f][0].depth <= |visited| && [f][0].node in c;
    SubsetCard(visited + {f.node}, c);
    forall i | 0 <= i < |Children(g, maxDepth, f)| ensures Children(g, maxDepth, f)[i].node in c {
      OutIsEdge(g, f.node, f.node, i);
    }
  }

  lemma RoomForRest(g: Graph, c: set<NodeId>, maxDepth: nat, items: seq<Frame>, visited: set<NodeId>, v: set<NodeId>)
    requires items != [] && Roomy(g, c, maxDepth, items, visited) && visited <= v <= c
    ensures Roomy(g, c, maxDepth, items[1..], v)
  {
    SubsetCard(visited, v);
  }

  /** With room enough, every listed node and every successor of a visited node ends up visited. */
  lemma {:induction false} VisitCovers(g: Graph, start: NodeId, c: set<NodeId>, maxDepth: nat, f: Frame, visited: set<NodeId>)
    requires f.node in Universe(g, start) && Roomy(g, c, maxDepth, [f], visited)
    ensures var out := Visit(g, start, maxDepth, f, visited);
            f.node in After(visited, out) && After(visited, out) <= c && Closed(g, out, After(visited, out))
    decreases |Universe(g, start) - visited|, 0, 0
  {
    if f.node !in visited {
      RoomForKids(g, c, maxDepth, f, visited);
      ChildrenInside(g, start, maxDepth, f);
      OneLess(g, start, visited, f.node);
      VisitAllCovers(g, start, c, maxDepth, Children(g, maxDepth, f), visited + {f.node});
      RootClosed(g, maxDepth, f, VisitAll(g, start, maxDepth, Children(g, maxDepth, f), visited + {f.node}), visited);
    }
  }

  lemma {:induction false} VisitAllCovers(g: Graph, start: NodeId, c: set<NodeId>, maxDepth: nat, items: seq<Frame>,
          visited: set<NodeId>)
    requires Inside(g, start, items) && Roomy(g, c, maxDepth, items, visited)
    ensures var out := VisitAll(g, start, maxDepth, items, visited);
            CoversItems(items, After(visited, out)) && After(visited, out) <= c && Closed(g, out, After(visited, out))
    decreases |Universe(g, start) - visited|, 1, |items|
  {
    if items != [] {
      var first := Visit(g, start, maxDepth, items[0], visited);
      var v := After(visited, first);
      VisitCovers(g, start, c, maxDepth, items[0], visited);
      RoomForRest(g, c, maxDepth, items, visited, v);
      NoMore(g, start, visited, v);
      VisitAllCovers(g, start, c, maxDepth, items[1..], v);
      var rest := VisitAll(g, start, maxDepth, items[1..], v);
      ClosedConcat(g, first, rest, visited);
      CoversConcat(items, visited, first, rest);
    }
  }

  lemma CoversConcat(items: seq<Frame>, visited: set<NodeId>, first: seq<NodeId>, rest: seq<NodeId>)
    requires items != [] && items[0].node in After(visited, first) && CoversItems(items[1..], After(After(visited, first), rest))
    ensures CoversItems(items, After(visited, first + rest))
  {
    AfterConcat(visited, first, rest);
    forall i | 0 <= i < |items| ensures items[i].node in After(visited, first + rest) {
      if i > 0 { assert items[1..][i - 1] == items[i]; }
    }
  }

  /** Without an effective depth bound the pre-order lists exactly the reachable nodes, each once. */
  lemma PreOrderIsReachable(g: Graph, start: NodeId, maxDepth: nat)
    requires |ReachSet(g, start)| <= maxDepth
    ensures SetOf(PreOrder(g, start, maxDepth)) == ReachSet(g, start)
  {
    var c, items, out := ReachSet(g, start), [Frame(start, 0)], PreOrder(g, start, maxDepth);
    ReachSetIsExact(g, start);
    ReachableSelf(EdgesOf(g), start);
    forall u, v | u in c && (u, v) in EdgesOf(g) ensures v in c { ReachableStep(EdgesOf(g), start, u, v); }
    VisitAllCovers(g, start, c, maxDepth, items, {});
    assert After({}, out) == SetOf(out) && items[0].node == start;
    forall n | n in c ensures n in SetOf(out) { ClosedReaches(g, start, out, n); }
  }

  lemma ClosedReaches(g: Graph, start: NodeId, out: seq<NodeId>, n: NodeId)
    requires start in SetOf(out) && Closed(g, out, SetOf(out)) && Reachable(EdgesOf(g), start, n)
    ensures n in SetOf(out)
  {
    var p :| WalkFromTo(EdgesOf(g), p, start, n);
    forall u, v | u in SetOf(out) && (u, v) in EdgesOf(g) ensures v in SetOf(out) {
      var i :| 0 <= i < |out| && out[i] == u;
      assert (out[i], v) in EdgesOf(g);
    }
    ClosedHoldsWalks(EdgesOf(g), SetOf(out), p, |p| - 1);
  }

  /** Each node is listed at most once. */
  lemma PreOrderIsDistinct(g: Graph, start: NodeId, maxDepth: nat)
    ensures Distinct(PreOrder(g, start, maxDepth))
  {
    VisitAllIsFresh(g, start, maxDepth, [Frame(start, 0)], {});
  }

  // ------------------------------------------ the order of the listing, step by step

  /** The `j`-th entry of `u` is the first one whose target is not in `seen`. */
  ghost predicate IsFirstNew(g: Graph, u: NodeId, j: int, seen: set<NodeId>) {
    0 <= j < |Out(g, u)| && Out(g, u)[j].to !in seen && forall i :: 0 <= i < j ==> Out(g, u)[i].to in seen
  }

  /** Nothing new is to be found from `u`: it lies at the depth bound, or all its neighbours have been listed. */
  ghost predicate Spent(g: Graph, maxDepth: nat, u: NodeId, depth: nat, seen: set<NodeId>) {
    depth >= maxDepth || forall j :: 0 <= j < |Out(g, u)| ==> Out(g, u)[j].to in seen
  }

  /** The `i`-th node was found from the `k`-th, the latest one that was not spent: it is the first of its
      neighbours not listed before, and lies one level deeper. */
  ghost predicate FoundFrom(g: Graph, maxDepth: nat, out: seq<NodeId>, ds: seq<nat>, i: int, k: int) {
    && 0 <= k < i < |out| == |ds| && ds[k] < maxDepth && ds[i] == ds[k] + 1
    && (exists j :: IsFirstNew(g, out[k], j, SetOf(out[..i])) && Out(g, out[k])[j].to == out[i])
    && (forall m :: k < m < i ==> Spent(g, maxDepth, out[m], ds[m], SetOf(out[..i])))
  }

  ghost predicate Found(g: Graph, maxDepth: nat, out: seq<NodeId>, ds: seq<nat>, i: int) {
    exists k :: FoundFrom(g, maxDepth, out, ds, i, k)
  }

  /** What depth-first order means: every node is found from the latest one not spent. `ds` are the depths. */
  ghost predicate DepthFirst(g: Graph, start: NodeId, maxDepth: nat, out: seq<NodeId>, ds: seq<nat>) {
    && |ds| == |out| && (out != [] ==> out[0] == start && ds[0] == 0)
    && forall i {:trigger Found(g, maxDepth, out, ds, i)} :: 0 < i < |out| ==> Found(g, maxDepth, out, ds, i)
  }

  ghost predicate AllSpent(g: Graph, maxDepth: nat, out: seq<NodeId>, ds: seq<nat>) {
    |ds| == |out| && forall k :: 0 <= k < |out| ==> Spent(g, maxDepth, out[k], ds[k], SetOf(out))
  }

  /** The listing is depth-first, has no more than `maxNodes` nodes, and is complete if it has fewer. */
  ghost predicate ListsDepthFirst(g: Graph, start: NodeId, maxNodes: nat, maxDepth: nat, out: seq<NodeId>) {
    exists ds :: ListsWith(g, start, maxNodes, maxDepth, out, ds)
  }

  ghost predicate ListsWith(g: Graph, start: NodeId, maxNodes: nat, maxDepth: nat, out: seq<NodeId>, ds: seq<nat>) {
    && DepthFirst(g, start, maxDepth, out, ds) && |out| <= maxNodes
    && (|out| < maxNodes ==> out != [] && AllSpent(g, maxDepth, out, ds))
  }

  lemma FoundPrefix(g: Graph, maxDepth: nat, out: seq<NodeId>, ds: seq<nat>, more: seq<NodeId>, deeper: seq<nat>, i: int)
    requires Found(g, maxDepth, out, ds, i) && |more| == |deeper| && out <= more && ds <= deeper
    ensures Found(g, maxDepth, more, deeper, i)
  {
    var k :| FoundFrom(g, maxDepth, out, ds, i, k);
    assert more[..i] == out[..i];
    assert FoundFrom(g, maxDepth, more, deeper, i, k);
  }

  lemma FirstNewIsUnique(g: Graph, u: NodeId, i: int, j: int, seen: set<NodeId>)
    requires IsFirstNew(g, u, i, seen) && IsFirstNew(g, u, j, seen)
    ensures i == j
  {
  }

  /** The next node of a depth-first listing is determined by the ones before. */
  lemma SameFound(g: Graph, maxDepth: nat, a: seq<NodeId>, ds: seq<nat>, b: seq<NodeId>, es: seq<nat>, i: int, k: int, l: int)
    requires FoundFrom(g, maxDepth, a, ds, i, k) && FoundFrom(g, maxDepth, b, es, i, l)
    requires a[..i] == b[..i] && ds[..i] == es[..i]
    ensures a[i] == b[i] && ds[i] == es[i]
  {
    var seen := SetOf(a[..i]);
    var m :| IsFirstNew(g, a[k], m, seen) && Out(g, a[k])[m].to == a[i];
    var n :| IsFirstNew(g, b[l], n, seen) && Out(g, b[l])[n].to == b[i];
    assert a[..i][k] == b[..i][k] && a[..i][l] == b[..i][l] && ds[..i][k] == es[..i][k] && ds[..i][l] == es[..i][l];
    assert k < l ==> Spent(g, maxDepth, a[l], ds[l], seen);
    assert l < k ==> Spent(g, maxDepth, b[k], es[k], seen);
    FirstNewIsUnique(g, a[k], m, n, seen);
  }

  lemma OneLonger<T>(a: seq<T>, b: seq<T>, n: nat)
    requires n < |a| && n < |b| && a[..n] == b[..n] && a[n] == b[n]
    ensures a[..n + 1] == b[..n + 1]
  {
    assert a[..n + 1] == a[..n] + [a[n]] && b[..n + 1] == b[..n] + [b[n]];
  }

  /** The `n`-th nodes and depths agree if all earlier ones do. */
  lemma AgreeAt(g: Graph, start: NodeId, maxDepth: nat, a: seq<NodeId>, ds: seq<nat>, b: seq<NodeId>, es: seq<nat>, n: nat)
    requires DepthFirst(g, start, maxDepth, a, ds) && DepthFirst(g, start, maxDepth, b, es)
    requires n < |a| && n < |b| && a[..n] == b[..n] && ds[..n] == es[..n]
    ensures a[n] == b[n] && ds[n] == es[n]
  {
    if n > 0 {
      assert Found(g, maxDepth, a, ds, n) && Found(g, maxDepth, b, es, n);
      var k :| FoundFrom(g, maxDepth, a, ds, n, k);
      var l :| FoundFrom(g, maxDepth, b, es, n, l);
      SameFound(g, maxDepth, a, ds, b, es, n, k, l);
    }
  }

  lemma {:induction false} DepthFirstAgree(g: Graph, start: NodeId, maxDepth: nat, a: seq<NodeId>, ds: seq<nat>,
          b: seq<NodeId>, es: seq<nat>, i: nat)
    requires DepthFirst(g, start, maxDepth, a, ds) && DepthFirst(g, start, maxDepth, b, es)
    requires i <= |a| && i <= |b|
    ensures a[..i] == b[..i] && ds[..i] == es[..i]
    decreases i
  {
    if i > 0 {
      var n := i - 1;
      DepthFirstAgree(g, start, maxDepth, a, ds, b, es, n);
      AgreeAt(g, start, maxDepth, a, ds, b, es, n);
      OneLonger(a, b, n);
      OneLonger(ds, es, n);
    }
  }

  lemma NothingFound(g: Graph, maxDepth: nat, out: seq<NodeId>, ds: seq<nat>, i: int)
    requires 0 <= i < |out| == |ds|
    requires forall k :: 0 <= k < i ==> Spent(g, maxDepth, out[k], ds[k], SetOf(out[..i]))
    ensures !Found(g, maxDepth, out, ds, i)
  {
  }

  /** A listing in which every node is spent does not go on. */
  lemma SpentEnds(g: Graph, start: NodeId, maxDepth: nat, a: seq<NodeId>, ds: seq<nat>, b: seq<NodeId>, es: seq<nat>)
    requires DepthFirst(g, start, maxDepth, a, ds) && DepthFirst(g, start, maxDepth, b, es)
    requires a != [] && AllSpent(g, maxDepth, a, ds)
    ensures |b| <= |a|
  {
    if |b| > |a| {
      var n := |a|;
      DepthFirstAgree(g, start, maxDepth, a, ds, b, es, n);
      assert a[..n] == a && ds[..n] == ds;
      forall k | 0 <= k < n
        ensures Spent(g, maxDepth, b[k], es[k], SetOf(b[..n]))
      {
        assert b[k] == b[..n][k] && es[k] == es[..n][k];
        assert Spent(g, maxDepth, a[k], ds[k], SetOf(a));
      }
      NothingFound(g, maxDepth, b, es, n);
    }
  }

  /** There is one depth-first listing for given limits: list order decides everything. */
  lemma ListingIsUnique(g: Graph, start: NodeId, maxNodes: nat, maxDepth: nat, a: seq<NodeId>, b: seq<NodeId>)
    requires ListsDepthFirst(g, start, maxNodes, maxDepth, a) && ListsDepthFirst(g, start, maxNodes, maxDepth, b)
    ensures a == b
  {
    var ds :| ListsWith(g, start, maxNodes, maxDepth, a, ds);
    var es :| ListsWith(g, start, maxNodes, maxDepth, b, es);
    if |a| < maxNodes {
      SpentEnds(g, start, maxDepth, a, ds, b, es);
    }
    if |b| < maxNodes {
      SpentEnds(g, start, maxDepth, b, es, a, ds);
    }
    DepthFirstAgree(g, start, maxDepth, a, ds, b, es, |a|);
    assert a[..|a|] == a && b[..|a|] == b;
  }

  /** The search goes down first: after a node above the depth bound with a neighbour not yet listed comes the
      first such neighbour in its list. */
  lemma GoesDownFirst(g: Graph, start: NodeId, maxDepth: nat, out: seq<NodeId>, ds: seq<nat>, i: nat, j: int)
    requires DepthFirst(g, start, maxDepth, out, ds) && i + 1 < |out| && ds[i] < maxDepth
    requires IsFirstNew(g, out[i], j, SetOf(out[..i + 1]))
    ensures out[i + 1] == Out(g, out[i])[j].to && ds[i + 1] == ds[i] + 1
  {
    assert Found(g, maxDepth, out, ds, i + 1);
    var k :| FoundFrom(g, maxDepth, out, ds, i + 1, k);
    assert k < i ==> Spent(g, maxDepth, out[i], ds[i], SetOf(out[..i + 1]));
    var m :| IsFirstNew(g, out[k], m, SetOf(out[..i + 1])) && Out(g, out[k])[m].to == out[i + 1];
    FirstNewIsUnique(g, out[i], j, m, SetOf(out[..i + 1]));
  }

  /** The recursion does so too: its visit of a node starts with the node and the first new neighbour. */
  lemma VisitGoesDown(g: Graph, start: NodeId, maxDepth: nat, u: NodeId, d: nat, visited: set<NodeId>, j: int)
    requires u in Universe(g, start) && u !in visited && d < maxDepth && IsFirstNew(g, u, j, visited + {u})
    ensures var out := Visit(g, start, maxDepth, Frame(u, d), visited); |out| >= 2 && out[0] == u && out[1] == Out(g, u)[j].to
  {
    var f := Frame(u, d);
    var kids := Children(g, maxDepth, f);
    ChildrenInside(g, start, maxDepth, f);
    OneLess(g, start, visited, u);
    SkipsSeen(g, start, maxDepth, kids, visited + {u}, j);
  }

  lemma {:induction false} SkipsSeen(g: Graph, start: NodeId, maxDepth: nat, items: seq<Frame>, visited: set<NodeId>, j: nat)
    requires Inside(g, start, items) && j < |items| && items[j].node !in visited && items[j].depth <= maxDepth
    requires forall i :: 0 <= i < j ==> items[i].node in visited
    ensures var out := VisitAll(g, start, maxDepth, items, visited); out != [] && out[0] == items[j].node
    decreases j
  {
    if j > 0 {
      AfterConcat(visited, [], []);
      SkipsSeen(g, start, maxDepth, items[1..], visited, j - 1);
    }
  }

  // ------------------------------------------------- how the stack keeps that order

  lemma {:induction false} UnseenAppend(a: seq<Frame>, b: seq<Frame>, seen: set<NodeId>)
    ensures Unseen(a + b, seen) == Unseen(a, seen) + Unseen(b, seen)
    decreases |a|
  {
    if a == [] {
      assert a + b == b;
    } else {
      assert (a + b)[0] == a[0] && (a + b)[1..] == a[1..] + b;
      UnseenAppend(a[1..], b, seen);
    }
  }

  lemma {:induction false} UnseenTwice(a: seq<Frame>, seen: set<NodeId>, more: set<NodeId>)
    requires seen <= more
    ensures Unseen(Unseen(a, seen), more) == Unseen(a, more)
    decreases |a|
  {
    if a != [] {
      UnseenTwice(a[1..], seen, more);
      if a[0].node !in seen {
        var u := Unseen(a, seen);
        assert u[0] == a[0] && u[1..] == Unseen(a[1..], seen);
      } else {
        assert Unseen(a, seen) == Unseen(a[1..], seen);
        assert Unseen(a, more) == Unseen(a[1..], more);
      }
    }
  }

  /** What is still to be done: the new neighbours of the first `n` listed nodes, latest node first. */
  ghost function Todo(g: Graph, start: NodeId, maxDepth: nat, out: seq<NodeId>, ds: seq<nat>, n: nat, seen: set<NodeId>): seq<Frame>
    requires n <= |out| == |ds|
  {
    if n == 0 then Unseen([Frame(start, 0)], seen)
    else Unseen(Children(g, maxDepth, Frame(out[n - 1], ds[n - 1])), seen) + Todo(g, start, maxDepth, out, ds, n - 1, seen)
  }

  lemma UnseenBoth(kids: seq<Frame>, rest: seq<Frame>, seen: set<NodeId>, more: set<NodeId>)
    requires seen <= more
    ensures Unseen(Unseen(kids, seen) + rest, more) == Unseen(kids, more) + Unseen(rest, more)
  {
    UnseenTwice(kids, seen, more);
    UnseenAppend(Unseen(kids, seen), rest, more);
  }

  lemma {:induction false} TodoLater(g: Graph, start: NodeId, maxDepth: nat, out: seq<NodeId>, ds: seq<nat>, n: nat,
          seen: set<NodeId>, more: set<NodeId>)
    requires n <= |out| == |ds| && seen <= more
    ensures Unseen(Todo(g, start, maxDepth, out, ds, n, seen), more) == Todo(g, start, maxDepth, out, ds, n, more)
    decreases n
  {
    if n == 0 {
      UnseenTwice([Frame(start, 0)], seen, more);
    } else {
      TodoLater(g, start, maxDepth, out, ds, n - 1, seen, more);
      UnseenBoth(Children(g, maxDepth, Frame(out[n - 1], ds[n - 1])), Todo(g, start, maxDepth, out, ds, n - 1, seen), seen, more);
    }
  }

  lemma {:induction false} TodoMore(g: Graph, start: NodeId, maxDepth: nat, out: seq<NodeId>, ds: seq<nat>,
          more: seq<NodeId>, deeper: seq<nat>, n: nat, seen: set<NodeId>)
    requires n <= |out| == |ds| && |more| == |deeper| && out <= more && ds <= deeper
    ensures Todo(g, start, maxDepth, out, ds, n, seen) == Todo(g, start, maxDepth, more, deeper, n, seen)
    decreases n
  {
    if n > 0 {
      TodoMore(g, start, maxDepth, out, ds, more, deeper, n - 1, seen);
    }
  }

  /** The first unseen frame of a list, if there is one. */
  lemma {:induction false} UnseenFirst(items: seq<Frame>, seen: set<NodeId>) returns (j: nat)
    ensures j <= |items| && forall i :: 0 <= i < j ==> items[i].node in seen
    ensures if j == |items| then Unseen(items, seen) == [] else items[j].node !in seen && Unseen(items, seen) != [] && Unseen(items, seen)[0] == items[j]
    decreases |items|
  {
    if items == [] || items[0].node !in seen {
      j := 0;
    } else {
      j := UnseenFirst(items[1..], seen);
      j := j + 1;
    }
  }

  /** No kids left means spent; otherwise the first of them is the first new neighbour. */
  lemma KidsLeft(g: Graph, maxDepth: nat, u: NodeId, d: nat, seen: set<NodeId>) returns (j: int)
    ensures Unseen(Children(g, maxDepth, Frame(u, d)), seen) == [] ==> Spent(g, maxDepth, u, d, seen)
    ensures Unseen(Children(g, maxDepth, Frame(u, d)), seen) != [] ==> d < maxDepth && IsFirstNew(g, u, j, seen)
    ensures Unseen(Children(g, maxDepth, Frame(u, d)), seen) != [] ==> Unseen(Children(g, maxDepth, Frame(u, d)), seen)[0] == Frame(Out(g, u)[j].to, d + 1)
  {
    var kids := Children(g, maxDepth, Frame(u, d));
    j := UnseenFirst(kids, seen);
    if d < maxDepth {
      assert |kids| == |Out(g, u)| && forall i :: 0 <= i < |kids| ==> kids[i] == Frame(Out(g, u)[i].to, d + 1);
      assert forall i :: 0 <= i < j ==> kids[i].node == Out(g, u)[i].to;
    }
  }

  /** Where the first frame to do comes from, once the start has been listed. */
  ghost predicate ComesFrom(g: Graph, maxDepth: nat, out: seq<NodeId>, ds: seq<nat>, n: int, seen: set<NodeId>, f: Frame, k: int) {
    && 0 <= k < n <= |out| == |ds| && ds[k] < maxDepth && f.depth == ds[k] + 1
    && (exists j :: IsFirstNew(g, out[k], j, seen) && Out(g, out[k])[j].to == f.node)
    && (forall m :: k < m < n ==> Spent(g, maxDepth, out[m], ds[m], seen))
  }

  /** Nothing to do from the first `n` listed nodes, or the first frame comes from one of them. */
  ghost predicate FirstComesFrom(g: Graph, maxDepth: nat, out: seq<NodeId>, ds: seq<nat>, n: nat, seen: set<NodeId>, todo: seq<Frame>)
    requires n <= |out| == |ds|
  {
    if todo == [] then forall m :: 0 <= m < n ==> Spent(g, maxDepth, out[m], ds[m], seen)
    else exists k :: ComesFrom(g, maxDepth, out, ds, n, seen, todo[0], k)
  }

  lemma OneMoreNode(g: Graph, maxDepth: nat, out: seq<NodeId>, ds: seq<nat>, n: nat, seen: set<NodeId>,
          kids: seq<Frame>, rest: seq<Frame>)
    requires 0 < n <= |out| == |ds| && FirstComesFrom(g, maxDepth, out, ds, n - 1, seen, rest)
    requires kids == Unseen(Children(g, maxDepth, Frame(out[n - 1], ds[n - 1])), seen)
    ensures FirstComesFrom(g, maxDepth, out, ds, n, seen, kids + rest)
  {
    var j := KidsLeft(g, maxDepth, out[n - 1], ds[n - 1], seen);
    if kids != [] {
      assert (kids + rest)[0] == kids[0];
      assert ComesFrom(g, maxDepth, out, ds, n, seen, kids[0], n - 1);
    } else {
      assert kids + rest == rest;
      SpentAbove(g, maxDepth, out, ds, n, seen, rest);
    }
  }

  lemma SpentAbove(g: Graph, maxDepth: nat, out: seq<NodeId>, ds: seq<nat>, n: nat, seen: set<NodeId>, rest: seq<Frame>)
    requires 0 < n <= |out| == |ds| && FirstComesFrom(g, maxDepth, out, ds, n - 1, seen, rest)
    requires Spent(g, maxDepth, out[n - 1], ds[n - 1], seen)
    ensures FirstComesFrom(g, maxDepth, out, ds, n, seen, rest)
  {
    if rest != [] {
      var k :| ComesFrom(g, maxDepth, out, ds, n - 1, seen, rest[0], k);
      assert ComesFrom(g, maxDepth, out, ds, n, seen, rest[0], k);
    }
  }

  lemma {:induction false} TodoFirst(g: Graph, start: NodeId, maxDepth: nat, out: seq<NodeId>, ds: seq<nat>, n: nat, seen: set<NodeId>)
    requires n <= |out| == |ds| && start in seen
    ensures FirstComesFrom(g, maxDepth, out, ds, n, seen, Todo(g, start, maxDepth, out, ds, n, seen))
    decreases n
  {
    if n > 0 {
      TodoFirst(g, start, maxDepth, out, ds, n - 1, seen);
      OneMoreNode(g, maxDepth, out, ds, n, seen, Unseen(Children(g, maxDepth, Frame(out[n - 1], ds[n - 1])), seen),
        Todo(g, start, maxDepth, out, ds, n - 1, seen));
    } else {
      assert [Frame(start, 0)][1..] == [] && Unseen([], seen) == [];
    }
  }

  /** The listing so far is depth-first, and the pending frames, seen ones aside, are what is to be done. */
  ghost predicate Disciplined(g: Graph, start: NodeId, maxDepth: nat, out: seq<NodeId>, ds: seq<nat>, visited: set<NodeId>,
          pending: seq<Frame>) {
    && DepthFirst(g, start, maxDepth, out, ds) && visited == SetOf(out)
    && Unseen(pending, visited) == Todo(g, start, maxDepth, out, ds, |out|, visited)
  }

  lemma DisciplineStarts(g: Graph, start: NodeId, maxDepth: nat)
    ensures Disciplined(g, start, maxDepth, [], [], {}, [Frame(start, 0)])
  {
  }

  lemma DisciplineSkips(g: Graph, start: NodeId, maxDepth: nat, out: seq<NodeId>, ds: seq<nat>, visited: set<NodeId>,
          f: Frame, pending: seq<Frame>)
    requires Disciplined(g, start, maxDepth, out, ds, visited, [f] + pending) && f.node in visited
    ensures Disciplined(g, start, maxDepth, out, ds, visited, pending)
  {
    assert ([f] + pending)[1..] == pending;
  }

  lemma OneMoreFound(g: Graph, start: NodeId, maxDepth: nat, out: seq<NodeId>, ds: seq<nat>, f: Frame, k: int)
    requires DepthFirst(g, start, maxDepth, out, ds) && out != []
    requires ComesFrom(g, maxDepth, out, ds, |out|, SetOf(out), f, k)
    ensures DepthFirst(g, start, maxDepth, out + [f.node], ds + [f.depth])
  {
    var more, deeper, n := out + [f.node], ds + [f.depth], |out|;
    assert more[..n] == out;
    assert FoundFrom(g, maxDepth, more, deeper, n, k);
    forall i | 0 < i < |more|
      ensures Found(g, maxDepth, more, deeper, i)
    {
      if i < n {
        FoundPrefix(g, maxDepth, out, ds, more, deeper, i);
      }
    }
  }

  /** The frame on top, if not seen, is the next node, and within the depth bound. */
  lemma TopIsNext(g: Graph, start: NodeId, maxDepth: nat, out: seq<NodeId>, ds: seq<nat>, f: Frame, todo: seq<Frame>)
    requires DepthFirst(g, start, maxDepth, out, ds)
    requires todo == Todo(g, start, maxDepth, out, ds, |out|, SetOf(out)) && todo != [] && todo[0] == f
    ensures f.depth <= maxDepth && DepthFirst(g, start, maxDepth, out + [f.node], ds + [f.depth])
  {
    if out != [] {
      assert out[0] in SetOf(out);
      TodoFirst(g, start, maxDepth, out, ds, |out|, SetOf(out));
      var k :| ComesFrom(g, maxDepth, out, ds, |out|, SetOf(out), f, k);
      OneMoreFound(g, start, maxDepth, out, ds, f, k);
    }
  }

  lemma TodoTaken(g: Graph, start: NodeId, maxDepth: nat, out: seq<NodeId>, ds: seq<nat>, visited: set<NodeId>,
          f: Frame, pending: seq<Frame>, seen: set<NodeId>)
    requires |out| == |ds| && seen == visited + {f.node}
    requires Unseen([f] + pending, visited) == Todo(g, start, maxDepth, out, ds, |out|, visited)
    ensures Unseen(Unseen(Children(g, maxDepth, f), seen) + pending, seen) ==
            Todo(g, start, maxDepth, out + [f.node], ds + [f.depth], |out| + 1, seen)
  {
    var kids := Children(g, maxDepth, f);
    UnseenTwice(kids, seen, seen);
    UnseenAppend(Unseen(kids, seen), pending, seen);
    TodoLater(g, start, maxDepth, out, ds, |out|, visited, seen);
    UnseenTwice([f] + pending, visited, seen);
    assert ([f] + pending)[0] == f && ([f] + pending)[1..] == pending;
    assert Unseen([f] + pending, seen) == Unseen(pending, seen);
    TodoMore(g, start, maxDepth, out, ds, out + [f.node], ds + [f.depth], |out|, seen);
  }

  lemma TopIsUnseen(f: Frame, pending: seq<Frame>, visited: set<NodeId>)
    requires f.node !in visited
    ensures Unseen([f] + pending, visited) != [] && Unseen([f] + pending, visited)[0] == f
  {
    assert ([f] + pending)[0] == f;
  }

  lemma DisciplineTakes(g: Graph, start: NodeId, maxDepth: nat, out: seq<NodeId>, ds: seq<nat>, visited: set<NodeId>,
          f: Frame, pending: seq<Frame>)
    requires Disciplined(g, start, maxDepth, out, ds, visited, [f] + pending) && f.node !in visited
    ensures f.depth <= maxDepth
    ensures Disciplined(g, start, maxDepth, out + [f.node], ds + [f.depth], visited + {f.node}, Unseen(Children(g, maxDepth, f), visited + {f.node}) + pending)
  {
    TopIsUnseen(f, pending, visited);
    TopIsNext(g, start, maxDepth, out, ds, f, Unseen([f] + pending, visited));
    SetOfAppend(out, f.node);
    TodoTaken(g, start, maxDepth, out, ds, visited, f, pending, visited + {f.node});
  }

  lemma DisciplineEnds(g: Graph, start: NodeId, maxNodes: nat, maxDepth: nat, out: seq<NodeId>, ds: seq<nat>, visited: set<NodeId>,
          pending: seq<Frame>)
    requires Disciplined(g, start, maxDepth, out, ds, visited, pending) && |out| <= maxNodes
    requires pending == [] || |out| == maxNodes
    ensures ListsDepthFirst(g, start, maxNodes, maxDepth, out)
  {
    if |out| < maxNodes {
      assert Unseen(pending, visited) == [];
      if out != [] {
        assert out[0] in SetOf(out);
        TodoFirst(g, start, maxDepth, out, ds, |out|, visited);
      }
    }
    assert ListsWith(g, start, maxNodes, maxDepth, out, ds);
  }

  // ------------------------------------------------------------ the search itself

  ghost function Rev(s: seq<Frame>): (r: seq<Frame>)
    ensures |r| == |s|
  {
    if s == [] then [] else [s[|s| - 1]] + Rev(s[..|s| - 1])
  }

  lemma RevPush(s: seq<Frame>, f: Frame)
    ensures Rev(s + [f]) == [f] + Rev(s)
  {
    assert (s + [f])[..|s|] == s;
  }

  /** The children from the `i`-th on have been offered to the stack, last one first. */
  ghost predicate Pushed(stack: seq<Frame>, kids: seq<Frame>, i: nat, visited: set<NodeId>, stack0: seq<Frame>) {
    i <= |kids| && Rev(stack) == Unseen(kids[i..], visited) + Rev(stack0)
  }

  lemma PushOne(stack: seq<Frame>, kids: seq<Frame>, i: nat, visited: set<NodeId>, stack0: seq<Frame>, child: Frame)
    requires i < |kids| && kids[i] == child
    requires Pushed(stack, kids, i + 1, visited, stack0)
    ensures Pushed(if child.node in visited then stack else stack + [child], kids, i, visited, stack0)
  {
    var rest := Unseen(kids[i + 1..], visited);
    assert kids[i..][0] == child && kids[i..][1..] == kids[i + 1..];
    if child.node !in visited {
      RevPush(stack, child);
      Associative([child], rest, Rev(stack0));
    }
  }

  lemma PushEnds(stack: seq<Frame>, kids: seq<Frame>, visited: set<NodeId>, stack0: seq<Frame>)
    ensures Pushed(stack0, kids, |kids|, visited, stack0)
    ensures Pushed(stack, kids, 0, visited, stack0) ==> Rev(stack) == Unseen(kids, visited) + Rev(stack0)
  {
    assert kids[0..] == kids && kids[|kids|..] == [];
  }

  /** The reverse push: the unvisited children go on top of the stack, the first of them last. */
  method PushChildren(g: Graph, maxDepth: nat, f: Frame, visited: set<NodeId>, stack0: seq<Frame>) returns (stack: seq<Frame>)
    requires f.depth < maxDepth
    ensures Rev(stack) == Unseen(Children(g, maxDepth, f), visited) + Rev(stack0)
  {
    stack := stack0;
    var neighbors := Out(g, f.node);
    ghost var kids := Children(g, maxDepth, f);
    PushEnds(stack, kids, visited, stack0);
    var i := |neighbors|;
    while i > 0
      invariant 0 <= i <= |neighbors| == |kids| && Pushed(stack, kids, i, visited, stack0)
    {
      i := i - 1;
      var child := Frame(neighbors[i].to, f.depth + 1);
      PushOne(stack, kids, i, visited, stack0, child);
      if child.node !in visited {
        stack := stack + [child];
      }
    }
    PushEnds(stack, kids, visited, stack0);
  }

  /** What is done and what the stack still has in store make up the whole pre-order. */
  ghost predicate OnCourse(g: Graph, start: NodeId, maxDepth: nat, result: seq<NodeId>, visited: set<NodeId>,
          pending: seq<Frame>) {
    && Inside(g, start, pending) && visited == After({}, result)
    && result + VisitAll(g, start, maxDepth, pending, visited) == PreOrder(g, start, maxDepth)
  }

  lemma VisitFirst(g: Graph, start: NodeId, maxDepth: nat, f: Frame, pending: seq<Frame>, visited: set<NodeId>)
    requires Inside(g, start, [f] + pending)
    ensures Inside(g, start, pending) && f.node in Universe(g, start)
    ensures VisitAll(g, start, maxDepth, [f] + pending, visited) ==
            Visit(g, start, maxDepth, f, visited) + VisitAll(g, start, maxDepth, pending, After(visited, Visit(g, start, maxDepth, f, visited)))
  {
    var all := [f] + pending;
    assert all[0] == f && all[1..] == pending;
    assert forall i :: 0 <= i < |pending| ==> pending[i] == all[i + 1];
  }

  lemma Skipped(g: Graph, start: NodeId, maxDepth: nat, result: seq<NodeId>, visited: set<NodeId>, f: Frame,
          pending: seq<Frame>)
    requires OnCourse(g, start, maxDepth, result, visited, [f] + pending)
    requires f.node in visited || f.depth > maxDepth
    ensures OnCourse(g, start, maxDepth, result, visited, pending)
  {
    VisitFirst(g, start, maxDepth, f, pending, visited);
    AfterConcat(visited, [], []);
  }

  /** One visited node: its children come before what else was pending. */
  lemma VisitFirstChildren(g: Graph, start: NodeId, maxDepth: nat, f: Frame, pending: seq<Frame>, visited: set<NodeId>)
    requires Inside(g, start, [f] + pending) && f.node !in visited && f.depth <= maxDepth
    ensures Inside(g, start, Unseen(Children(g, maxDepth, f), visited + {f.node}) + pending)
    ensures VisitAll(g, start, maxDepth, [f] + pending, visited) ==
            [f.node] + VisitAll(g, start, maxDepth, Unseen(Children(g, maxDepth, f), visited + {f.node}) + pending, visited + {f.node})
  {
    var v, kids := visited + {f.node}, Children(g, maxDepth, f);
    VisitFirst(g, start, maxDepth, f, pending, visited);
    ChildrenInside(g, start, maxDepth, f);
    UnseenIsEnough(g, start, maxDepth, kids, v, v);
    VisitAllAppend(g, start, maxDepth, Unseen(kids, v), pending, v);
    var rest := VisitAll(g, start, maxDepth, kids, v);
    AfterConcat(visited, [f.node], rest);
    assert After(visited, [f.node]) == v;
    Associative([f.node], rest, VisitAll(g, start, maxDepth, pending, After(v, rest)));
  }

  lemma Taken(g: Graph, start: NodeId, maxDepth: nat, result: seq<NodeId>, visited: set<NodeId>, f: Frame, pending: seq<Frame>)
    requires OnCourse(g, start, maxDepth, result, visited, [f] + pending)
    requires f.node !in visited && f.depth <= maxDepth
    ensures f.node in Universe(g, start)
    ensures OnCourse(g, start, maxDepth, result + [f.node], visited + {f.node}, Unseen(Children(g, maxDepth, f), visited + {f.node}) + pending)
  {
    VisitFirst(g, start, maxDepth, f, pending, visited);
    VisitFirstChildren(g, start, maxDepth, f, pending, visited);
    var v, kids := visited + {f.node}, Children(g, maxDepth, f);
    AfterConcat({}, result, [f.node]);
    assert After(visited, [f.node]) == v;
    Associative(result, [f.node], VisitAll(g, start, maxDepth, Unseen(kids, v) + pending, v));
  }

  lemma Started(g: Graph, start: NodeId, maxDepth: nat)
    ensures OnCourse(g, start, maxDepth, [], {}, Rev([Frame(start, 0)]))
  {
    RevPush([], Frame(start, 0));
    assert Rev([Frame(start, 0)]) == [Frame(start, 0)];
  }

  lemma Finished(g: Graph, start: NodeId, maxNodes: nat, maxDepth: nat, result: seq<NodeId>, visited: set<NodeId>,
          stack: seq<Frame>)
    requires OnCourse(g, start, maxDepth, result, visited, Rev(stack)) && |result| <= maxNodes
    requires stack == [] || |result| == maxNodes
    ensures result == FirstOf(PreOrder(g, start, maxDepth), maxNodes)
  {
    if stack == [] {
      assert Rev(stack) == [];
    }
  }

  lemma AtTheBound(g: Graph, maxDepth: nat, f: Frame, visited: set<NodeId>, pending: seq<Frame>)
    requires f.depth == maxDepth
    ensures Unseen(Children(g, maxDepth, f), visited) + pending == pending
  {
    assert Unseen([], visited) == [];
  }

  lemma RevPop(s: seq<Frame>)
    requires |s| > 0
    ensures Rev(s) == [s[|s| - 1]] + Rev(s[..|s| - 1])
  {
  }

  lemma TopInside(g: Graph, start: NodeId, maxDepth: nat, result: seq<NodeId>, ds: seq<nat>, visited: set<NodeId>, f: Frame,
          pending: seq<Frame>)
    requires OnCourse(g, start, maxDepth, result, visited, [f] + pending) && f.node !in visited
    requires Disciplined(g, start, maxDepth, result, ds, visited, [f] + pending)
    ensures f.node in Universe(g, start) && f.depth <= maxDepth
    ensures |Universe(g, start) - (visited + {f.node})| < |Universe(g, start) - visited|
  {
    DisciplineTakes(g, start, maxDepth, result, ds, visited, f, pending);
    VisitFirst(g, start, maxDepth, f, pending, visited);
    OneLess(g, start, visited, f.node);
  }

  lemma SkippedBoth(g: Graph, start: NodeId, maxDepth: nat, result: seq<NodeId>, ds: seq<nat>, visited: set<NodeId>, f: Frame,
          pending: seq<Frame>)
    requires OnCourse(g, start, maxDepth, result, visited, [f] + pending)
    requires Disciplined(g, start, maxDepth, result, ds, visited, [f] + pending)
    requires f.node in visited || f.depth > maxDepth
    ensures OnCourse(g, start, maxDepth, result, visited, pending) && Disciplined(g, start, maxDepth, result, ds, visited, pending)
  {
    if f.node !in visited {
      DisciplineTakes(g, start, maxDepth, result, ds, visited, f, pending);
    } else {
      Skipped(g, start, maxDepth, result, visited, f, pending);
      DisciplineSkips(g, start, maxDepth, result, ds, visited, f, pending);
    }
  }

  /** Lists the node just taken from the stack and pushes its children. */
  method VisitTop(g: Graph, ghost start: NodeId, maxDepth: nat, visited0: set<NodeId>, result0: seq<NodeId>, stack0: seq<Frame>,
          f: Frame, ghost ds0: seq<nat>)
    returns (visited: set<NodeId>, result: seq<NodeId>, stack: seq<Frame>, ghost ds: seq<nat>)
    requires f.node !in visited0 && f.depth <= maxDepth
    requires OnCourse(g, start, maxDepth, result0, visited0, [f] + Rev(stack0))
    requires Disciplined(g, start, maxDepth, result0, ds0, visited0, [f] + Rev(stack0))
    ensures OnCourse(g, start, maxDepth, result, visited, Rev(stack))
    ensures Disciplined(g, start, maxDepth, result, ds, visited, Rev(stack))
    ensures visited == visited0 + {f.node} && result == result0 + [f.node]
  {
    Taken(g, start, maxDepth, result0, visited0, f, Rev(stack0));
    DisciplineTakes(g, start, maxDepth, result0, ds0, visited0, f, Rev(stack0));
    visited, result, stack, ds := visited0 + {f.node}, result0 + [f.node], stack0, ds0 + [f.depth];
    if f.depth < maxDepth {
      stack := PushChildren(g, maxDepth, f, visited, stack);
    } else {
      AtTheBound(g, maxDepth, f, visited, Rev(stack));
    }
  }

  /** One turn of the loop: pop, and visit or skip. */
  method Turn(g: Graph, ghost start: NodeId, maxDepth: nat, visited0: set<NodeId>, result0: seq<NodeId>, stack0: seq<Frame>,
          ghost ds0: seq<nat>)
    returns (visited: set<NodeId>, result: seq<NodeId>, stack: seq<Frame>, ghost ds: seq<nat>)
    requires OnCourse(g, start, maxDepth, result0, visited0, Rev(stack0)) && |visited0| == |result0| && |stack0| > 0
    requires Disciplined(g, start, maxDepth, result0, ds0, visited0, Rev(stack0))
    ensures OnCourse(g, start, maxDepth, result, visited, Rev(stack))
    ensures Disciplined(g, start, maxDepth, result, ds, visited, Rev(stack))
    ensures |visited| == |result| <= |result0| + 1
    ensures |Universe(g, start) - visited| < |Universe(g, start) - visited0| || (visited == visited0 && |stack| < |stack0|)
  {
    var f := stack0[|stack0| - 1];
    visited, result, stack := visited0, result0, stack0[..|stack0| - 1];
    ds := ds0;
    RevPop(stack0);
    if f.node in visited || f.depth > maxDepth {
      SkippedBoth(g, start, maxDepth, result, ds, visited, f, Rev(stack));
    } else {
      TopInside(g, start, maxDepth, result, ds, visited, f, Rev(stack));
      visited, result, stack, ds := VisitTop(g, start, maxDepth, visited, result, stack, f, ds);
    }
  }

  /** Depth-first search with an explicit stack: the first `maxNodes` nodes of the recursive pre-order. */
  method Dfs(g: Graph, start: NodeId, maxNodes: nat, maxDepth: nat) returns (r: Listing)
    ensures r.NoSuchStart? <==> start !in g.alive
    ensures r.Nodes? ==> r.nodes == FirstOf(PreOrder(g, start, maxDepth), maxNodes)
    ensures r.Nodes? ==> ListsDepthFirst(g, start, maxNodes, maxDepth, r.nodes)
  {
    if start !in g.alive {
      return NoSuchStart;
    }
    var visited: set<NodeId>, result: seq<NodeId>, stack := {}, [], [Frame(start, 0)];
    ghost var ds: seq<nat> := [];
    Started(g, start, maxDepth);
    DisciplineStarts(g, start, maxDepth);
    assert Rev(stack) == stack;
    while |stack| > 0 && |visited| < maxNodes
      invariant OnCourse(g, start, maxDepth, result, visited, Rev(stack))
      invariant Disciplined(g, start, maxDepth, result, ds, visited, Rev(stack))
      invariant |visited| == |result| <= maxNodes
      decreases |Universe(g, start) - visited|, |stack|
    {
      visited, result, stack, ds := Turn(g, start, maxDepth, visited, result, stack, ds);
    }
    Finished(g, start, maxNodes, maxDepth, result, visited, stack);
    DisciplineEnds(g, start, maxNodes, maxDepth, result, ds, visited, Rev(stack));
    r := Nodes(result);
  }
}
