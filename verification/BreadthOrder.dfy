/** What the closed form of breadth-first search says about any two listed nodes. */
module BreadthOrder {
  import opened Graphs
  import opened Topology
  import opened Breadth

  /** Some walk of `k` edges leads to `n`, and none of fewer. */
  ghost predicate AtDistance(r: Rel, start: NodeId, n: NodeId, k: nat) {
    && (exists p :: WalkFromTo(r, p, start, n) && |p| == k + 1)
    && (forall p :: WalkFromTo(r, p, start, n) ==> |p| >= k + 1)
  }

  lemma DistanceIsUnique(r: Rel, start: NodeId, n: NodeId, a: nat, b: nat)
    requires AtDistance(r, start, n, a) && AtDistance(r, start, n, b)
    ensures a == b
  {
  }

  /** The nodes of the listing are within its bound. */
  lemma ListedIsNear(r: Rel, start: NodeId, n: NodeId, k: nat, a: nat)
    requires n in SetOf(BfsOrder(r, start, k)) && AtDistance(r, start, n, a)
    ensures a <= k
  {
    BfsOrderSet(r, start, k);
    BallIsNear(r, start, n, k, a);
  }

  lemma BallIsNear(r: Rel, start: NodeId, n: NodeId, k: nat, a: nat)
    requires n in Ball(r, start, k) && AtDistance(r, start, n, a)
    ensures a <= k
  {
    var p := BallHasWalk(r, start, n, k);
    assert |p| >= a + 1;
  }

  /** `last` lists nodes at distance `k` by id. */
  ghost predicate SortedLayer(r: Rel, start: NodeId, k: nat, last: seq<NodeId>) {
    && (forall i, j :: 0 <= i < j < |last| ==> last[i] < last[j])
    && (forall i {:trigger last[i]} :: 0 <= i < |last| ==> AtDistance(r, start, last[i], k))
  }

  lemma LayerIsSorted(r: Rel, start: NodeId, k: nat)
    ensures SortedLayer(r, start, k, InOrder(Layer(r, start, k)))
  {
    var last := InOrder(Layer(r, start, k));
    InOrderIsAscending(Layer(r, start, k));
    forall i | 0 <= i < |last|
      ensures AtDistance(r, start, last[i], k)
    {
      assert last[i] in SetOf(last);
      LayerIsDistance(r, start, last[i], k);
    }
  }

  lemma TwoParts(r: Rel, start: NodeId, m: nat, k: nat) returns (last: seq<NodeId>)
    requires k == m + 1
    ensures BfsOrder(r, start, k) == BfsOrder(r, start, m) + last && SortedLayer(r, start, k, last)
  {
    last := InOrder(Layer(r, start, k));
    LayerIsSorted(r, start, k);
  }

  /** Two nodes of a listing: the earlier one is nearer, or as near with the smaller id. */
  ghost predicate InRightOrder(r: Rel, start: NodeId, x: NodeId, y: NodeId) {
    forall a: nat, b: nat {:trigger AtDistance(r, start, x, a), AtDistance(r, start, y, b)} ::
      AtDistance(r, start, x, a) && AtDistance(r, start, y, b) ==> a < b || (a == b && x < y)
  }

  lemma PartsInOrder(r: Rel, start: NodeId, m: nat, k: nat, before: seq<NodeId>, last: seq<NodeId>, i: nat, j: nat)
    requires m < k && before == BfsOrder(r, start, m) && SortedLayer(r, start, k, last)
    requires |before| <= j < |before| + |last| && i < j
    ensures InRightOrder(r, start, (before + last)[i], (before + last)[j])
  {
    var y := last[j - |before|];
    forall a: nat, b: nat | AtDistance(r, start, (before + last)[i], a) && AtDistance(r, start, y, b)
      ensures a < b || (a == b && (before + last)[i] < y)
    {
      DistanceIsUnique(r, start, y, b, k);
      if i < |before| {
        assert before[i] in SetOf(before);
        ListedIsNear(r, start, before[i], m, a);
      } else {
        DistanceIsUnique(r, start, last[i - |before|], a, k);
      }
    }
  }

  ghost predicate AllInOrder(r: Rel, start: NodeId, order: seq<NodeId>) {
    forall i, j {:trigger InRightOrder(r, start, order[i], order[j])} :: 0 <= i < j < |order| ==> InRightOrder(r, start, order[i], order[j])
  }

  lemma OneMoreLayer(r: Rel, start: NodeId, m: nat, k: nat, before: seq<NodeId>, last: seq<NodeId>)
    requires m < k && before == BfsOrder(r, start, m) && SortedLayer(r, start, k, last) && AllInOrder(r, start, before)
    ensures AllInOrder(r, start, before + last)
  {
    var order := before + last;
    forall i, j | 0 <= i < j < |order|
      ensures InRightOrder(r, start, order[i], order[j])
    {
      if j < |before| {
        assert InRightOrder(r, start, before[i], before[j]);
      } else {
        PartsInOrder(r, start, m, k, before, last, i, j);
      }
    }
  }

  lemma OneMoreDistance(r: Rel, start: NodeId, m: nat, k: nat)
    requires k == m + 1 && AllInOrder(r, start, BfsOrder(r, start, m))
    ensures AllInOrder(r, start, BfsOrder(r, start, k))
  {
    var last := TwoParts(r, start, m, k);
    OneMoreLayer(r, start, m, k, BfsOrder(r, start, m), last);
  }

  /** The listing is sorted by distance, and at one distance by id. */
  lemma {:induction false} BfsOrderIsSorted(r: Rel, start: NodeId, k: nat)
    ensures AllInOrder(r, start, BfsOrder(r, start, k))
    decreases k
  {
    if k > 0 {
      BfsOrderIsSorted(r, start, k - 1);
      OneMoreDistance(r, start, k - 1, k);
    }
  }

  /** Everything within `k` edges is listed. */
  lemma BfsOrderIsComplete(r: Rel, start: NodeId, k: nat, n: NodeId)
    ensures n in BfsOrder(r, start, k) <==> exists p :: WalkFromTo(r, p, start, n) && |p| <= k + 1
  {
    BfsOrderSet(r, start, k);
    assert n in BfsOrder(r, start, k) <==> n in SetOf(BfsOrder(r, start, k));
    if n in Ball(r, start, k) {
      var p := BallHasWalk(r, start, n, k);
    }
    if p :| WalkFromTo(r, p, start, n) && |p| <= k + 1 {
      WalkInBall(r, start, p, n, k);
    }
  }
}
