/** Garbage collection of a graph state's two OR-sets, and the metrics it reports. */
module GarbageCollection {
  import opened VersionVectors
  import opened ORSets

  type Pairs = set<(Element, DotKey)>

  /** The add entries whose dot is tombstoned (`dead`), or is not. */
  ghost function Entered(c: Content, dead: bool): Pairs {
    set p | p in c.adds && (p.1 in c.tombs) == dead
  }

  /** The add entries a compaction takes away. */
  ghost function Taken(c: Content, vv: Counters): Pairs {
    set p | p in c.adds && p.1 in Dropped(c, vv)
  }

  lemma SplitSize<T>(all: set<T>, part: set<T>)
    requires part <= all
    ensures |all| == |part| + |all - part|
  {
    assert all == part + (all - part);
  }

  lemma CompactedEntries(c: Content, vv: Counters)
    ensures Taken(c, vv) <= Entered(c, true)
    ensures Entered(Compacted(c, vv), true) == Entered(c, true) - Taken(c, vv)
    ensures Entered(Compacted(c, vv), false) == Entered(c, false)
  {
    var gone, d := Dropped(c, vv), Compacted(c, vv);
    forall p ensures p in Entered(d, true) <==> p in Entered(c, true) && p.1 !in gone {}
    forall p ensures p in Entered(d, false) <==> p in Entered(c, false) {}
  }

  /** A compaction takes away as many entries as tombstoned entries, and no live one. */
  lemma CompactedCounts(c: Content, vv: Counters)
    ensures |c.adds| - |Compacted(c, vv).adds| == |Taken(c, vv)|
    ensures |Entered(c, true)| - |Entered(Compacted(c, vv), true)| == |Taken(c, vv)|
    ensures Entered(Compacted(c, vv), false) == Entered(c, false)
  {
    CompactedEntries(c, vv);
    SplitSize(Entered(c, true), Taken(c, vv));
    SplitSize(c.adds, Taken(c, vv));
    CompactedAdds(c, vv);
  }

  lemma CompactedAdds(c: Content, vv: Counters)
    ensures Compacted(c, vv).adds == c.adds - Taken(c, vv)
  {
    var gone := Dropped(c, vv);
    forall p ensures p in Compacted(c, vv).adds <==> p in c.adds && p.1 !in gone {}
  }

  lemma {:induction false} TaggedSize(e: Element, ks: set<DotKey>)
    ensures |set k | k in ks :: (e, k)| == |ks|
  {
    if ks != {} {
      var x :| x in ks;
      TaggedSize(e, ks - {x});
      assert (set k | k in ks :: (e, k)) == (set k | k in ks - {x} :: (e, k)) + {(e, x)};
    }
  }

  /** The entries of the elements in `done`. */
  ghost function Of(ps: Pairs, done: set<Element>): Pairs {
    set p | p in ps && p.0 in done
  }

  lemma OneMore(ps: Pairs, done: set<Element>, e: Element, ks: set<DotKey>)
    requires e !in done && forall k :: k in ks <==> (e, k) in ps
    ensures |Of(ps, done + {e})| == |Of(ps, done)| + |ks|
  {
    var here := set k | k in ks :: (e, k);
    TaggedSize(e, ks);
    assert Of(ps, done + {e}) == Of(ps, done) + here;
  }

  /** `countEntries` */
  method CountEntries(s: ORSet) returns (count: nat)
    ensures count == |s.Contents().adds|
  {
    count := 0;
    var rest := s.entries.Keys;
    ghost var adds := s.Contents().adds;
    assert Of(adds, {}) == {};
    while rest != {}
      invariant rest <= s.entries.Keys && count == |Of(adds, s.entries.Keys - rest)|
      decreases |rest|
    {
      var e :| e in rest;
      OneMore(adds, s.entries.Keys - rest, e, s.entries[e]);
      assert s.entries.Keys - (rest - {e}) == (s.entries.Keys - rest) + {e};
      rest := rest - {e};
      count := count + |s.entries[e]|;
    }
    assert Of(adds, s.entries.Keys - rest) == adds;
  }

  /** The loop of `countLiveDots` and `countTombstones`, which differ in the test only. */
  method CountDots(s: ORSet, dead: bool) returns (count: nat)
    ensures count == |Entered(s.Contents(), dead)|
  {
    count := 0;
    var rest := s.entries.Keys;
    ghost var ps := Entered(s.Contents(), dead);
    assert Of(ps, {}) == {};
    while rest != {}
      invariant rest <= s.entries.Keys && count == |Of(ps, s.entries.Keys - rest)|
      decreases |rest|
    {
      var e :| e in rest;
      var n := CountOfElement(s.entries[e], s.tombstones, dead);
      OneMore(ps, s.entries.Keys - rest, e, Matching(s.entries[e], s.tombstones, dead));
      assert s.entries.Keys - (rest - {e}) == (s.entries.Keys - rest) + {e};
      rest := rest - {e};
      count := count + n;
    }
    assert Of(ps, s.entries.Keys - rest) == ps;
  }

  ghost function Matching(dots: set<DotKey>, tombstones: set<DotKey>, dead: bool): set<DotKey> {
    set k | k in dots && (k in tombstones) == dead
  }

  method CountOfElement(dots: set<DotKey>, tombstones: set<DotKey>, dead: bool) returns (n: nat)
    ensures n == |Matching(dots, tombstones, dead)|
  {
    n := 0;
    var rest := dots;
    assert Matching({}, tombstones, dead) == {};
    while rest != {}
      invariant rest <= dots && n == |Matching(dots - rest, tombstones, dead)|
      decreases |rest|
    {
      var k :| k in rest;
      assert dots - (rest - {k}) == (dots - rest) + {k};
      assert Matching((dots - rest) + {k}, tombstones, dead) ==
             Matching(dots - rest, tombstones, dead) + if (k in tombstones) == dead then {k} else {};
      rest := rest - {k};
      if (k in tombstones) == dead {
        n := n + 1;
      }
    }
    assert dots - rest == dots;
  }

  datatype Metrics = Metrics(nodeEntries: nat, edgeEntries: nat, totalEntries: nat,
                             nodeTombstones: nat, edgeTombstones: nat, totalTombstones: nat,
                             nodeLiveDots: nat, edgeLiveDots: nat, totalLiveDots: nat, tombstoneRatio: real)

  ghost predicate Measures(m: Metrics, node: Content, edge: Content) {
    && m.nodeEntries == |node.adds| && m.edgeEntries == |edge.adds| && m.totalEntries == m.nodeEntries + m.edgeEntries
    && m.nodeTombstones == |Entered(node, true)| && m.edgeTombstones == |Entered(edge, true)|
    && m.totalTombstones == m.nodeTombstones + m.edgeTombstones
    && m.nodeLiveDots == |Entered(node, false)| && m.edgeLiveDots == |Entered(edge, false)|
    && m.totalLiveDots == m.nodeLiveDots + m.edgeLiveDots
    && m.totalEntries == m.totalTombstones + m.totalLiveDots
    && 0.0 <= m.tombstoneRatio <= 1.0
    && m.tombstoneRatio * (m.totalEntries as real) == m.totalTombstones as real
  }

  lemma EntriesSplit(c: Content)
    ensures |c.adds| == |Entered(c, true)| + |Entered(c, false)|
  {
    SplitSize(c.adds, Entered(c, true));
    assert c.adds - Entered(c, true) == Entered(c, false);
  }

  /** `collectGCMetrics` */
  method CollectGCMetrics(nodeAlive: ORSet, edgeAlive: ORSet) returns (m: Metrics)
    ensures Measures(m, nodeAlive.Contents(), edgeAlive.Contents())
  {
    var nodeEntries := CountEntries(nodeAlive);
    var edgeEntries := CountEntries(edgeAlive);
    var nodeLiveDots := CountDots(nodeAlive, false);
    var edgeLiveDots := CountDots(edgeAlive, false);
    var nodeTombstones := CountDots(nodeAlive, true);
    var edgeTombstones := CountDots(edgeAlive, true);
    var totalTombstones, totalLiveDots := nodeTombstones + edgeTombstones, nodeLiveDots + edgeLiveDots;
    var denominator := totalTombstones + totalLiveDots;
    EntriesSplit(nodeAlive.Contents());
    EntriesSplit(edgeAlive.Contents());
    var ratio := if denominator > 0 then totalTombstones as real / denominator as real else 0.0;
    if denominator > 0 { RatioBounds(totalTombstones, denominator); }
    m := Metrics(nodeEntries, edgeEntries, nodeEntries + edgeEntries, nodeTombstones, edgeTombstones, totalTombstones,
                 nodeLiveDots, edgeLiveDots, totalLiveDots, ratio);
  }

  lemma RatioBounds(a: nat, b: nat)
    requires a <= b && b > 0
    ensures 0.0 <= a as real / b as real <= 1.0
  {
  }

  datatype Phase = NodePhase | EdgePhase

  datatype GCResult =
    | Collected(nodesCompacted: int, edgesCompacted: int, tombstonesRemoved: int)
    | CompactionFailed(phase: Phase)

  /** `executeGC`: both sets are compacted, live entries are untouched, and the report adds up. */
  method ExecuteGC(nodeAlive: ORSet, edgeAlive: ORSet, appliedVV: Counters) returns (r: GCResult)
    requires nodeAlive != edgeAlive
    modifies nodeAlive, edgeAlive
    ensures r.Collected? <==> Decodable(old(nodeAlive.Contents()).adds) && Decodable(old(edgeAlive.Contents()).adds)
    ensures r == CompactionFailed(NodePhase) <==> !Decodable(old(nodeAlive.Contents()).adds)
    ensures nodeAlive.Contents() == if r == CompactionFailed(NodePhase) then old(nodeAlive.Contents()) else Compacted(old(nodeAlive.Contents()), appliedVV)
    ensures edgeAlive.Contents() == if r.CompactionFailed? then old(edgeAlive.Contents()) else Compacted(old(edgeAlive.Contents()), appliedVV)
    ensures r.Collected? ==> r.nodesCompacted == |Taken(old(nodeAlive.Contents()), appliedVV)|
    ensures r.Collected? ==> r.edgesCompacted == |Taken(old(edgeAlive.Contents()), appliedVV)|
    ensures r.Collected? ==> r.tombstonesRemoved == r.nodesCompacted + r.edgesCompacted
  {
    var before := CollectGCMetrics(nodeAlive, edgeAlive);
    CompactedCounts(nodeAlive.Contents(), appliedVV);
    CompactedCounts(edgeAlive.Contents(), appliedVV);
    var nodes := nodeAlive.Compact(appliedVV);
    if nodes.Malformed? {
      return CompactionFailed(NodePhase);
    }
    var edges := edgeAlive.Compact(appliedVV);
    if edges.Malformed? {
      return CompactionFailed(EdgePhase);
    }
    var after := CollectGCMetrics(nodeAlive, edgeAlive);
    r := Collected(before.nodeEntries - after.nodeEntries, before.edgeEntries - after.edgeEntries,
                   before.totalTombstones - after.totalTombstones);
  }
}
