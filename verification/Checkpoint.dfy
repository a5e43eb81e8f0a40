/** What a checkpoint stores: the compacted copy of the state, its version vector, and the content anchors. */
module Checkpoint {
  import opened Dots
  import opened VersionVectors
  import opened ORSets

  // ---------------------------------------------------------------- applied version vector

  datatype Applied = Applied(vv: Counters) | BadDot

  ghost predicate Attained(adds: set<(Element, DotKey)>, w: string, n: nat) {
    exists p :: p in adds && DecodeDot(p.1) == Ok(Dot(w, n))
  }

  /** `vv` holds for every writer the greatest counter among the dots of `adds`, and nothing else. */
  ghost predicate IsMaximum(vv: Counters, adds: set<(Element, DotKey)>) {
    && (forall p :: p in adds ==> Stable(vv, p.1))
    && (forall w :: w in vv ==> vv[w] > 0 && Attained(adds, w, vv[w]))
  }

  /** `computeAppliedVV`: dots of both sets count, tombstoned or not. */
  method ComputeAppliedVV(nodeAlive: ORSet, edgeAlive: ORSet) returns (r: Applied)
    ensures r.Applied? <==> Decodable(nodeAlive.Contents().adds + edgeAlive.Contents().adds)
    ensures r.Applied? ==> IsMaximum(r.vv, nodeAlive.Contents().adds + edgeAlive.Contents().adds)
  {
    var nodes := Scan(PairsIn(nodeAlive.entries), map[], {});
    if nodes.BadDot? {
      return BadDot;
    }
    assert {} + nodeAlive.Contents().adds == nodeAlive.Contents().adds;
    r := Scan(PairsIn(edgeAlive.entries), nodes.vv, nodeAlive.Contents().adds);
  }

  /** `scanORSet` */
  method Scan(pairs: set<(Element, DotKey)>, vv0: Counters, ghost before: set<(Element, DotKey)>) returns (r: Applied)
    requires Decodable(before) && IsMaximum(vv0, before)
    ensures r.Applied? <==> Decodable(pairs)
    ensures r.Applied? ==> IsMaximum(r.vv, before + pairs)
  {
    var vv: Counters, rest := vv0, pairs;
    assert before + (pairs - rest) == before;
    while rest != {}
      invariant rest <= pairs && Decodable(pairs - rest) && IsMaximum(vv, before + (pairs - rest))
      decreases |rest|
    {
      var p :| p in rest;
      var d := DecodeDot(p.1);
      if !d.Ok? {
        return BadDot;
      }
      Raise(vv, before + (pairs - rest), p, d.dot);
      OneFewer(before, pairs, rest, p);
      rest := rest - {p};
      if d.dot.counter > CounterOf(vv, d.dot.writerId) {
        vv := vv[d.dot.writerId := d.dot.counter];
      }
    }
    assert pairs - rest == pairs;
    r := Applied(vv);
  }

  lemma OneFewer(before: set<(Element, DotKey)>, pairs: set<(Element, DotKey)>, rest: set<(Element, DotKey)>,
          p: (Element, DotKey))
    requires p in rest && rest <= pairs
    ensures before + (pairs - (rest - {p})) == before + (pairs - rest) + {p}
    ensures pairs - (rest - {p}) == (pairs - rest) + {p}
  {
  }

  lemma Raise(vv: Counters, adds: set<(Element, DotKey)>, p: (Element, DotKey), d: Dot)
    requires IsMaximum(vv, adds) && DecodeDot(p.1) == Ok(d)
    ensures d.counter > CounterOf(vv, d.writerId) ==> IsMaximum(vv[d.writerId := d.counter], adds + {p})
    ensures d.counter <= CounterOf(vv, d.writerId) ==> IsMaximum(vv, adds + {p})
  {
    var more := adds + {p};
    forall w, n: nat | Attained(adds, w, n) ensures Attained(more, w, n) {
      var q :| q in adds && DecodeDot(q.1) == Ok(Dot(w, n));
      assert q in more;
    }
    if d.counter > CounterOf(vv, d.writerId) {
      var u := vv[d.writerId := d.counter];
      assert p in more && Attained(more, d.writerId, d.counter);
      forall q | q in more ensures Stable(u, q.1) {
        assert q in adds ==> Stable(vv, q.1);
      }
    }
  }

  // ---------------------------------------------------------------- compaction of the copy

  /** With every entry dot reached, compaction leaves exactly the live entries, and the tombstones of no entry. */
  lemma FullCompaction(c: Content, vv: Counters)
    requires forall p :: p in c.adds ==> Stable(vv, p.1)
    ensures forall p :: p in Compacted(c, vv).adds <==> p in c.adds && p.1 !in c.tombs
    ensures forall k :: k in Compacted(c, vv).tombs <==> k in c.tombs && forall e :: (e, k) !in c.adds
    ensures forall e :: LiveDots(Compacted(c, vv), e) == LiveDots(c, e)
  {
    forall p | p in c.adds && p.1 in c.tombs ensures p.1 in Dropped(c, vv) {
      assert (p.0, p.1) in c.adds;
    }
    forall e ensures LiveDots(Compacted(c, vv), e) == LiveDots(c, e) { CompactedKeepsLive(c, vv, e); }
  }

  /** The checkpointed copy `b` of `a`: all live dots and no entry whose dot is tombstoned. */
  ghost predicate IsPruned(a: Content, b: Content) {
    && (forall p :: p in b.adds <==> p in a.adds && p.1 !in a.tombs)
    && (forall k :: k in b.tombs <==> k in a.tombs && forall e :: (e, k) !in a.adds)
    && (forall e :: LiveDots(b, e) == LiveDots(a, e))
  }

  datatype Snapshot = Snapshot(nodeAlive: ORSet, edgeAlive: ORSet, appliedVV: Counters) | SnapshotFailed

  /** The first two steps of `createV5`. The caller's state does not change; without compaction it is shared. */
  method TakeSnapshot(nodeAlive: ORSet, edgeAlive: ORSet, compact: bool) returns (r: Snapshot)
    ensures r.Snapshot? <==> Decodable(nodeAlive.Contents().adds + edgeAlive.Contents().adds)
    ensures r.Snapshot? ==> IsMaximum(r.appliedVV, nodeAlive.Contents().adds + edgeAlive.Contents().adds)
    ensures r.Snapshot? && !compact ==> r.nodeAlive == nodeAlive && r.edgeAlive == edgeAlive
    ensures r.Snapshot? && compact ==> fresh(r.nodeAlive) && fresh(r.edgeAlive)
    ensures r.Snapshot? && compact ==> IsPruned(nodeAlive.Contents(), r.nodeAlive.Contents())
    ensures r.Snapshot? && compact ==> IsPruned(edgeAlive.Contents(), r.edgeAlive.Contents())
  {
    var applied := ComputeAppliedVV(nodeAlive, edgeAlive);
    if applied.BadDot? {
      return SnapshotFailed;
    }
    if !compact {
      return Snapshot(nodeAlive, edgeAlive, applied.vv);
    }
    var nodes := nodeAlive.Clone();
    var edges := edgeAlive.Clone();
    var a := nodes.Compact(applied.vv);
    var b := edges.Compact(applied.vv);
    ghost var all := nodeAlive.Contents().adds + edgeAlive.Contents().adds;
    assert forall p :: p in nodeAlive.Contents().adds ==> p in all;
    assert forall p :: p in edgeAlive.Contents().adds ==> p in all;
    FullCompaction(nodeAlive.Contents(), applied.vv);
    FullCompaction(edgeAlive.Contents(), applied.vv);
    r := Snapshot(nodes, edges, applied.vv);
  }

  // ---------------------------------------------------------------- content anchors

  ghost predicate StringsAscend(s: seq<string>) {
    forall i, j :: 0 <= i < j < |s| ==> StringLess(s[i], s[j])
  }

  ghost function StringSet(s: seq<string>): set<string> {
    set x | x in s
  }

  lemma AscendAppend(s: seq<string>, x: string)
    requires StringsAscend(s) && (s == [] || StringLess(s[|s| - 1], x))
    ensures StringsAscend(s + [x])
  {
    forall i | 0 <= i < |s| ensures StringLess(s[i], x) {
      if i < |s| - 1 { StringLessTransitive(s[i], s[|s| - 1], x); }
    }
  }

  /** Everything already merged comes before what is still to come. */
  ghost predicate Below(merged: seq<string>, s: seq<string>, i: nat) {
    merged == [] || i >= |s| || StringLess(merged[|merged| - 1], s[i])
  }

  ghost predicate Merging(a: seq<string>, b: seq<string>, i: nat, j: nat, merged: seq<string>) {
    && i <= |a| && j <= |b| && StringsAscend(merged)
    && Below(merged, a, i) && Below(merged, b, j)
    && StringSet(merged) == StringSet(a[..i]) + StringSet(b[..j])
  }

  lemma StringSetAppend(s: seq<string>, x: string)
    ensures StringSet(s + [x]) == StringSet(s) + {x}
  {
  }

  lemma MergeOne(a: seq<string>, b: seq<string>, i: nat, j: nat, merged: seq<string>)
    requires StringsAscend(a) && StringsAscend(b) && Merging(a, b, i, j, merged)
    ensures i < |a| && j < |b| && a[i] == b[j] ==> Merging(a, b, i + 1, j + 1, merged + [a[i]])
    ensures i < |a| && (j < |b| ==> StringLess(a[i], b[j])) ==> Merging(a, b, i + 1, j, merged + [a[i]])
    ensures j < |b| && (i < |a| ==> StringLess(b[j], a[i])) ==> Merging(a, b, i, j + 1, merged + [b[j]])
  {
    if i < |a| {
      assert a[..i + 1] == a[..i] + [a[i]];
      StringSetAppend(a[..i], a[i]);
      StringSetAppend(merged, a[i]);
      AscendAppend(merged, a[i]);
    }
    if j < |b| {
      assert b[..j + 1] == b[..j] + [b[j]];
      StringSetAppend(b[..j], b[j]);
      StringSetAppend(merged, b[j]);
      AscendAppend(merged, b[j]);
    }
  }

  /** `mergeSortedUniqueStrings`: two ascending lists become the ascending list of their union. */
  method MergeSortedUnique(existing: seq<string>, incoming: seq<string>) returns (merged: seq<string>)
    requires StringsAscend(existing) && StringsAscend(incoming)
    ensures StringsAscend(merged) && StringSet(merged) == StringSet(existing) + StringSet(incoming)
  {
    merged := [];
    var i, j := 0, 0;
    while i < |existing| && j < |incoming|
      invariant Merging(existing, incoming, i, j, merged)
      decreases |existing| - i + |incoming| - j
    {
      var left, right := existing[i], incoming[j];
      MergeOne(existing, incoming, i, j, merged);
      StringLessTotal(left, right);
      if left == right {
        merged, i, j := merged + [left], i + 1, j + 1;
        continue;
      }
      if StringLess(left, right) {
        merged, i := merged + [left], i + 1;
        continue;
      }
      merged, j := merged + [right], j + 1;
    }
    while i < |existing|
      invariant Merging(existing, incoming, i, j, merged) && (i == |existing| || j == |incoming|)
    {
      MergeOne(existing, incoming, i, j, merged);
      merged, i := merged + [existing[i]], i + 1;
    }
    while j < |incoming|
      invariant Merging(existing, incoming, i, j, merged) && i == |existing|
    {
      MergeOne(existing, incoming, i, j, merged);
      merged, j := merged + [incoming[j]], j + 1;
    }
    assert existing[..i] == existing && incoming[..j] == incoming;
  }

  /** An ascending list is determined by its members. */
  lemma {:induction false} AscendingIsUnique(a: seq<string>, b: seq<string>)
    requires StringsAscend(a) && StringsAscend(b) && StringSet(a) == StringSet(b)
    ensures a == b
  {
    if a != [] || b != [] {
      assert a != [] ==> a[0] in StringSet(a);
      assert b != [] ==> b[0] in StringSet(b);
      assert a[0] in b && b[0] in a;
      StringLessTotal(a[0], b[0]);
      assert a[0] == b[0];
      StringLessTotal(a[0], a[0]);
      forall x ensures x in StringSet(a[1..]) <==> x in StringSet(b[1..]) {
        assert x in a[1..] ==> x in StringSet(a) && x != a[0];
        assert x in b[1..] ==> x in StringSet(b) && x != b[0];
        assert x in a <==> x == a[0] || x in a[1..];
        assert x in b <==> x == b[0] || x in b[1..];
      }
      AscendingIsUnique(a[1..], b[1..]);
      assert a == [a[0]] + a[1..] && b == [b[0]] + b[1..];
    }
  }

  const CONTENT_PROPERTY_KEY := "_content"
  const CONTENT_ANCHOR_BATCH_SIZE := 256

  /** A property with its decoded key; `text` is absent for a value that is not a string. */
  datatype Property = Property(key: string, text: Anchor)

  datatype Anchor = Text(oid: string) | NotText

  ghost function ContentOids(props: seq<Property>): set<string> {
    set p | p in props && p.key == CONTENT_PROPERTY_KEY && p.text.Text? :: p.text.oid
  }

  /** `flushBatch` */
  method FlushBatch(sortedOids: seq<string>, batch: set<string>) returns (r: seq<string>)
    requires StringsAscend(sortedOids)
    ensures StringsAscend(r) && StringSet(r) == StringSet(sortedOids) + batch
  {
    if batch == {} {
      assert StringSet(sortedOids) + batch == StringSet(sortedOids);
      return sortedOids;
    }
    var sortedBatch := SortStrings(batch);
    r := MergeSortedUnique(sortedOids, sortedBatch);
  }

  /** `Array.from(batch).sort()` */
  method SortStrings(s: set<string>) returns (r: seq<string>)
    ensures StringsAscend(r) && StringSet(r) == s
  {
    r := [];
    var rest := s;
    while rest != {}
      invariant rest <= s && StringSet(r) == s - rest && StringsAscend(r)
      decreases |rest|
    {
      var x :| x in rest;
      rest := rest - {x};
      var before := r;
      r := MergeSortedUnique(before, [x]);
      assert StringSet([x]) == {x};
    }
  }

  /** `collectContentAnchorEntries` up to the formatting of the lines: whatever the batch size, the ascending list
      of the distinct content ids. */
  method CollectContentOids(props: seq<Property>) returns (sortedOids: seq<string>)
    ensures StringsAscend(sortedOids) && StringSet(sortedOids) == ContentOids(props)
  {
    sortedOids := [];
    var batch: set<string> := {};
    for i := 0 to |props|
      invariant StringsAscend(sortedOids) && Gathered(props, i, sortedOids, batch)
    {
      GatherOne(props, i, sortedOids, batch);
      if props[i].key != CONTENT_PROPERTY_KEY || props[i].text.NotText? {
        continue;
      }
      batch := batch + {props[i].text.oid};
      if |batch| >= CONTENT_ANCHOR_BATCH_SIZE {
        var flushed := FlushBatch(sortedOids, batch);
        GatherFlushed(props, i + 1, sortedOids, batch, flushed);
        sortedOids, batch := flushed, {};
      }
    }
    assert props[..|props|] == props;
    sortedOids := FlushBatch(sortedOids, batch);
  }

  /** The first `i` properties have been looked at. */
  ghost predicate Gathered(props: seq<Property>, i: nat, sortedOids: seq<string>, batch: set<string>) {
    i <= |props| && StringSet(sortedOids) + batch == ContentOids(props[..i])
  }

  lemma GatherOne(props: seq<Property>, i: nat, sortedOids: seq<string>, batch: set<string>)
    requires i < |props| && Gathered(props, i, sortedOids, batch)
    ensures Gathered(props, i + 1, sortedOids,
              if props[i].key == CONTENT_PROPERTY_KEY && props[i].text.Text? then batch + {props[i].text.oid} else batch)
  {
    assert forall q :: q in props[..i + 1] <==> q in props[..i] || q == props[i];
    var more := if props[i].key == CONTENT_PROPERTY_KEY && props[i].text.Text? then {props[i].text.oid} else {};
    assert ContentOids(props[..i + 1]) == ContentOids(props[..i]) + more;
  }

  lemma GatherFlushed(props: seq<Property>, i: nat, sortedOids: seq<string>, batch: set<string>, flushed: seq<string>)
    requires Gathered(props, i, sortedOids, batch) && StringSet(flushed) == StringSet(sortedOids) + batch
    ensures Gathered(props, i, flushed, {})
  {
  }
}
