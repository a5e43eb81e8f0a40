/** The index as a whole: what is queried is what was added. */
module BitmapIndex {
  import opened Graphs
  import opened BitmapBuilder
  import opened BitmapReader

  /** The far ends of the edges at `sha`, in registration order. */
  ghost function Neighbors(reg: seq<string>, edges: set<(string, string)>, sha: string, forward: bool): seq<string> {
    if reg == [] then [] else
      var n := |reg| - 1;
      Neighbors(reg[..n], edges, sha, forward) +
      if (if forward then (sha, reg[n]) in edges else (reg[n], sha) in edges) && reg[n] != "" then [reg[n]] else []
  }

  lemma {:induction false} NeighborsAreMembers(reg: seq<string>, edges: set<(string, string)>, s: string, t: string,
          forward: bool)
    ensures t in Neighbors(reg, edges, s, forward) <==> t in reg && t != "" && (if forward then (s, t) in edges else (t, s) in edges)
  {
    if reg != [] {
      var n := |reg| - 1;
      NeighborsAreMembers(reg[..n], edges, s, t, forward);
      assert t in reg <==> t in reg[..n] || t == reg[n];
    }
  }

  /** They come in the order in which they were registered, each once. */
  lemma {:induction false} NeighborsAscend(shaToId: map<string, nat>, reg: seq<string>, edges: set<(string, string)>, sha: string,
          forward: bool, i: nat, j: nat)
    requires forall k :: 0 <= k < |reg| ==> reg[k] in shaToId && shaToId[reg[k]] == k
    requires i < j < |Neighbors(reg, edges, sha, forward)|
    ensures var a := Neighbors(reg, edges, sha, forward); a[i] in shaToId && a[j] in shaToId && shaToId[a[i]] < shaToId[a[j]]
    decreases |reg|
  {
    var n := |reg| - 1;
    var rest := Neighbors(reg[..n], edges, sha, forward);
    var a := Neighbors(reg, edges, sha, forward);
    assert forall k :: 0 <= k < n ==> reg[..n][k] == reg[k];
    if j < |rest| {
      NeighborsAscend(shaToId, reg[..n], edges, sha, forward, i, j);
    } else {
      assert a[i] == rest[i] && a[j] == reg[n];
      NeighborsAreMembers(reg[..n], edges, sha, rest[i], forward);
      assert rest[i] in rest;
      var k :| 0 <= k < n && reg[..n][k] == rest[i];
    }
  }

  /** Children and parents are inverse to each other: for edges among named nodes both say the same. */
  lemma ChildrenAndParentsAreInverse(b: BitmapIndexBuilder, s: string, t: string)
    requires b.Valid() && s != "" && t != ""
    ensures t in Neighbors(b.idToSha, b.edges, s, true) <==> s in Neighbors(b.idToSha, b.edges, t, false)
    ensures t in Neighbors(b.idToSha, b.edges, s, true) <==> (s, t) in b.edges
  {
    NeighborsAreMembers(b.idToSha, b.edges, s, t, true);
    NeighborsAreMembers(b.idToSha, b.edges, t, s, false);
    if (s, t) in b.edges {
      assert b.idToSha[b.shaToId[s]] == s && b.idToSha[b.shaToId[t]] == t;
    }
  }

  lemma {:induction false} SelectIsNeighbors(reg: seq<string>, edges: set<(string, string)>, sha: string,
          forward: bool, bits: set<nat>)
    requires forall i: nat :: i < |reg| ==> (i in bits <==> if forward then (sha, reg[i]) in edges else (reg[i], sha) in edges)
    ensures Select(reg, bits) == Neighbors(reg, edges, sha, forward)
  {
    if reg != [] {
      var n := |reg| - 1;
      assert forall i: nat :: i < n ==> reg[..n][i] == reg[i];
      SelectIsNeighbors(reg[..n], edges, sha, forward, bits);
    }
  }

  /** The reader has been pointed at the serialised tree. */
  ghost predicate Serves(r: BitmapIndexReader, tree: Tree)
    reads r
  {
    r.shardOids.Keys == tree.Keys && forall path :: path in tree ==> r.Meaning(path) == tree[path]
  }

  ghost function BitsAt(b: BitmapIndexBuilder, sha: string, forward: bool): set<nat>
    reads b
  {
    BitsOf(b.bitmaps, if forward then FwdKey(sha) else RevKey(sha))
  }

  /** What the reader finds in the shard of `sha` is the builder's bitmap. */
  lemma ShardHasBits(r: BitmapIndexReader, b: BitmapIndexBuilder, tree: Tree, sha: string, forward: bool)
    requires Serves(r, tree) && BitsStored(tree, b.bitmaps)
    ensures r.Clean(EdgePath(sha, forward)) && EncodedBits(r.Meaning(EdgePath(sha, forward)), sha) == BitsAt(b, sha, forward)
  {
    var path := EdgePath(sha, forward);
    assert r.Meaning(path) == ShardIn(tree, path);
    assert FwdAt(tree, b.bitmaps, sha) && RevAt(tree, b.bitmaps, sha);
    forall s | s in r.Meaning(path).bitmaps ensures r.Meaning(path).bitmaps[s].Bits? {
      assert s in ShardIn(tree, path).bitmaps;
    }
  }

  lemma TableIsRight(r: BitmapIndexReader, b: BitmapIndexBuilder, tree: Tree)
    requires b.Valid() && Serves(r, tree) && IdsStored(tree, b.shaToId) && r.NamesFaithful() && r.idToShaCache.Some?
    ensures NamesSound(r.idToShaCache.value, b.idToSha)
    ensures r.Complete() ==> forall n: nat :: n < |b.idToSha| ==> n in r.idToShaCache.value
  {
    var m := r.idToShaCache.value;
    forall n | n in m && n < |b.idToSha| ensures m[n] == b.idToSha[n] {
      assert r.Named(n, m[n]);
      var path :| path in r.shardOids && IsMetaPath(path) && m[n] in r.Meaning(path).ids && r.Meaning(path).ids[m[n]] == n;
      assert path in tree && tree[path] == r.Meaning(path);
      assert m[n] in tree[path].ids && b.shaToId[m[n]] == n;
    }
    if r.Complete() {
      forall n: nat | n < |b.idToSha| ensures n in m {
        var s := b.idToSha[n];
        var path := MetaPath(Prefix(s));
        PathsDiffer(Prefix(s), Prefix(s));
        assert r.CoversShard(m, path);
      }
    }
  }

  lemma BitsAreNeighbors(b: BitmapIndexBuilder, sha: string, forward: bool)
    requires b.Valid()
    ensures Select(b.idToSha, BitsAt(b, sha, forward)) == Neighbors(b.idToSha, b.edges, sha, forward)
    ensures forall i :: i in BitsAt(b, sha, forward) ==> i < |b.idToSha|
  {
    var bits := BitsAt(b, sha, forward);
    if forward {
      assert forall i: nat :: i in BitsOf(b.bitmaps, FwdKey(sha)) <==> i < |b.idToSha| && (sha, b.idToSha[i]) in b.edges;
    } else {
      assert forall i: nat :: i in BitsOf(b.bitmaps, RevKey(sha)) <==> i < |b.idToSha| && (b.idToSha[i], sha) in b.edges;
    }
    SelectIsNeighbors(b.idToSha, b.edges, sha, forward, bits);
  }

  /** What a successful query returns is right exactly when the name table knows all the neighbours. */
  lemma AnswerIsRightIff(r: BitmapIndexReader, b: BitmapIndexBuilder, tree: Tree, sha: string, forward: bool, a: seq<string>)
    requires b.Valid() && IdsStored(tree, b.shaToId) && BitsStored(tree, b.bitmaps) && Serves(r, tree) && r.NamesFaithful()
    requires var bitmaps := r.Meaning(EdgePath(sha, forward)).bitmaps;
             sha in bitmaps && bitmaps[sha].Bits? && r.idToShaCache.Some? && IsAnswer(a, bitmaps[sha].ids, r.idToShaCache.value)
    ensures a == Neighbors(b.idToSha, b.edges, sha, forward) <==> KnowsAll(r.idToShaCache.value, b.idToSha, BitsAt(b, sha, forward))
  {
    var bits := BitsAt(b, sha, forward);
    ShardHasBits(r, b, tree, sha, forward);
    BitsAreNeighbors(b, sha, forward);
    TableIsRight(r, b, tree);
    var ids :| IsArrayOf(ids, bits) && a == NamesOf(ids, r.idToShaCache.value);
    AnswerIsSelection(ids, bits, r.idToShaCache.value, b.idToSha);
  }

  lemma NoBitmapNoNeighbors(r: BitmapIndexReader, b: BitmapIndexBuilder, tree: Tree, sha: string, forward: bool)
    requires b.Valid() && BitsStored(tree, b.bitmaps) && Serves(r, tree) && sha !in r.Meaning(EdgePath(sha, forward)).bitmaps
    ensures Neighbors(b.idToSha, b.edges, sha, forward) == []
  {
    var none: seq<nat> := [];
    ShardHasBits(r, b, tree, sha, forward);
    BitsAreNeighbors(b, sha, forward);
    AnswerIsSelection(none, {}, map[], b.idToSha);
  }

  /** The index agrees with the edge set: for any cache size and any history of queries that left the name table
      whole, a query returns exactly the added edges in registration order, or the storage failed. */
  method QueryIndex(r: BitmapIndexReader, ghost b: BitmapIndexBuilder, ghost tree: Tree, sha: string, forward: bool)
    returns (a: Outcome<seq<string>>)
    requires b.Valid() && IdsStored(tree, b.shaToId) && BitsStored(tree, b.bitmaps)
    requires r.Valid() && Serves(r, tree) && r.Complete()
    modifies r`idToShaCache, r.loadedShards
    ensures r.Valid() && Serves(r, tree)
    ensures a.Done? ==> a.value == Neighbors(b.idToSha, b.edges, sha, forward) && r.Complete()
    ensures r.Healthy() ==> a.Done?
  {
    a := r.GetEdges(sha, forward);
    ShardHasBits(r, b, tree, sha, forward);
    if a.Done? {
      if sha in r.Meaning(EdgePath(sha, forward)).bitmaps {
        TableIsRight(r, b, tree);
        AnswerIsRightIff(r, b, tree, sha, forward, a.value);
      } else {
        NoBitmapNoNeighbors(r, b, tree, sha, forward);
      }
    }
  }

  /** Not whole: if the meta shards cannot be read during the first query, the empty name table is kept, and after the
      storage has recovered the same query succeeds with no neighbours at all. */
  method QueryAcrossOutage(r: BitmapIndexReader, sha: string, forward: bool) returns (first: Outcome<seq<string>>,
          second: Outcome<seq<string>>)
    requires r.Valid() && r.idToShaCache == None && r.MetaOutage()
    requires r.EdgeShardReadable(sha, forward)
    modifies r`idToShaCache, r.loadedShards, r.storage
    ensures first == LoadFailed && second == Done([])
  {
    first := r.GetEdges(sha, forward);
    r.storage.failing := {};
    second := r.GetEdges(sha, forward);
    ghost var bits := r.Meaning(EdgePath(sha, forward)).bitmaps[sha].ids;
    forall ids | IsArrayOf(ids, bits) ensures NamesOf(ids, map[]) == [] { NoNames(ids); }
  }

  lemma {:induction false} NoNames(ids: seq<nat>)
    ensures NamesOf(ids, map[]) == []
  {
    if ids != [] { NoNames(ids[..|ids| - 1]); }
  }
}
