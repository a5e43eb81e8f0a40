/** Building the sharded bitmap index. */
module BitmapBuilder {

  // ---------------------------------------------------------------- names

  function FwdKey(sha: string): string { "fwd_" + sha }

  function RevKey(sha: string): string { "rev_" + sha }

  /** `sha.substring(0, 2)` */
  function Prefix(sha: string): string {
    if |sha| < 2 then sha else sha[..2]
  }

  function MetaPath(prefix: string): string { "meta_" + prefix + ".json" }

  function FwdPath(prefix: string): string { "shards_fwd_" + prefix + ".json" }

  function RevPath(prefix: string): string { "shards_rev_" + prefix + ".json" }

  predicate StartsWith(s: string, t: string) {
    |t| <= |s| && s[..|t|] == t
  }

  predicate EndsWith(s: string, t: string) {
    |t| <= |s| && s[|s| - |t|..] == t
  }

  predicate IsMetaPath(path: string) {
    StartsWith(path, "meta_") && EndsWith(path, ".json")
  }

  lemma Framed(a: string, p: string, z: string)
    ensures (a + p + z)[..|a|] == a && (a + p + z)[|a| + |p|..] == z && (a + p + z)[|a|..|a| + |p|] == p
  {
  }

  /** Paths of different kinds or prefixes differ, and exactly the id shards look like meta paths. */
  lemma PathsDiffer(p: string, q: string)
    ensures MetaPath(p) == MetaPath(q) ==> p == q
    ensures FwdPath(p) == FwdPath(q) ==> p == q
    ensures RevPath(p) == RevPath(q) ==> p == q
    ensures MetaPath(p) != FwdPath(q) && MetaPath(p) != RevPath(q) && FwdPath(p) != RevPath(q)
    ensures IsMetaPath(MetaPath(p)) && !IsMetaPath(FwdPath(p)) && !IsMetaPath(RevPath(p))
  {
    Framed("meta_", p, ".json");
    Framed("meta_", q, ".json");
    Framed("shards_fwd_", p, ".json");
    Framed("shards_fwd_", q, ".json");
    Framed("shards_rev_", p, ".json");
    Framed("shards_rev_", q, ".json");
    assert MetaPath(p)[0] == 'm' && FwdPath(p)[0] == FwdPath(q)[0] == RevPath(p)[0] == RevPath(q)[0] == 's';
    assert FwdPath(p)[7] == 'f' && RevPath(q)[7] == 'r';
    assert |MetaPath(p)| == |p| + 10 && |FwdPath(p)| == |p| + 16 && |RevPath(p)| == |p| + 16;
  }

  lemma KeysDiffer(s: string, t: string)
    ensures FwdKey(s) == FwdKey(t) ==> s == t
    ensures RevKey(s) == RevKey(t) ==> s == t
    ensures FwdKey(s) != RevKey(t)
    ensures FwdKey(s)[..3] == "fwd" && RevKey(s)[..3] == "rev" && FwdKey(s)[4..] == s && RevKey(s)[4..] == s
  {
    assert FwdKey(s)[4..] == s && FwdKey(t)[4..] == t && RevKey(s)[4..] == s && RevKey(t)[4..] == t;
    assert FwdKey(s)[0] == 'f' && RevKey(t)[0] == 'r';
  }

  // ---------------------------------------------------------------- the builder

  type Bitmaps = map<string, set<nat>>

  function BitsOf(m: Bitmaps, key: string): set<nat> {
    if key in m then m[key] else {}
  }

  ghost predicate Registered(shaToId: map<string, nat>, idToSha: seq<string>) {
    && (forall i :: 0 <= i < |idToSha| ==> idToSha[i] in shaToId && shaToId[idToSha[i]] == i)
    && (forall s :: s in shaToId ==> shaToId[s] < |idToSha| && idToSha[shaToId[s]] == s)
  }

  ghost predicate FwdBits(m: Bitmaps, idToSha: seq<string>, edges: set<(string, string)>) {
    forall s, i: nat {:trigger i in BitsOf(m, FwdKey(s))} :: i in BitsOf(m, FwdKey(s)) <==> i < |idToSha| && (s, idToSha[i]) in edges
  }

  ghost predicate RevBits(m: Bitmaps, idToSha: seq<string>, edges: set<(string, string)>) {
    forall s, i: nat {:trigger i in BitsOf(m, RevKey(s))} :: i in BitsOf(m, RevKey(s)) <==> i < |idToSha| && (idToSha[i], s) in edges
  }

  ghost predicate EdgesRegistered(shaToId: map<string, nat>, edges: set<(string, string)>) {
    forall s, t {:trigger (s, t) in edges} :: (s, t) in edges ==> s in shaToId && t in shaToId
  }

  ghost predicate KnownKeys(m: Bitmaps) {
    forall k :: k in m ==> |k| >= 4 && (k == FwdKey(k[4..]) || k == RevKey(k[4..]))
  }

  /** One shard of the serialised index: a JSON object whose numbers are ids and whose strings are encoded bitmaps. */
  datatype Shard = Shard(ids: map<string, nat>, bitmaps: map<string, Encoded>)

  datatype Encoded = Bits(ids: set<nat>) | Garbage

  const EMPTY := Shard(map[], map[])

  type Tree = map<string, Shard>

  function ShardIn(tree: Tree, path: string): Shard {
    if path in tree then tree[path] else EMPTY
  }

  function EncodedBits(e: Shard, sha: string): set<nat> {
    if sha in e.bitmaps && e.bitmaps[sha].Bits? then e.bitmaps[sha].ids else {}
  }

  /** The meta shards hold exactly the registered ids, each under the prefix of its sha. */
  ghost predicate IdsStored(tree: Tree, shaToId: map<string, nat>) {
    && (forall s :: s in shaToId ==> MetaPath(Prefix(s)) in tree && s in tree[MetaPath(Prefix(s))].ids)
    && (forall path, s :: path in tree && s in tree[path].ids ==>
          path == MetaPath(Prefix(s)) && s in shaToId && tree[path].ids[s] == shaToId[s])
  }

  ghost predicate FwdAt(tree: Tree, m: Bitmaps, s: string) {
    EncodedBits(ShardIn(tree, FwdPath(Prefix(s))), s) == BitsOf(m, FwdKey(s))
  }

  ghost predicate RevAt(tree: Tree, m: Bitmaps, s: string) {
    EncodedBits(ShardIn(tree, RevPath(Prefix(s))), s) == BitsOf(m, RevKey(s))
  }

  ghost predicate AllDecodable(tree: Tree) {
    forall path, s {:trigger s in ShardIn(tree, path).bitmaps} :: s in ShardIn(tree, path).bitmaps ==> ShardIn(tree, path).bitmaps[s].Bits?
  }

  /** The bitmap shards hold exactly the bitmaps, and nothing undecodable. */
  ghost predicate BitsStored(tree: Tree, m: Bitmaps) {
    (forall s :: FwdAt(tree, m, s)) && (forall s :: RevAt(tree, m, s)) && AllDecodable(tree)
  }

  class BitmapIndexBuilder {
    var shaToId: map<string, nat>
    var idToSha: seq<string>
    var bitmaps: Bitmaps

    /** The edges added so far. */
    ghost var edges: set<(string, string)>

    ghost predicate Valid()
      reads this
    {
      && Registered(shaToId, idToSha) && EdgesRegistered(shaToId, edges) && KnownKeys(bitmaps)
      && FwdBits(bitmaps, idToSha, edges) && RevBits(bitmaps, idToSha, edges)
    }

    constructor ()
      ensures Valid() && idToSha == [] && edges == {}
    {
      shaToId, idToSha, bitmaps, edges := map[], [], map[], {};
    }

    /** `_getOrCreateId`, also `registerNode`: a new sha gets the next id. */
    method RegisterNode(sha: string) returns (id: nat)
      requires Valid()
      modifies this
      ensures Valid() && edges == old(edges) && bitmaps == old(bitmaps)
      ensures idToSha == if sha in old(shaToId) then old(idToSha) else old(idToSha) + [sha]
      ensures shaToId == if sha in old(shaToId) then old(shaToId) else old(shaToId)[sha := |old(idToSha)|]
      ensures id < |idToSha| && idToSha[id] == sha
    {
      if sha in shaToId {
        return shaToId[sha];
      }
      id := |idToSha|;
      idToSha := idToSha + [sha];
      shaToId := shaToId[sha := id];
      NewIdHasNoBits(old(shaToId), old(idToSha), idToSha, bitmaps, edges, sha);
    }

    method RegisterBoth(srcSha: string, tgtSha: string) returns (srcId: nat, tgtId: nat)
      requires Valid()
      modifies this
      ensures Valid() && edges == old(edges) && bitmaps == old(bitmaps) && old(idToSha) <= idToSha
      ensures forall s :: s in shaToId <==> s in old(shaToId) || s == srcSha || s == tgtSha
      ensures srcId < |idToSha| && idToSha[srcId] == srcSha && tgtId < |idToSha| && idToSha[tgtId] == tgtSha
    {
      srcId := RegisterNode(srcSha);
      tgtId := RegisterNode(tgtSha);
    }

    /** `addEdge` */
    method AddEdge(srcSha: string, tgtSha: string)
      requires Valid()
      modifies this
      ensures Valid() && edges == old(edges) + {(srcSha, tgtSha)}
      ensures old(idToSha) <= idToSha
      ensures forall s :: s in shaToId <==> s in old(shaToId) || s == srcSha || s == tgtSha
    {
      var srcId, tgtId := RegisterBoth(srcSha, tgtSha);
      BitsAdded(bitmaps, idToSha, shaToId, edges, srcSha, tgtSha, srcId, tgtId);
      AddToBitmap(FwdKey(srcSha), tgtId);
      AddToBitmap(RevKey(tgtSha), srcId);
      edges := edges + {(srcSha, tgtSha)};
    }

    /** `serialize`: ids and bitmaps spread over shards by the first two characters of the sha. */
    method Serialize() returns (tree: Tree)
      requires Valid()
      ensures IdsStored(tree, shaToId) && BitsStored(tree, bitmaps)
    {
      tree := SerializeIds(shaToId);
      tree := SerializeBitmaps(tree, shaToId, bitmaps);
    }

    /** `_addToBitmap` */
    method AddToBitmap(key: string, id: nat)
      modifies `bitmaps
      ensures bitmaps == WithBit(old(bitmaps), key, id)
    {
      if key !in bitmaps {
        bitmaps := bitmaps[key := {}];
      }
      bitmaps := bitmaps[key := bitmaps[key] + {id}];
    }
  }

  function WithBit(m: Bitmaps, key: string, id: nat): Bitmaps {
    m[key := BitsOf(m, key) + {id}]
  }

  lemma NewIdHasNoBits(shaToId: map<string, nat>, before: seq<string>, after: seq<string>, m: Bitmaps,
          edges: set<(string, string)>, sha: string)
    requires after == before + [sha] && sha !in shaToId && EdgesRegistered(shaToId, edges)
    requires FwdBits(m, before, edges) && RevBits(m, before, edges)
    ensures FwdBits(m, after, edges) && RevBits(m, after, edges)
  {
    forall s, i: nat ensures i in BitsOf(m, FwdKey(s)) <==> i < |after| && (s, after[i]) in edges {
      assert i in BitsOf(m, FwdKey(s)) <==> i < |before| && (s, before[i]) in edges;
    }
    forall s, i: nat ensures i in BitsOf(m, RevKey(s)) <==> i < |after| && (after[i], s) in edges {
      assert i in BitsOf(m, RevKey(s)) <==> i < |before| && (before[i], s) in edges;
    }
  }

  lemma FwdAdded(m: Bitmaps, idToSha: seq<string>, edges: set<(string, string)>, src: string, tgt: string, tgtId: nat)
    requires FwdBits(m, idToSha, edges) && tgtId < |idToSha|
    requires forall i: nat :: i < |idToSha| ==> (idToSha[i] == tgt <==> i == tgtId)
    ensures FwdBits(WithBit(m, FwdKey(src), tgtId), idToSha, edges + {(src, tgt)})
  {
    var n, more := WithBit(m, FwdKey(src), tgtId), edges + {(src, tgt)};
    forall s, i: nat ensures i in BitsOf(n, FwdKey(s)) <==> i < |idToSha| && (s, idToSha[i]) in more {
      KeysDiffer(s, src);
      assert i in BitsOf(m, FwdKey(s)) <==> i < |idToSha| && (s, idToSha[i]) in edges;
    }
  }

  lemma RevAdded(m: Bitmaps, idToSha: seq<string>, edges: set<(string, string)>, src: string, tgt: string, srcId: nat)
    requires RevBits(m, idToSha, edges) && srcId < |idToSha|
    requires forall i: nat :: i < |idToSha| ==> (idToSha[i] == src <==> i == srcId)
    ensures RevBits(WithBit(m, RevKey(tgt), srcId), idToSha, edges + {(src, tgt)})
  {
    var n, more := WithBit(m, RevKey(tgt), srcId), edges + {(src, tgt)};
    forall s, i: nat ensures i in BitsOf(n, RevKey(s)) <==> i < |idToSha| && (idToSha[i], s) in more {
      KeysDiffer(s, tgt);
      assert i in BitsOf(m, RevKey(s)) <==> i < |idToSha| && (idToSha[i], s) in edges;
    }
  }

  /** A forward bit leaves the reverse bitmaps alone, and the other way round. */
  lemma BitElsewhere(m: Bitmaps, idToSha: seq<string>, edges: set<(string, string)>, sha: string, id: nat)
    ensures RevBits(m, idToSha, edges) ==> RevBits(WithBit(m, FwdKey(sha), id), idToSha, edges)
    ensures FwdBits(m, idToSha, edges) ==> FwdBits(WithBit(m, RevKey(sha), id), idToSha, edges)
    ensures KnownKeys(m) ==> KnownKeys(WithBit(m, FwdKey(sha), id)) && KnownKeys(WithBit(m, RevKey(sha), id))
  {
    KeysDiffer(sha, sha);
    forall s, i: nat ensures i in BitsOf(WithBit(m, FwdKey(sha), id), RevKey(s)) <==> i in BitsOf(m, RevKey(s)) { KeysDiffer(sha, s); }
    forall s, i: nat ensures i in BitsOf(WithBit(m, RevKey(sha), id), FwdKey(s)) <==> i in BitsOf(m, FwdKey(s)) { KeysDiffer(s, sha); }
  }

  lemma BitsAdded(m: Bitmaps, idToSha: seq<string>, shaToId: map<string, nat>, edges: set<(string, string)>,
          src: string, tgt: string, srcId: nat, tgtId: nat)
    requires Registered(shaToId, idToSha) && KnownKeys(m) && FwdBits(m, idToSha, edges) && RevBits(m, idToSha, edges)
    requires srcId < |idToSha| && idToSha[srcId] == src && tgtId < |idToSha| && idToSha[tgtId] == tgt
    ensures var n, more := WithBit(WithBit(m, FwdKey(src), tgtId), RevKey(tgt), srcId), edges + {(src, tgt)};
            KnownKeys(n) && FwdBits(n, idToSha, more) && RevBits(n, idToSha, more)
  {
    var f, more := WithBit(m, FwdKey(src), tgtId), edges + {(src, tgt)};
    BitElsewhere(m, idToSha, edges, src, tgtId);
    FwdAdded(m, idToSha, edges, src, tgt, tgtId);
    BitElsewhere(f, idToSha, more, tgt, srcId);
    RevAdded(f, idToSha, edges, src, tgt, srcId);
  }

  // ---------------------------------------------------------------- serialisation

  function PutId(tree: Tree, path: string, sha: string, id: nat): Tree {
    var shard := ShardIn(tree, path);
    tree[path := shard.(ids := shard.ids[sha := id])]
  }

  function PutBits(tree: Tree, path: string, sha: string, ids: set<nat>): Tree {
    var shard := ShardIn(tree, path);
    tree[path := shard.(bitmaps := shard.bitmaps[sha := Bits(ids)])]
  }

  lemma PutIdStores(tree: Tree, stored: map<string, nat>, sha: string, id: nat)
    requires IdsStored(tree, stored) && sha !in stored
    ensures IdsStored(PutId(tree, MetaPath(Prefix(sha)), sha, id), stored[sha := id])
  {
    var path := MetaPath(Prefix(sha));
    var t := PutId(tree, path, sha, id);
    forall q, s | q in t && s in t[q].ids
      ensures q == MetaPath(Prefix(s)) && s in stored[sha := id] && t[q].ids[s] == stored[sha := id][s]
    {
      assert q != path || s != sha ==> q in tree && s in tree[q].ids;
    }
  }

  lemma PutIdKeepsBits(tree: Tree, path: string, sha: string, id: nat)
    requires BitsStored(tree, map[])
    ensures BitsStored(PutId(tree, path, sha, id), map[])
  {
    var t := PutId(tree, path, sha, id);
    forall p ensures ShardIn(t, p).bitmaps == ShardIn(tree, p).bitmaps {}
    forall s ensures FwdAt(t, map[], s) { assert FwdAt(tree, map[], s); }
    forall s ensures RevAt(t, map[], s) { assert RevAt(tree, map[], s); }
  }

  /** The first loops of `serialize`. */
  method SerializeIds(shaToId: map<string, nat>) returns (tree: Tree)
    ensures IdsStored(tree, shaToId) && BitsStored(tree, map[])
  {
    tree := map[];
    var rest := shaToId.Keys;
    AllOrNothing(shaToId);
    assert BitsStored(tree, map[]) by {
      forall s ensures FwdAt(tree, map[], s) && RevAt(tree, map[], s) {}
    }
    while rest != {}
      invariant rest <= shaToId.Keys && IdsStored(tree, shaToId - rest) && BitsStored(tree, map[])
      decreases |rest|
    {
      var sha :| sha in rest;
      OneMoreKey(shaToId, rest, sha);
      PutIdStores(tree, shaToId - rest, sha, shaToId[sha]);
      PutIdKeepsBits(tree, MetaPath(Prefix(sha)), sha, shaToId[sha]);
      tree := PutId(tree, MetaPath(Prefix(sha)), sha, shaToId[sha]);
      rest := rest - {sha};
    }
  }

  lemma AllOrNothing<V>(m: map<string, V>)
    ensures m - m.Keys == map[] && m - {} == m
  {
  }

  lemma OneMoreKey<V>(m: map<string, V>, rest: set<string>, k: string)
    requires k in rest && k in m
    ensures k !in m - rest && (m - rest)[k := m[k]] == m - (rest - {k})
  {
  }

  function PathOf(key: string): string
    requires |key| >= 4
  {
    if key[..3] == "fwd" then FwdPath(Prefix(key[4..])) else RevPath(Prefix(key[4..]))
  }

  lemma PutBitsKeepsIds(tree: Tree, shaToId: map<string, nat>, path: string, sha: string, ids: set<nat>)
    requires IdsStored(tree, shaToId)
    ensures IdsStored(PutBits(tree, path, sha, ids), shaToId)
  {
    var t := PutBits(tree, path, sha, ids);
    forall p ensures ShardIn(t, p).ids == ShardIn(tree, p).ids {}
    forall q, s | q in t && s in t[q].ids ensures q == MetaPath(Prefix(s)) && s in shaToId && t[q].ids[s] == shaToId[s] {
      assert s in ShardIn(tree, q).ids;
    }
  }

  lemma PutBitsStores(tree: Tree, m: Bitmaps, key: string, ids: set<nat>)
    requires BitsStored(tree, m) && |key| >= 4 && (key == FwdKey(key[4..]) || key == RevKey(key[4..]))
    ensures BitsStored(PutBits(tree, PathOf(key), key[4..], ids), m[key := ids])
  {
    var t, n := PutBits(tree, PathOf(key), key[4..], ids), m[key := ids];
    forall s ensures FwdAt(t, n, s) { PutBitsFwd(tree, m, key, ids, s); }
    forall s ensures RevAt(t, n, s) { PutBitsRev(tree, m, key, ids, s); }
    PutBitsDecodes(tree, PathOf(key), key[4..], ids);
  }

  lemma PutBitsDecodes(tree: Tree, path: string, sha: string, ids: set<nat>)
    requires AllDecodable(tree)
    ensures AllDecodable(PutBits(tree, path, sha, ids))
  {
    var t := PutBits(tree, path, sha, ids);
    forall q, s | s in ShardIn(t, q).bitmaps ensures ShardIn(t, q).bitmaps[s].Bits? {
      assert s in ShardIn(tree, q).bitmaps || (q == path && s == sha);
    }
  }

  lemma PutBitsFwd(tree: Tree, m: Bitmaps, key: string, ids: set<nat>, s: string)
    requires BitsStored(tree, m) && |key| >= 4 && (key == FwdKey(key[4..]) || key == RevKey(key[4..]))
    ensures FwdAt(PutBits(tree, PathOf(key), key[4..], ids), m[key := ids], s)
  {
    var sha := key[4..];
    PathsDiffer(Prefix(s), Prefix(sha));
    KeysDiffer(sha, sha);
    KeysDiffer(s, sha);
    assert FwdAt(tree, m, s);
  }

  lemma PutBitsRev(tree: Tree, m: Bitmaps, key: string, ids: set<nat>, s: string)
    requires BitsStored(tree, m) && |key| >= 4 && (key == FwdKey(key[4..]) || key == RevKey(key[4..]))
    ensures RevAt(PutBits(tree, PathOf(key), key[4..], ids), m[key := ids], s)
  {
    var sha := key[4..];
    PathsDiffer(Prefix(sha), Prefix(s));
    KeysDiffer(sha, sha);
    KeysDiffer(sha, s);
    assert RevAt(tree, m, s);
  }

  /** The second loops of `serialize`. */
  method SerializeBitmaps(tree0: Tree, ghost shaToId: map<string, nat>, bitmaps: Bitmaps) returns (tree: Tree)
    requires IdsStored(tree0, shaToId) && BitsStored(tree0, map[]) && KnownKeys(bitmaps)
    ensures IdsStored(tree, shaToId) && BitsStored(tree, bitmaps)
  {
    tree := tree0;
    var keys := bitmaps.Keys;
    AllOrNothing(bitmaps);
    while keys != {}
      invariant keys <= bitmaps.Keys && IdsStored(tree, shaToId) && BitsStored(tree, bitmaps - keys)
      decreases |keys|
    {
      var key :| key in keys;
      OneMoreKey(bitmaps, keys, key);
      PutBitsStores(tree, bitmaps - keys, key, bitmaps[key]);
      PutBitsKeepsIds(tree, shaToId, PathOf(key), key[4..], bitmaps[key]);
      tree := PutBits(tree, PathOf(key), key[4..], bitmaps[key]);
      keys := keys - {key};
    }
  }
}
