/** Persisting a built index as blobs, loading it again, and querying what was loaded. */
module IndexRebuild {
  import opened BitmapBuilder
  import opened BitmapReader
  import opened BitmapIndex

  type Blobs = map<string, Blob>

  /** The ids of the tree's blobs have the right form, and no id stands for two contents. */
  ghost predicate Addresses(oidOf: Shard -> string, tree: Tree, blobs: Blobs) {
    && (forall path :: path in tree ==> IsValidShardOid(oidOf(tree[path])))
    && (forall p, q :: p in tree && q in tree && oidOf(tree[p]) == oidOf(tree[q]) ==> tree[p] == tree[q])
    && (forall path :: path in tree && oidOf(tree[path]) in blobs ==> blobs[oidOf(tree[path])] == Good(tree[path]))
  }

  /** `oids` leads from the paths of the tree to blobs that hold its shards. */
  ghost predicate Persisted(tree: Tree, oids: map<string, string>, blobs: Blobs) {
    && oids.Keys == tree.Keys
    && forall path :: path in tree ==> IsValidShardOid(oids[path]) && oids[path] in blobs && blobs[oids[path]] == Good(tree[path])
  }

  /** `writeBlob` of a store that names a shard `oid`; it refuses an id that is malformed or taken by something else. */
  method WriteBlob(blobs0: Blobs, oid: string, shard: Shard) returns (ok: bool, blobs: Blobs)
    ensures ok <==> IsValidShardOid(oid) && (oid in blobs0 ==> blobs0[oid] == Good(shard))
    ensures blobs == if ok then blobs0[oid := Good(shard)] else blobs0
  {
    ok := IsValidShardOid(oid) && (oid !in blobs0 || blobs0[oid] == Good(shard));
    blobs := if ok then blobs0[oid := Good(shard)] else blobs0;
  }

  ghost predicate WrittenAt(tree: Tree, oids: map<string, string>, blobs: Blobs, path: string) {
    path in tree && path in oids && IsValidShardOid(oids[path]) && oids[path] in blobs && blobs[oids[path]] == Good(tree[path])
  }

  /** The blobs of all paths but `rest` have been written. */
  ghost predicate Written(tree: Tree, rest: set<string>, oids: map<string, string>, blobs: Blobs) {
    && rest <= tree.Keys && oids.Keys == tree.Keys - rest
    && forall path :: path in oids ==> WrittenAt(tree, oids, blobs, path)
  }

  lemma OneMoreWritten(tree: Tree, rest: set<string>, oids: map<string, string>, blobs: Blobs, path: string, oid: string)
    requires Written(tree, rest, oids, blobs) && path in rest
    requires IsValidShardOid(oid) && (oid in blobs ==> blobs[oid] == Good(tree[path]))
    ensures Written(tree, rest - {path}, oids[path := oid], blobs[oid := Good(tree[path])])
  {
    var more, after := oids[path := oid], blobs[oid := Good(tree[path])];
    forall p | p in more
      ensures WrittenAt(tree, more, after, p)
    {
      assert p == path || WrittenAt(tree, oids, blobs, p);
    }
  }

  lemma AddressesStay(oidOf: Shard -> string, tree: Tree, blobs: Blobs, path: string)
    requires Addresses(oidOf, tree, blobs) && path in tree
    ensures Addresses(oidOf, tree, blobs[oidOf(tree[path]) := Good(tree[path])])
  {
  }

  /** `_persistIndex`: one blob for each shard, named by its content. */
  method PersistIndex(tree: Tree, blobs0: Blobs, oidOf: Shard -> string) returns (ok: bool, oids: map<string, string>, blobs: Blobs)
    ensures ok ==> Persisted(tree, oids, blobs)
    ensures Addresses(oidOf, tree, blobs0) ==> ok
    ensures forall oid :: oid in blobs0 ==> oid in blobs && blobs[oid] == blobs0[oid]
  {
    oids, blobs := map[], blobs0;
    var rest := tree.Keys;
    while rest != {}
      invariant Written(tree, rest, oids, blobs)
      invariant forall oid :: oid in blobs0 ==> oid in blobs && blobs[oid] == blobs0[oid]
      invariant Addresses(oidOf, tree, blobs0) ==> Addresses(oidOf, tree, blobs)
      decreases |rest|
    {
      var path :| path in rest;
      var oid := oidOf(tree[path]);
      ghost var before := blobs;
      ok, blobs := WriteBlob(blobs, oid, tree[path]);
      if !ok {
        return;
      }
      OneMoreWritten(tree, rest, oids, before, path, oid);
      if Addresses(oidOf, tree, blobs0) { AddressesStay(oidOf, tree, before, path); }
      oids := oids[path := oid];
      rest := rest - {path};
    }
    ok := true;
    forall path | path in tree
      ensures IsValidShardOid(oids[path]) && oids[path] in blobs && blobs[oids[path]] == Good(tree[path])
    {
      assert WrittenAt(tree, oids, blobs, path);
    }
  }

  /** `load`: a new reader over the stored blobs. */
  method Load(storage: Storage, oids: map<string, string>, strict: bool, maxCachedShards: nat, ghost tree: Tree)
    returns (r: BitmapIndexReader)
    requires maxCachedShards >= 1 && Persisted(tree, oids, storage.blobs)
    ensures fresh(r) && fresh(r.loadedShards) && r.Valid() && r.storage == storage
    ensures Serves(r, tree) && r.Complete()
    ensures AllDecodable(tree) && storage.failing == {} ==> r.Healthy()
  {
    r := new BitmapIndexReader(storage, strict, maxCachedShards);
    var ok := r.Setup(oids);
    assert r.shardOids == oids;
    if AllDecodable(tree) && storage.failing == {} {
      forall path | path in r.shardOids ensures r.Clean(path) { CleanShard(r, tree, path); }
    }
  }

  lemma CleanShard(r: BitmapIndexReader, tree: Tree, path: string)
    requires Serves(r, tree) && AllDecodable(tree) && path in r.shardOids
    ensures r.Clean(path)
  {
    assert ShardIn(tree, path) == r.Meaning(path);
    forall s | s in r.Meaning(path).bitmaps ensures r.Meaning(path).bitmaps[s].Bits? {
      assert s in ShardIn(tree, path).bitmaps;
    }
  }

  datatype Query = Query(sha: string, forward: bool)

  ghost function RightAnswer(b: BitmapIndexBuilder, q: Query): seq<string>
    reads b
  {
    Neighbors(b.idToSha, b.edges, q.sha, q.forward)
  }

  ghost predicate IsRight(b: BitmapIndexBuilder, q: Query, answer: seq<string>)
    reads b
  {
    answer == RightAnswer(b, q)
  }

  ghost predicate AllRight(b: BitmapIndexBuilder, queries: seq<Query>, answers: seq<seq<string>>)
    reads b
  {
    |answers| == |queries| && forall i {:trigger IsRight(b, queries[i], answers[i])} :: 0 <= i < |queries| ==> IsRight(b, queries[i], answers[i])
  }

  lemma OneMoreRight(b: BitmapIndexBuilder, queries: seq<Query>, answers: seq<seq<string>>, q: Query, answer: seq<string>)
    requires AllRight(b, queries, answers) && IsRight(b, q, answer)
    ensures AllRight(b, queries + [q], answers + [answer])
  {
    var qs, rs := queries + [q], answers + [answer];
    forall i | 0 <= i < |qs|
      ensures IsRight(b, qs[i], rs[i])
    {
      assert i < |queries| ==> IsRight(b, queries[i], answers[i]);
    }
  }

  /** The reader is in a state to answer for the builder. */
  ghost predicate Ready(r: BitmapIndexReader, b: BitmapIndexBuilder, tree: Tree)
    reads r, r.loadedShards, r.storage, b
  {
    && b.Valid() && IdsStored(tree, b.shaToId) && BitsStored(tree, b.bitmaps)
    && r.Valid() && Serves(r, tree) && r.Complete() && r.Healthy()
  }

  method Answer(r: BitmapIndexReader, ghost b: BitmapIndexBuilder, ghost tree: Tree, q: Query) returns (answer: seq<string>)
    requires Ready(r, b, tree)
    modifies r`idToShaCache, r.loadedShards
    ensures Ready(r, b, tree) && IsRight(b, q, answer)
  {
    var a := QueryIndex(r, b, tree, q.sha, q.forward);
    answer := a.value;
  }

  /** A loaded index answers any sequence of queries. */
  method AnswerAll(r: BitmapIndexReader, ghost b: BitmapIndexBuilder, ghost tree: Tree, queries: seq<Query>)
    returns (answers: seq<seq<string>>)
    requires Ready(r, b, tree)
    modifies r`idToShaCache, r.loadedShards
    ensures AllRight(b, queries, answers)
  {
    answers := [];
    for n := 0 to |queries|
      invariant Ready(r, b, tree)
      invariant AllRight(b, queries[..n], answers)
    {
      var a := Answer(r, b, tree, queries[n]);
      OneMoreRight(b, queries[..n], answers, queries[n], a);
      assert queries[..n] + [queries[n]] == queries[..n + 1];
      answers := answers + [a];
    }
    assert queries[..|queries|] == queries;
  }

  /** Everything together: an index that is built, serialised, stored and loaded answers any sequence of queries,
      through a shard cache of any size and in either mode, with exactly the edges that were added; only the
      storing can fail, and it does not when ids stand for contents. */
  method BuildAndQuery(b: BitmapIndexBuilder, blobs0: Blobs, oidOf: Shard -> string, strict: bool, maxCachedShards: nat,
          queries: seq<Query>) returns (tree: Tree, r: Outcome<seq<seq<string>>>)
    requires b.Valid() && maxCachedShards >= 1
    ensures IdsStored(tree, b.shaToId) && BitsStored(tree, b.bitmaps)
    ensures r.Done? ==> AllRight(b, queries, r.value)
    ensures Addresses(oidOf, tree, blobs0) ==> r.Done?
  {
    tree := b.Serialize();
    var ok, oids, blobs := PersistIndex(tree, blobs0, oidOf);
    if !ok {
      return tree, LoadFailed;
    }
    var storage := new Storage(blobs);
    var reader := Load(storage, oids, strict, maxCachedShards, tree);
    var answers := AnswerAll(reader, b, tree, queries);
    r := Done(answers);
  }
}
