/** Querying the sharded bitmap index through a shard cache. */
module BitmapReader {
  import opened Graphs
  import opened LruCaches
  import opened BitmapBuilder

  /** A stored shard after decoding and validation. */
  datatype Blob = Good(shard: Shard) | Corrupt

  /** Content-addressed blobs; `failing` is what the storage cannot deliver at the moment. */
  class Storage {
    const blobs: map<string, Blob>
    var failing: set<string>

    constructor (blobs: map<string, Blob>)
      ensures this.blobs == blobs && failing == {}
    {
      this.blobs, failing := blobs, {};
    }

    method ReadBlob(oid: string) returns (r: Option<Blob>)
      ensures r == if oid in blobs && oid !in failing then Some(blobs[oid]) else None
    {
      r := if oid in blobs && oid !in failing then Some(blobs[oid]) else None;
    }
  }

  datatype Outcome<T> = Done(value: T) | LoadFailed | Invalid

  predicate IsHexDigit(c: char) {
    '0' <= c <= '9' || 'a' <= c <= 'f' || 'A' <= c <= 'F'
  }

  /** `isValidShardOid` */
  predicate IsValidShardOid(oid: string) {
    4 <= |oid| <= 64 && forall i :: 0 <= i < |oid| ==> IsHexDigit(oid[i])
  }

  type Names = map<nat, string>

  // ---------------------------------------------------------------- ids to names

  ghost predicate IsArrayOf(ids: seq<nat>, bits: set<nat>) {
    && (forall i, j :: 0 <= i < j < |ids| ==> ids[i] < ids[j])
    && (forall n :: n in ids <==> n in bits)
  }

  /** `ids.map(id => idToSha[id]).filter(Boolean)`: unknown ids and the empty name are dropped. */
  function NamesOf(ids: seq<nat>, m: Names): seq<string> {
    if ids == [] then [] else
      var n := ids[|ids| - 1];
      NamesOf(ids[..|ids| - 1], m) + if n in m && m[n] != "" then [m[n]] else []
  }

  ghost predicate IsAnswer(r: seq<string>, bits: set<nat>, m: Names) {
    exists ids :: IsArrayOf(ids, bits) && r == NamesOf(ids, m)
  }

  /** The names registered under the ids of `bits`, in registration order. */
  ghost function Select(reg: seq<string>, bits: set<nat>): seq<string> {
    if reg == [] then [] else
      var n := |reg| - 1;
      Select(reg[..n], bits) + if n in bits && reg[n] != "" then [reg[n]] else []
  }

  /** `m` says nothing wrong about the registered names. */
  ghost predicate NamesSound(m: Names, reg: seq<string>) {
    forall n :: n in m && n < |reg| ==> m[n] == reg[n]
  }

  /** All named members of `bits` are in the table. */
  ghost predicate KnowsAll(m: Names, reg: seq<string>, bits: set<nat>) {
    forall n :: n in bits && n < |reg| && reg[n] != "" ==> n in m
  }

  lemma KnowsOneMore(m: Names, reg: seq<string>, bits: set<nat>, n: nat)
    requires n + 1 == |reg| && forall x :: x in bits ==> x <= n
    ensures n in bits ==> (KnowsAll(m, reg, bits) <==> KnowsAll(m, reg[..n], bits - {n}) && (reg[n] == "" || n in m))
    ensures n !in bits ==> (KnowsAll(m, reg, bits) <==> KnowsAll(m, reg[..n], bits))
  {
    assert forall x: nat :: x < n ==> reg[..n][x] == reg[x];
  }

  /** How an answer compares with the selection. */
  ghost predicate Compares(a: seq<string>, s: seq<string>, all: bool) {
    |a| <= |s| && (a == s <==> all) && (!all ==> |a| < |s|)
  }

  lemma ComparesAppend(a: seq<string>, s: seq<string>, all: bool, x: string, known: bool)
    requires Compares(a, s, all) && x != ""
    ensures Compares(a + if known then [x] else [], s + [x], all && known)
  {
    if known && a + [x] == s + [x] {
      assert (a + [x])[..|a|] == (s + [x])[..|a|];
      assert a == s;
    }
  }

  /** One more registered name, whose id is the last of the answer. */
  lemma AnswerStep(ids: seq<nat>, bits: set<nat>, m: Names, reg: seq<string>, all: bool)
    requires reg != [] && ids != [] && ids[|ids| - 1] == |reg| - 1 && |reg| - 1 in bits
    requires |reg| - 1 in m ==> m[|reg| - 1] == reg[|reg| - 1]
    requires Compares(NamesOf(ids[..|ids| - 1], m), Select(reg[..|reg| - 1], bits), all)
    ensures Compares(NamesOf(ids, m), Select(reg, bits), all && (reg[|reg| - 1] == "" || |reg| - 1 in m))
  {
    var n := |reg| - 1;
    var a, s := NamesOf(ids[..|ids| - 1], m), Select(reg[..n], bits);
    if reg[n] != "" {
      ComparesAppend(a, s, all, reg[n], n in m);
    } else {
      assert a + [] == a && s + [] == s;
    }
  }

  lemma AnswerWith(ids: seq<nat>, bits: set<nat>, m: Names, reg: seq<string>)
    requires reg != [] && ids != [] && ids[|ids| - 1] == |reg| - 1 && |reg| - 1 in bits && NamesSound(m, reg) && InRange(bits, reg)
    requires Compares(NamesOf(ids[..|ids| - 1], m), Select(reg[..|reg| - 1], bits - {|reg| - 1}), KnowsAll(m, reg[..|reg| - 1], bits - {|reg| - 1}))
    ensures Compares(NamesOf(ids, m), Select(reg, bits), KnowsAll(m, reg, bits))
  {
    var n := |reg| - 1;
    KnowsOneMore(m, reg, bits, n);
    SelectIgnores(reg[..n], bits, n);
    AnswerStep(ids, bits, m, reg, KnowsAll(m, reg[..n], bits - {n}));
  }

  lemma AnswerWithout(ids: seq<nat>, bits: set<nat>, m: Names, reg: seq<string>)
    requires reg != [] && |reg| - 1 !in bits && InRange(bits, reg)
    requires Compares(NamesOf(ids, m), Select(reg[..|reg| - 1], bits), KnowsAll(m, reg[..|reg| - 1], bits))
    ensures Compares(NamesOf(ids, m), Select(reg, bits), KnowsAll(m, reg, bits))
  {
    KnowsOneMore(m, reg, bits, |reg| - 1);
  }

  ghost predicate InRange(bits: set<nat>, reg: seq<string>) {
    forall n :: n in bits ==> n < |reg|
  }

  /** An answer from a sound table is never longer than the selection, and equal to it exactly when the table knows
      every named member. */
  lemma {:induction false} AnswerIsSelection(ids: seq<nat>, bits: set<nat>, m: Names, reg: seq<string>)
    requires IsArrayOf(ids, bits) && NamesSound(m, reg) && InRange(bits, reg)
    ensures Compares(NamesOf(ids, m), Select(reg, bits), KnowsAll(m, reg, bits))
    decreases |reg|
  {
    if reg == [] {
      if ids != [] { FirstIsMember(ids, bits); }
    } else if |reg| - 1 in bits {
      var n := |reg| - 1;
      LastIsGreatest(ids, bits, n);
      Truncated(ids, bits);
      AnswerIsSelection(ids[..|ids| - 1], bits - {n}, m, reg[..n]);
      AnswerWith(ids, bits, m, reg);
    } else {
      AnswerIsSelection(ids, bits, m, reg[..|reg| - 1]);
      AnswerWithout(ids, bits, m, reg);
    }
  }

  lemma LastIsGreatest(ids: seq<nat>, bits: set<nat>, n: nat)
    requires IsArrayOf(ids, bits) && n in bits && forall x :: x in bits ==> x <= n
    ensures ids != [] && ids[|ids| - 1] == n
  {
    assert n in ids;
    var i :| 0 <= i < |ids| && ids[i] == n;
    assert ids[|ids| - 1] in ids;
  }

  lemma FirstIsMember(ids: seq<nat>, bits: set<nat>)
    requires IsArrayOf(ids, bits) && ids != []
    ensures ids[0] in bits
  {
    assert ids[0] in ids;
  }

  lemma Truncated(ids: seq<nat>, bits: set<nat>)
    requires IsArrayOf(ids, bits) && ids != []
    ensures IsArrayOf(ids[..|ids| - 1], bits - {ids[|ids| - 1]})
  {
    var t := ids[..|ids| - 1];
    forall n ensures n in t <==> n in bits && n != ids[|ids| - 1] {
      if n in ids && n != ids[|ids| - 1] {
        var i :| 0 <= i < |ids| && ids[i] == n;
        assert t[i] == n;
      }
    }
  }

  lemma {:induction false} SelectIgnores(reg: seq<string>, bits: set<nat>, n: nat)
    requires n >= |reg|
    ensures Select(reg, bits) == Select(reg, bits - {n})
  {
    if reg != [] { SelectIgnores(reg[..|reg| - 1], bits, n); }
  }

  method ToArray(bits: set<nat>) returns (ids: seq<nat>)
    ensures IsArrayOf(ids, bits)
  {
    ids := [];
    var rest := bits;
    while rest != {}
      invariant rest <= bits && IsArrayOf(ids, bits - rest)
      invariant forall a, b :: a in rest && b in ids ==> b < a
      decreases |rest|
    {
      var n := Least(rest);
      assert forall i :: 0 <= i < |ids| ==> ids[i] in ids;
      rest := rest - {n};
      ids := ids + [n];
    }
    assert bits - rest == bits;
  }

  method Least(s: set<nat>) returns (n: nat)
    requires s != {}
    ensures n in s && forall a :: a in s ==> n <= a
  {
    var rest := s;
    n :| n in rest;
    rest := rest - {n};
    while rest != {}
      invariant rest <= s && n in s && forall a :: a in s && a !in rest ==> n <= a
      decreases |rest|
    {
      var a :| a in rest;
      rest := rest - {a};
      if a < n { n := a; }
    }
  }

  // ---------------------------------------------------------------- the reader

  class BitmapIndexReader {
    const storage: Storage
    const strict: bool
    const loadedShards: LruCache<Shard>
    var shardOids: map<string, string>
    var idToShaCache: Option<Names>

    /** What the shard at `path` holds; nothing if there is none or it is corrupt. */
    ghost function Meaning(path: string): Shard
      reads this`shardOids
    {
      if path in shardOids && shardOids[path] in storage.blobs && storage.blobs[shardOids[path]].Good?
      then storage.blobs[shardOids[path]].shard else EMPTY
    }

    ghost predicate Clean(path: string)
      reads this`shardOids
    {
      forall s :: s in Meaning(path).bitmaps ==> Meaning(path).bitmaps[s].Bits?
    }

    /** Cached shards are what the storage holds; only an edge shard with an undecodable bitmap may have been emptied. */
    ghost predicate Faithful(e: (string, Shard))
      reads this`shardOids
    {
      e.1 == Meaning(e.0) || (!strict && !IsMetaPath(e.0) && !Clean(e.0) && e.1 == EMPTY)
    }

    ghost predicate Named(n: nat, s: string)
      reads this`shardOids
    {
      exists path :: path in shardOids && IsMetaPath(path) && s in Meaning(path).ids && Meaning(path).ids[s] == n
    }

    /** Every entry of the name table comes from a meta shard. */
    ghost predicate NamesFaithful()
      reads this
    {
      idToShaCache.Some? ==> forall n :: n in idToShaCache.value ==> Named(n, idToShaCache.value[n])
    }

    ghost predicate CoversShard(m: Names, path: string)
      reads this`shardOids
    {
      forall s :: s in Meaning(path).ids ==> Meaning(path).ids[s] in m
    }

    /** The name table, once built, covers all meta shards. */
    ghost predicate Complete()
      reads this
    {
      idToShaCache.Some? ==> forall path :: path in shardOids && IsMetaPath(path) ==> CoversShard(idToShaCache.value, path)
    }

    ghost predicate Valid()
      reads this, loadedShards
    {
      loadedShards.Valid() && NamesFaithful() && forall e :: e in loadedShards.items ==> Faithful(e)
    }

    /** Everything the reader may ask for can be read. */
    ghost predicate Healthy()
      reads this, storage
    {
      forall path :: path in shardOids ==>
        shardOids[path] in storage.blobs && shardOids[path] !in storage.failing && storage.blobs[shardOids[path]].Good? && Clean(path)
    }

    ghost predicate Unreadable(path: string)
      reads this`shardOids, storage, loadedShards
    {
      path in shardOids && shardOids[path] in storage.failing && !Holds(loadedShards.items, path)
    }

    /** There are meta shards, and none of them is cached or can be read. */
    ghost predicate MetaOutage()
      reads this`shardOids, storage, loadedShards
    {
      && (exists path :: path in shardOids && IsMetaPath(path))
      && forall path :: path in shardOids && IsMetaPath(path) ==> Unreadable(path)
    }

    /** The shard with the edges of `sha` is sound, not cached, and can be read. */
    ghost predicate EdgeShardReadable(sha: string, forward: bool)
      reads this`shardOids, storage, loadedShards
    {
      var path := EdgePath(sha, forward);
      && Clean(path) && sha in Meaning(path).bitmaps
      && shardOids[path] !in storage.failing
    }

    constructor (storage: Storage, strict: bool, maxCachedShards: nat)
      requires maxCachedShards >= 1
      ensures Valid() && this.storage == storage && this.strict == strict && fresh(loadedShards)
      ensures shardOids == map[] && idToShaCache == None
    {
      this.storage, this.strict := storage, strict;
      loadedShards := new LruCache<Shard>(maxCachedShards);
      shardOids, idToShaCache := map[], None;
    }

    /** `setup`: in strict mode one bad oid refuses everything, otherwise it is skipped; caches start afresh. */
    method Setup(oids: map<string, string>) returns (r: Outcome<()>)
      requires Valid()
      modifies this, loadedShards
      ensures Valid()
      ensures r.Invalid? <==> strict && exists path :: path in oids && !IsValidShardOid(oids[path])
      ensures !r.LoadFailed?
      ensures r.Invalid? ==> shardOids == old(shardOids) && idToShaCache == old(idToShaCache)
      ensures r.Invalid? ==> loadedShards.items == old(loadedShards.items)
      ensures r.Done? ==> shardOids == (map path | path in oids && IsValidShardOid(oids[path]) :: oids[path])
      ensures r.Done? ==> idToShaCache == None && loadedShards.items == []
    {
      var valid: map<string, string>, rest := map[], oids.Keys;
      while rest != {}
        invariant rest <= oids.Keys
        invariant valid == map path | path in oids.Keys - rest && IsValidShardOid(oids[path]) :: oids[path]
        invariant strict ==> forall path :: path in oids.Keys - rest ==> IsValidShardOid(oids[path])
        decreases |rest|
      {
        var path :| path in rest;
        rest := rest - {path};
        if IsValidShardOid(oids[path]) {
          valid := valid[path := oids[path]];
        } else if strict {
          return Invalid;
        }
      }
      shardOids := valid;
      idToShaCache := None;
      loadedShards.Clear();
      r := Done(());
    }

    /** `_getOrLoadShard` */
    method GetOrLoadShard(path: string) returns (r: Outcome<Shard>)
      requires Valid()
      modifies loadedShards
      ensures Valid()
      ensures r.Done? ==> Faithful((path, r.value))
      ensures Healthy() ==> r.Done?
      ensures forall p :: p != path && Holds(loadedShards.items, p) ==> Holds(old(loadedShards.items), p)
      ensures old(Unreadable(path)) ==> r.LoadFailed? && loadedShards.items == old(loadedShards.items)
      ensures path in shardOids && shardOids[path] !in storage.failing && shardOids[path] in storage.blobs && storage.blobs[shardOids[path]].Good? ==> r.Done?
    {
      var cached := loadedShards.Get(path);
      if cached.Some? {
        WithoutMembers(old(loadedShards.items), path);
        HoldsMember(loadedShards.items, old(loadedShards.items));
        return Done(cached.value);
      }
      if path !in shardOids {
        return Done(EMPTY);
      }
      var blob := storage.ReadBlob(shardOids[path]);
      if blob.None? {
        return LoadFailed;
      }
      match blob.value
      case Good(shard) =>
        Remember(path, shard);
        r := Done(shard);
      case Corrupt =>
        if strict {
          return Invalid;
        }
        Remember(path, EMPTY);
        r := Done(EMPTY);
    }

    method Remember(path: string, shard: Shard)
      requires Valid() && Faithful((path, shard))
      modifies loadedShards
      ensures Valid()
      ensures forall p :: p != path && Holds(loadedShards.items, p) ==> Holds(old(loadedShards.items), p)
    {
      loadedShards.Set(path, shard);
      forall e | e in loadedShards.items ensures Faithful(e) && (e == (path, shard) || e in old(loadedShards.items)) {
        SetKeepsItems(old(loadedShards.items), path, shard, loadedShards.maxSize, e);
      }
      HoldsMember(loadedShards.items, old(loadedShards.items) + [(path, shard)]);
      HoldsAppend(old(loadedShards.items), path, shard);
    }

    /** `lookupId` */
    method LookupId(sha: string) returns (r: Outcome<Option<nat>>)
      requires Valid()
      modifies loadedShards
      ensures Valid()
      ensures r.Done? ==> var ids := Meaning(MetaPath(Prefix(sha))).ids; r.value == if sha in ids then Some(ids[sha]) else None
      ensures Healthy() ==> r.Done?
    {
      var path := MetaPath(Prefix(sha));
      PathsDiffer(Prefix(sha), Prefix(sha));
      var shard := GetOrLoadShard(path);
      match shard
      case LoadFailed => r := LoadFailed;
      case Invalid => r := Invalid;
      case Done(e) => r := Done(if sha in e.ids then Some(e.ids[sha]) else None);
    }

    /** The part of `_buildIdToShaMapping` for one meta shard. */
    method AddNames(path: string) returns (r: Outcome<()>)
      requires Valid() && idToShaCache.Some? && path in shardOids && IsMetaPath(path)
      modifies this`idToShaCache, loadedShards
      ensures Valid() && idToShaCache.Some?
      ensures forall n :: n in old(idToShaCache).value ==> n in idToShaCache.value
      ensures if r.Done? then CoversShard(idToShaCache.value, path) else idToShaCache == old(idToShaCache)
      ensures Healthy() ==> r.Done?
      ensures old(Unreadable(path)) ==> r.LoadFailed?
    {
      var shard := GetOrLoadShard(path);
      if shard.LoadFailed? {
        return LoadFailed;
      }
      if shard.Invalid? {
        return Invalid;
      }
      var names := FillNames(shard.value, idToShaCache.value);
      forall n | n in names ensures Named(n, names[n]) {
        assert n in idToShaCache.value ==> Named(n, idToShaCache.value[n]);
      }
      idToShaCache := Some(names);
      r := Done(());
    }

    /** `_buildIdToShaMapping`: once started, the table is kept, even if a shard could not be loaded. */
    method BuildIdToShaMapping() returns (r: Outcome<Names>)
      requires Valid()
      modifies this`idToShaCache, loadedShards
      ensures Valid() && idToShaCache.Some?
      ensures r.Done? ==> r.value == idToShaCache.value
      ensures old(idToShaCache).Some? ==> r.Done? && idToShaCache == old(idToShaCache)
      ensures old(idToShaCache).None? && r.Done? ==> Complete()
      ensures Healthy() ==> r.Done?
      ensures old(idToShaCache).None? && old(MetaOutage()) ==> r.LoadFailed? && idToShaCache.value == map[]
    {
      if idToShaCache.Some? {
        return Done(idToShaCache.value);
      }
      idToShaCache := Some(map[]);
      var rest := shardOids.Keys;
      while rest != {}
        invariant Valid() && idToShaCache.Some? && rest <= shardOids.Keys
        invariant old(MetaOutage()) ==> idToShaCache.value == map[] && MetaOutage() && AllMetaIn(shardOids, rest)
        invariant forall path :: path in shardOids.Keys && path !in rest && IsMetaPath(path) ==> CoversShard(idToShaCache.value, path)
        decreases |rest|
      {
        var path :| path in rest;
        rest := rest - {path};
        if IsMetaPath(path) {
          var added := AddNames(path);
          if added.LoadFailed? {
            return LoadFailed;
          }
          if added.Invalid? {
            return Invalid;
          }
        }
      }
      r := Done(idToShaCache.value);
    }

    /** `_getEdges` */
    method GetEdges(sha: string, forward: bool) returns (r: Outcome<seq<string>>)
      requires Valid()
      modifies this`idToShaCache, loadedShards
      ensures Valid()
      ensures r.Done? && Clean(EdgePath(sha, forward)) ==>
                var bitmaps := Meaning(EdgePath(sha, forward)).bitmaps;
                if sha !in bitmaps then r.value == []
                else idToShaCache.Some? && IsAnswer(r.value, bitmaps[sha].ids, idToShaCache.value)
      ensures old(idToShaCache).Some? ==> idToShaCache == old(idToShaCache)
      ensures r.Done? && old(Complete()) ==> Complete()
      ensures Healthy() ==> r.Done?
      ensures old(EdgeShardReadable(sha, forward)) && old(idToShaCache).Some? ==> r.Done?
      ensures old(EdgeShardReadable(sha, forward)) && old(idToShaCache).None? && old(MetaOutage()) ==> r == LoadFailed && idToShaCache == Some(map[])
    {
      var path := EdgePath(sha, forward);
      PathsDiffer(Prefix(sha), Prefix(sha));
      var shard := GetOrLoadShard(path);
      if shard.LoadFailed? {
        return LoadFailed;
      }
      if shard.Invalid? {
        return Invalid;
      }
      if sha !in shard.value.bitmaps {
        return Done([]);
      }
      match shard.value.bitmaps[sha]
      case Garbage =>
        assert !Clean(path);
        if strict {
          return Invalid;
        }
        Remember(path, EMPTY);
        r := Done([]);
      case Bits(bits) =>
        var ids := ToArray(bits);
        var names := BuildIdToShaMapping();
        match names {
          case LoadFailed => r := LoadFailed;
          case Invalid => r := Invalid;
          case Done(m) => r := Done(NamesOf(ids, m));
        }
    }
  }

  function EdgePath(sha: string, forward: bool): string {
    if forward then FwdPath(Prefix(sha)) else RevPath(Prefix(sha))
  }

  ghost predicate AllMetaIn(oids: map<string, string>, rest: set<string>) {
    forall path :: path in oids && IsMetaPath(path) ==> path in rest
  }

  lemma HoldsMember<V(!new)>(a: seq<(string, V)>, b: seq<(string, V)>)
    requires forall e :: e in a ==> e in b
    ensures forall key :: Holds(a, key) ==> Holds(b, key)
  {
    forall key | Holds(a, key) ensures Holds(b, key) {
      var i :| 0 <= i < |a| && a[i].0 == key;
      assert a[i] in b;
    }
  }

  lemma HoldsAppend<V>(a: seq<(string, V)>, key: string, v: V)
    ensures forall p :: p != key && Holds(a + [(key, v)], p) ==> Holds(a, p)
  {
  }

  /** Entering the ids of one meta shard. */
  method FillNames(shard: Shard, before: Names) returns (m: Names)
    ensures forall s :: s in shard.ids ==> shard.ids[s] in m
    ensures forall n :: n in before ==> n in m
    ensures forall n :: n in m ==> (n in before && m[n] == before[n]) || (m[n] in shard.ids && shard.ids[m[n]] == n)
  {
    m := before;
    var rest := shard.ids.Keys;
    while rest != {}
      invariant rest <= shard.ids.Keys
      invariant forall s :: s in shard.ids && s !in rest ==> shard.ids[s] in m
      invariant forall n :: n in before ==> n in m
      invariant forall n :: n in m ==> (n in before && m[n] == before[n]) || (m[n] in shard.ids && shard.ids[m[n]] == n)
      decreases |rest|
    {
      var s :| s in rest;
      rest := rest - {s};
      m := m[shard.ids[s] := s];
    }
  }
}
