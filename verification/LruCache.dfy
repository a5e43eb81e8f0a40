/** The least-recently-used cache in front of the shard store. */
module LruCaches {
  import opened Graphs

  ghost predicate DistinctKeys<V>(items: seq<(string, V)>) {
    forall i, j :: 0 <= i < j < |items| ==> items[i].0 != items[j].0
  }

  predicate Holds<V>(items: seq<(string, V)>, key: string) {
    exists i :: 0 <= i < |items| && items[i].0 == key
  }

  /** The items but the one with that key. */
  function Without<V>(items: seq<(string, V)>, key: string): (r: seq<(string, V)>)
    ensures |r| <= |items|
  {
    if items == [] then [] else
      Without(items[..|items| - 1], key) + if items[|items| - 1].0 == key then [] else [items[|items| - 1]]
  }

  /** The last `n` items. */
  function Youngest<V>(items: seq<(string, V)>, n: nat): seq<(string, V)> {
    if |items| > n then items[|items| - n..] else items
  }

  lemma HoldsLast<V(!new)>(t: seq<(string, V)>, last: (string, V), key: string)
    ensures Holds(t + [last], key) <==> last.0 == key || Holds(t, key)
  {
    var all := t + [last];
    if i :| 0 <= i < |t| && t[i].0 == key { assert all[i].0 == key; }
    if i :| 0 <= i < |all| && all[i].0 == key { assert i < |t| ==> t[i].0 == key; }
    assert all[|t|] == last;
  }

  /** `Without` drops the key and keeps the rest. */
  lemma {:induction false} WithoutMembers<V(!new)>(items: seq<(string, V)>, key: string)
    ensures forall e :: e in Without(items, key) <==> e in items && e.0 != key
    ensures !Holds(Without(items, key), key)
  {
    if items != [] {
      var t, last := items[..|items| - 1], items[|items| - 1];
      assert items == t + [last];
      WithoutMembers(t, key);
      HoldsLast(Without(t, key), last, key);
    }
  }

  /** In a cache the key occurs once, so dropping it frees one place. */
  lemma {:induction false} WithoutDistinct<V(!new)>(items: seq<(string, V)>, key: string)
    requires DistinctKeys(items)
    ensures DistinctKeys(Without(items, key))
    ensures |Without(items, key)| == if Holds(items, key) then |items| - 1 else |items|
  {
    if items != [] {
      var t, last := items[..|items| - 1], items[|items| - 1];
      assert items == t + [last];
      WithoutDistinct(t, key);
      WithoutMembers(t, key);
      HoldsLast(t, last, key);
      assert last.0 == key ==> !Holds(t, key);
      forall i | 0 <= i < |Without(t, key)| ensures Without(t, key)[i].0 != last.0 {
        assert Without(t, key)[i] in t;
      }
    }
  }

  /** Keys in order of last use, oldest first. */
  class LruCache<V(!new)> {
    const maxSize: nat
    var items: seq<(string, V)>

    ghost predicate Valid()
      reads this
    {
      1 <= maxSize && |items| <= maxSize && DistinctKeys(items)
    }

    /** The caller must ask for a positive size; anything else throws. */
    constructor (maxSize: nat)
      requires maxSize >= 1
      ensures Valid() && this.maxSize == maxSize && items == []
    {
      this.maxSize, items := maxSize, [];
    }

    method Has(key: string) returns (r: bool)
      ensures r <==> Holds(items, key)
    {
      r := Holds(items, key);
    }

    /** A hit moves the key to the young end. */
    method Get(key: string) returns (r: Option<V>)
      requires Valid()
      modifies `items
      ensures Valid() && (r.Some? <==> Holds(old(items), key))
      ensures r.Some? ==> (key, r.value) in old(items) && items == Without(old(items), key) + [(key, r.value)]
      ensures r.None? ==> items == old(items)
    {
      if !Holds(items, key) {
        return None;
      }
      var i :| 0 <= i < |items| && items[i].0 == key;
      var value := items[i].1;
      assert items[i] == (key, value);
      WithoutMembers(items, key);
      WithoutDistinct(items, key);
      items := Without(items, key) + [(key, value)];
      r := Some(value);
    }

    /** The key becomes the youngest; the oldest is evicted when there are too many. */
    method Set(key: string, value: V)
      requires Valid()
      modifies `items
      ensures Valid() && items == Youngest(Without(old(items), key) + [(key, value)], maxSize)
    {
      WithoutMembers(items, key);
      WithoutDistinct(items, key);
      items := Without(items, key) + [(key, value)];
      if |items| > maxSize {
        items := items[1..];
      }
    }

    method Clear()
      modifies `items
      ensures items == []
    {
      items := [];
    }
  }

  /** Dropping a key closes the gap it leaves and moves nothing else. */
  lemma {:induction false} WithoutAt<V(!new)>(items: seq<(string, V)>, i: nat)
    requires DistinctKeys(items) && i < |items|
    ensures Without(items, items[i].0) == items[..i] + items[i + 1..]
    decreases |items|
  {
    var n := |items| - 1;
    if i < n {
      WithoutAt(items[..n], i);
      assert items[..n][..i] == items[..i] && items[..n][i + 1..] + [items[n]] == items[i + 1..];
    } else {
      WithoutNone(items[..n], items[n].0);
      assert items[..i] == items[..n] && items[i + 1..] == [];
    }
  }

  lemma {:induction false} WithoutNone<V(!new)>(items: seq<(string, V)>, key: string)
    requires !Holds(items, key)
    ensures Without(items, key) == items
  {
    if items != [] {
      var n := |items| - 1;
      assert forall j :: 0 <= j < n ==> items[..n][j] == items[j];
      WithoutNone(items[..n], key);
      assert items == items[..n] + [items[n]];
    }
  }

  /** What a `Set` leaves: a known key moves to the young end; a new one joins there, and if the cache was full the item
      that was not used for longest goes. */
  lemma SetIsExact<V(!new)>(before: seq<(string, V)>, key: string, value: V, maxSize: nat)
    requires DistinctKeys(before) && |before| <= maxSize && maxSize >= 1
    ensures var after := Youngest(Without(before, key) + [(key, value)], maxSize);
            && (forall i :: 0 <= i < |before| && before[i].0 == key ==> after == before[..i] + before[i + 1..] + [(key, value)])
            && (!Holds(before, key) && |before| < maxSize ==> after == before + [(key, value)])
            && (!Holds(before, key) && |before| == maxSize ==> after == before[1..] + [(key, value)])
  {
    forall i | 0 <= i < |before| && before[i].0 == key
      ensures Youngest(Without(before, key) + [(key, value)], maxSize) == before[..i] + before[i + 1..] + [(key, value)]
    {
      WithoutAt(before, i);
    }
    if !Holds(before, key) {
      WithoutNone(before, key);
    }
  }

  /** Whatever the size, after a `Set` the cache holds the new item and otherwise only what it held before. */
  lemma SetKeepsItems<V(!new)>(before: seq<(string, V)>, key: string, value: V, maxSize: nat, e: (string, V))
    requires maxSize >= 1 && e in Youngest(Without(before, key) + [(key, value)], maxSize)
    ensures e == (key, value) || (e in before && e.0 != key)
  {
    WithoutMembers(before, key);
  }
}
