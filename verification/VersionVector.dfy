/** Version vectors: how many operations of each writer have been observed. */
module VersionVectors {
  import opened Dots

  type Counters = map<string, nat>

  function CounterOf(c: Counters, writer: string): nat {
    if writer in c then c[writer] else 0
  }

  /** `vvContains` */
  predicate Covers(c: Counters, d: Dot) {
    d.counter <= CounterOf(c, d.writerId)
  }

  /** `a` has observed at least what `b` has. */
  ghost predicate Descends(a: Counters, b: Counters) {
    forall w :: CounterOf(b, w) <= CounterOf(a, w)
  }

  function Max(x: nat, y: nat): nat {
    if x < y then y else x
  }

  /** `vvMerge` as a function. */
  ghost function Merged(a: Counters, b: Counters): (r: Counters)
    ensures r.Keys == a.Keys + b.Keys
    ensures forall w :: CounterOf(r, w) == Max(CounterOf(a, w), CounterOf(b, w))
  {
    map w | w in a.Keys + b.Keys :: Max(CounterOf(a, w), CounterOf(b, w))
  }

  /** Merging is the least upper bound. */
  lemma MergedIsLeastUpperBound(a: Counters, b: Counters, c: Counters)
    ensures Descends(Merged(a, b), a) && Descends(Merged(a, b), b)
    ensures Descends(c, Merged(a, b)) <==> Descends(c, a) && Descends(c, b)
  {
    if Descends(c, Merged(a, b)) {
      forall w ensures CounterOf(a, w) <= CounterOf(c, w) && CounterOf(b, w) <= CounterOf(c, w) {
        assert CounterOf(Merged(a, b), w) <= CounterOf(c, w);
      }
    }
    if Descends(c, a) && Descends(c, b) {
      forall w ensures CounterOf(Merged(a, b), w) <= CounterOf(c, w) {
        assert CounterOf(a, w) <= CounterOf(c, w) && CounterOf(b, w) <= CounterOf(c, w);
      }
    }
  }

  /** The laws of a join semilattice. */
  lemma MergeLaws(a: Counters, b: Counters, c: Counters)
    ensures Merged(a, b) == Merged(b, a)
    ensures Merged(Merged(a, b), c) == Merged(a, Merged(b, c))
    ensures Merged(a, a) == a
  {
    SameCounters(Merged(a, b), Merged(b, a));
    SameCounters(Merged(Merged(a, b), c), Merged(a, Merged(b, c)));
    SameCounters(Merged(a, a), a);
  }

  lemma SameCounters(a: Counters, b: Counters)
    requires a.Keys == b.Keys && forall w :: CounterOf(a, w) == CounterOf(b, w)
    ensures a == b
  {
    forall w | w in a ensures a[w] == b[w] { assert CounterOf(a, w) == CounterOf(b, w); }
  }

  class VersionVector {
    var counters: Counters

    constructor ()
      ensures counters == map[]
    {
      counters := map[];
    }

    /** `vvIncrement`: the next counter of the writer, and the dot that names it. */
    method Increment(writerId: string) returns (dot: Dot)
      modifies this
      ensures dot == Dot(writerId, CounterOf(old(counters), writerId) + 1)
      ensures counters == old(counters)[writerId := dot.counter]
      ensures !Covers(old(counters), dot) && Covers(counters, dot)
      ensures Descends(counters, old(counters))
    {
      var current := if writerId in counters then counters[writerId] else 0;
      var newCounter := current + 1;
      counters := counters[writerId := newCounter];
      dot := Dot(writerId, newCounter);
    }

    /** `vvMerge`: a new vector; the inputs stay as they are. */
    static method Merge(a: VersionVector, b: VersionVector) returns (r: VersionVector)
      ensures fresh(r) && r.counters == Merged(a.counters, b.counters)
    {
      var result := a.counters;
      var writers := b.counters.Keys;
      ghost var done: set<string> := {};
      while writers != {}
        invariant writers + done == b.counters.Keys && writers !! done
        invariant result.Keys == a.counters.Keys + done
        invariant forall w :: CounterOf(result, w) ==
                    if w in done then Max(CounterOf(a.counters, w), CounterOf(b.counters, w)) else CounterOf(a.counters, w)
        decreases |writers|
      {
        var w :| w in writers;
        writers, done := writers - {w}, done + {w};
        var existing := if w in result then result[w] else 0;
        result := result[w := Max(existing, b.counters[w])];
      }
      SameCounters(result, Merged(a.counters, b.counters));
      r := new VersionVector();
      r.counters := result;
    }

    /** `vvDescends` */
    static method DescendsFrom(a: VersionVector, b: VersionVector) returns (r: bool)
      ensures r <==> Descends(a.counters, b.counters)
    {
      var writers := b.counters.Keys;
      while writers != {}
        invariant writers <= b.counters.Keys
        invariant forall w :: w in b.counters.Keys - writers ==> CounterOf(b.counters, w) <= CounterOf(a.counters, w)
        decreases |writers|
      {
        var w :| w in writers;
        if CounterOf(a.counters, w) < b.counters[w] {
          assert CounterOf(a.counters, w) < CounterOf(b.counters, w);
          return false;
        }
        writers := writers - {w};
      }
      r := true;
    }
  }
}
