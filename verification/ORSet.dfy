/** The observed-remove set: entries of dots per element, and one global set of tombstones. */
module ORSets {
  import opened Dots
  import opened VersionVectors

  type Element = string

  /** A dot in its text form. */
  type DotKey = string

  type Entries = map<Element, set<DotKey>>

  /** An OR-set as a value: which element was added under which dot, and which dots are tombstoned. */
  datatype Content = Content(adds: set<(Element, DotKey)>, tombs: set<DotKey>)

  ghost predicate Live(c: Content, e: Element, k: DotKey) {
    (e, k) in c.adds && k !in c.tombs
  }

  ghost predicate Present(c: Content, e: Element) {
    exists k :: Live(c, e, k)
  }

  ghost function LiveDots(c: Content, e: Element): (r: set<DotKey>)
    ensures forall k :: k in r <==> Live(c, e, k)
  {
    set p | p in c.adds && p.0 == e && p.1 !in c.tombs :: p.1
  }

  ghost function Joined(a: Content, b: Content): Content {
    Content(a.adds + b.adds, a.tombs + b.tombs)
  }

  ghost predicate Decodable(adds: set<(Element, DotKey)>) {
    forall p :: p in adds ==> DecodeDot(p.1).Ok?
  }

  /** The dot is well formed and the version vector has reached it. */
  predicate Stable(vv: Counters, k: DotKey) {
    DecodeDot(k).Ok? && Covers(vv, DecodeDot(k).dot)
  }

  /** What a compaction takes: tombstoned dots of entries that the version vector has reached. */
  ghost function Dropped(c: Content, vv: Counters): (r: set<DotKey>)
    ensures forall k :: k in r <==> k in c.tombs && Stable(vv, k) && exists e :: (e, k) in c.adds
  {
    set p | p in c.adds && p.1 in c.tombs && Stable(vv, p.1) :: p.1
  }

  ghost function Without(adds: set<(Element, DotKey)>, d: set<DotKey>): set<(Element, DotKey)> {
    set p | p in adds && p.1 !in d
  }

  ghost function Compacted(c: Content, vv: Counters): Content {
    Content(Without(c.adds, Dropped(c, vv)), c.tombs - Dropped(c, vv))
  }

  /** Compaction keeps exactly the live dots live. */
  lemma CompactedKeepsLive(c: Content, vv: Counters, e: Element)
    ensures LiveDots(Compacted(c, vv), e) == LiveDots(c, e)
  {
    forall k ensures Live(Compacted(c, vv), e, k) <==> Live(c, e, k) {
      if (e, k) in c.adds && k in c.tombs && k !in Dropped(c, vv) {
        assert k in Compacted(c, vv).tombs;
      }
    }
  }

  /** What a compaction by `vv` may do to the dot `d` of `e`: it goes if it is tombstoned, listed under some
      element and `d.counter` is no more than what `vv` says of its writer; otherwise nothing changes. */
  ghost predicate CompactsAt(before: Content, after: Content, vv: Counters, e: Element, d: Dot, k: DotKey) {
    var reached := d.writerId in vv && d.counter <= vv[d.writerId];
    && ((e, k) in after.adds <==> (e, k) in before.adds && !(k in before.tombs && reached))
    && (k in after.tombs <==> k in before.tombs && !(reached && exists x :: (x, k) in before.adds))
  }

  /** Compaction takes exactly the tombstoned, listed dots up to the counters of the version vector. What lies
      beyond them keeps its entry and its tombstone. */
  lemma CompactedExactly(c: Content, vv: Counters, e: Element, d: Dot, k: DotKey)
    requires DecodeDot(k) == Ok(d)
    ensures CompactsAt(c, Compacted(c, vv), vv, e, d, k)
  {
  }

  lemma BeyondStays(c: Content, vv: Counters, d: Dot)
    requires ValidDot(d) && (d.writerId !in vv || vv[d.writerId] < d.counter)
    ensures EncodeDot(d) in c.tombs ==> EncodeDot(d) in Compacted(c, vv).tombs
    ensures forall e :: (e, EncodeDot(d)) in c.adds ==> (e, EncodeDot(d)) in Compacted(c, vv).adds
  {
    DecodeUndoesEncode(d);
    forall e ensures CompactsAt(c, Compacted(c, vv), vv, e, d, EncodeDot(d)) { CompactedExactly(c, vv, e, d, EncodeDot(d)); }
  }

  ghost function PairsOf(m: Entries): set<(Element, DotKey)> {
    set e, k | e in m && k in m[e] :: (e, k)
  }

  /** Every listed element has a dot. */
  ghost predicate Tidy(m: Entries) {
    forall e :: e in m ==> m[e] != {}
  }

  /** A tidy map is determined by its pairs. */
  lemma TidyIsUnique(a: Entries, b: Entries)
    requires Tidy(a) && Tidy(b) && PairsOf(a) == PairsOf(b)
    ensures a == b
  {
    HasSamePairs(a, b);
    HasSamePairs(b, a);
    forall e | e in a ensures a[e] == b[e] {
      forall k ensures k in a[e] <==> k in b[e] {
        assert (e, k) in PairsOf(a) <==> (e, k) in PairsOf(b);
      }
    }
  }

  lemma HasSamePairs(a: Entries, b: Entries)
    requires Tidy(a) && PairsOf(a) == PairsOf(b)
    ensures a.Keys <= b.Keys
  {
    forall e | e in a ensures e in b {
      var k :| k in a[e];
      assert (e, k) in PairsOf(a);
    }
  }

  datatype Outcome = Done | Malformed

  class ORSet {
    var entries: Entries
    var tombstones: set<DotKey>

    ghost function Contents(): Content
      reads this
    {
      Content(PairsOf(entries), tombstones)
    }

    /** `createORSet` */
    constructor ()
      ensures Contents() == Content({}, {}) && Tidy(entries)
    {
      entries, tombstones := map[], {};
    }

    /** `orsetAdd` */
    method Add(element: Element, dot: Dot)
      modifies this
      ensures Contents() == Content(old(Contents()).adds + {(element, EncodeDot(dot))}, old(tombstones))
      ensures old(Tidy(entries)) ==> Tidy(entries)
    {
      var encoded := EncodeDot(dot);
      var dots := if element in entries then entries[element] else {};
      entries := entries[element := dots + {encoded}];
    }

    /** `orsetRemove` */
    method Remove(observed: set<DotKey>)
      modifies `tombstones
      ensures Contents() == Content(old(Contents()).adds, old(tombstones) + observed)
    {
      var rest := observed;
      while rest != {}
        invariant rest <= observed && tombstones == old(tombstones) + (observed - rest)
        decreases |rest|
      {
        var k :| k in rest;
        rest := rest - {k};
        tombstones := tombstones + {k};
      }
    }

    /** `orsetContains` */
    method Contains(element: Element) returns (r: bool)
      ensures r <==> Present(Contents(), element)
    {
      if element !in entries {
        return false;
      }
      var rest := entries[element];
      while rest != {}
        invariant rest <= entries[element] && entries[element] - rest <= tombstones
        decreases |rest|
      {
        var k :| k in rest;
        if k !in tombstones {
          assert Live(Contents(), element, k);
          return true;
        }
        rest := rest - {k};
      }
      r := false;
    }

    /** `orsetGetDots` */
    method GetDots(element: Element) returns (r: set<DotKey>)
      ensures r == LiveDots(Contents(), element)
    {
      r := {};
      if element !in entries {
        return;
      }
      var rest := entries[element];
      while rest != {}
        invariant rest <= entries[element]
        invariant forall k :: k in r <==> k in entries[element] - rest && k !in tombstones
        decreases |rest|
      {
        var k :| k in rest;
        rest := rest - {k};
        if k !in tombstones {
          r := r + {k};
        }
      }
      assert forall k :: k in r <==> Live(Contents(), element, k);
    }

    /** `orsetElements` */
    method Elements() returns (r: seq<Element>)
      ensures forall e :: e in r <==> Present(Contents(), e)
      ensures forall i, j :: 0 <= i < j < |r| ==> r[i] != r[j]
    {
      r := [];
      var rest := entries.Keys;
      while rest != {}
        invariant rest <= entries.Keys
        invariant forall e :: e in r <==> e in entries.Keys - rest && Present(Contents(), e)
        invariant forall i, j :: 0 <= i < j < |r| ==> r[i] != r[j]
        decreases |rest|
      {
        var e :| e in rest;
        var here := Contains(e);
        if here {
          r := r + [e];
        }
        rest := rest - {e};
      }
    }

    /** `orsetClone` */
    method Clone() returns (r: ORSet)
      ensures fresh(r) && r.entries == entries && r.tombstones == tombstones
    {
      r := new ORSet();
      r.entries, r.tombstones := entries, tombstones;
    }

    /** `orsetJoin`: the inputs stay as they are. */
    static method Join(a: ORSet, b: ORSet) returns (r: ORSet)
      ensures fresh(r) && r.Contents() == Joined(a.Contents(), b.Contents())
      ensures Tidy(a.entries) && Tidy(b.entries) ==> Tidy(r.entries)
    {
      var result := a.entries;
      var rest := b.entries.Keys;
      while rest != {}
        invariant rest <= b.entries.Keys && JoinedSoFar(a.entries, b.entries, rest, result)
        decreases |rest|
      {
        var e :| e in rest;
        var existing := if e in result then result[e] else {};
        JoinStep(a.entries, b.entries, rest, result, e);
        rest := rest - {e};
        result := result[e := existing + b.entries[e]];
      }
      JoinPairs(a.entries, b.entries, result);
      r := new ORSet();
      r.entries, r.tombstones := result, a.tombstones + b.tombstones;
    }

    /** `orsetCompact`: nothing happens if some entry dot cannot be decoded. */
    method Compact(includedVV: Counters) returns (r: Outcome)
      modifies this
      ensures r.Malformed? <==> !Decodable(old(Contents()).adds)
      ensures Contents() == if r.Malformed? then old(Contents()) else Compacted(old(Contents()), includedVV)
      ensures r.Done? ==> forall e, d :: ValidDot(d) ==> CompactsAt(old(Contents()), Contents(), includedVV, e, d, EncodeDot(d))
      ensures old(Tidy(entries)) ==> Tidy(entries)
    {
      var toDelete: seq<(Element, DotKey)>;
      r, toDelete := Deletions(includedVV);
      if r.Done? {
        ghost var c := Contents();
        for i := 0 to |toDelete|
          invariant PairsOf(entries) == c.adds - Listed(toDelete[..i])
          invariant tombstones == c.tombs - KeysOf(toDelete[..i])
          invariant old(Tidy(entries)) ==> Tidy(entries)
        {
          Delete(toDelete[i].0, toDelete[i].1);
          assert toDelete[..i + 1] == toDelete[..i] + [toDelete[i]];
        }
        assert toDelete[..|toDelete|] == toDelete;
        DeletionsCompact(c, includedVV, toDelete);
        forall e, d | ValidDot(d)
          ensures CompactsAt(c, Contents(), includedVV, e, d, EncodeDot(d))
        {
          DecodeUndoesEncode(d);
          CompactedExactly(c, includedVV, e, d, EncodeDot(d));
        }
      }
    }

    /** The first pass over the entries: which dots to delete, under which elements. */
    method Deletions(includedVV: Counters) returns (r: Outcome, toDelete: seq<(Element, DotKey)>)
      ensures r.Malformed? <==> !Decodable(Contents().adds)
      ensures r.Done? ==> forall p :: p in toDelete <==> p in Contents().adds && p.1 in tombstones && Stable(includedVV, p.1)
    {
      toDelete := [];
      var rest := PairsIn(entries);
      while rest != {}
        invariant rest <= PairsOf(entries)
        invariant forall p :: p in PairsOf(entries) - rest ==> DecodeDot(p.1).Ok?
        invariant forall p :: p in toDelete <==> p in PairsOf(entries) - rest && p.1 in tombstones && Stable(includedVV, p.1)
        decreases |rest|
      {
        var p :| p in rest;
        rest := rest - {p};
        match DecodeDot(p.1)
        case Ok(dot) =>
          if p.1 in tombstones && Covers(includedVV, dot) {
            toDelete := toDelete + [p];
          }
        case _ =>
          return Malformed, [];
      }
      r := Done;
    }

    method Delete(element: Element, encodedDot: DotKey)
      modifies this
      ensures PairsOf(entries) == old(PairsOf(entries)) - {(element, encodedDot)}
      ensures tombstones == old(tombstones) - {encodedDot}
      ensures old(Tidy(entries)) ==> Tidy(entries)
    {
      if element in entries {
        var dots := entries[element] - {encodedDot};
        RemovedPair(entries, element, encodedDot);
        if dots == {} {
          entries := entries - {element};
        } else {
          entries := entries[element := dots];
        }
      }
      tombstones := tombstones - {encodedDot};
    }
  }

  function PairsIn(m: Entries): (r: set<(Element, DotKey)>)
    ensures r == PairsOf(m)
  {
    set e, k | e in m.Keys && k in m[e] :: (e, k)
  }

  ghost function DotsIn(m: Entries, e: Element): set<DotKey> {
    if e in m then m[e] else {}
  }

  /** The elements of `b` outside `rest` have been merged into a copy of `a`. */
  ghost predicate JoinedSoFar(a: Entries, b: Entries, rest: set<Element>, m: Entries) {
    && m.Keys == a.Keys + (b.Keys - rest)
    && forall e :: e in m ==> m[e] == DotsIn(a, e) + if e in rest then {} else DotsIn(b, e)
  }

  lemma JoinStep(a: Entries, b: Entries, rest: set<Element>, m: Entries, e: Element)
    requires rest <= b.Keys && JoinedSoFar(a, b, rest, m) && e in rest
    ensures JoinedSoFar(a, b, rest - {e}, m[e := DotsIn(m, e) + b[e]])
  {
  }

  lemma JoinPairs(a: Entries, b: Entries, m: Entries)
    requires JoinedSoFar(a, b, {}, m)
    ensures PairsOf(m) == PairsOf(a) + PairsOf(b)
    ensures Tidy(a) && Tidy(b) ==> Tidy(m)
  {
    forall e | e in m && m[e] == {} ensures !(Tidy(a) && Tidy(b)) {
      assert DotsIn(a, e) == {} && DotsIn(b, e) == {};
    }
  }

  lemma RemovedPair(m: Entries, element: Element, k: DotKey)
    requires element in m
    ensures var dots := m[element] - {k};
            PairsOf(if dots == {} then m - {element} else m[element := dots]) == PairsOf(m) - {(element, k)}
  {
    var dots := m[element] - {k};
    var n := if dots == {} then m - {element} else m[element := dots];
    forall e, x ensures (e, x) in PairsOf(n) <==> (e, x) in PairsOf(m) - {(element, k)} {
      if e == element && dots == {} { assert x in m[element] ==> x !in dots ==> x == k; }
    }
  }

  ghost function Listed(s: seq<(Element, DotKey)>): set<(Element, DotKey)> {
    set p | p in s
  }

  ghost function KeysOf(s: seq<(Element, DotKey)>): set<DotKey> {
    set p | p in s :: p.1
  }

  lemma DeletionsCompact(c: Content, vv: Counters, s: seq<(Element, DotKey)>)
    requires forall p :: p in s <==> p in c.adds && p.1 in c.tombs && Stable(vv, p.1)
    ensures Content(c.adds - Listed(s), c.tombs - KeysOf(s)) == Compacted(c, vv)
  {
    assert KeysOf(s) == Dropped(c, vv);
  }
}
