/** The full checkpoint state as sorted lists, and back. The byte codec on top of it is an injective encoding. */
module CheckpointCodec {
  import opened Dots
  import opened VersionVectors
  import opened ORSets
  import opened Sorting

  // ---------------------------------------------------------------- maps as sorted lists

  /** `l` lists the pairs of `m` by ascending key. */
  ghost predicate IsListing<V>(l: seq<(string, V)>, m: map<string, V>) {
    && (forall i, j :: 0 <= i < j < |l| ==> StringLess(l[i].0, l[j].0))
    && (forall i :: 0 <= i < |l| ==> l[i].0 in m && l[i].1 == m[l[i].0])
    && (forall k :: k in m ==> exists i :: 0 <= i < |l| && l[i].0 == k)
  }

  /** Filling a map from a list of pairs: later pairs win. */
  function FromList<V>(l: seq<(string, V)>): map<string, V> {
    if l == [] then map[] else FromList(l[..|l| - 1])[l[|l| - 1].0 := l[|l| - 1].1]
  }

  lemma {:induction false} FromListAt<V>(l: seq<(string, V)>, i: nat)
    requires i < |l| && forall j :: i < j < |l| ==> l[j].0 != l[i].0
    ensures l[i].0 in FromList(l) && FromList(l)[l[i].0] == l[i].1
  {
    if i < |l| - 1 {
      FromListAt(l[..|l| - 1], i);
    }
  }

  lemma {:induction false} FromListKeys<V>(l: seq<(string, V)>, k: string)
    ensures k in FromList(l) <==> exists i :: 0 <= i < |l| && l[i].0 == k
  {
    if l != [] {
      var t := l[..|l| - 1];
      FromListKeys(t, k);
      if i :| 0 <= i < |l| && l[i].0 == k {
        if i < |t| { assert t[i].0 == k; }
      }
      if i :| 0 <= i < |t| && t[i].0 == k { assert l[i].0 == k; }
    }
  }

  /** Reading a listing back gives the map. */
  lemma ListingRoundTrip<V>(l: seq<(string, V)>, m: map<string, V>)
    requires IsListing(l, m)
    ensures FromList(l) == m
  {
    var n := FromList(l);
    forall k ensures k in n <==> k in m { FromListKeys(l, k); }
    forall k | k in m ensures n[k] == m[k] {
      var i :| 0 <= i < |l| && l[i].0 == k;
      forall j | i < j < |l| ensures l[j].0 != k { StringLessTotal(l[i].0, l[j].0); }
      FromListAt(l, i);
    }
  }

  lemma LastIsGreatest<V>(l: seq<(string, V)>, m: map<string, V>, k: string)
    requires IsListing(l, m) && k in m
    ensures l != [] && (k == l[|l| - 1].0 || StringLess(k, l[|l| - 1].0))
  {
    var i :| 0 <= i < |l| && l[i].0 == k;
  }

  lemma EmptyListing<V>(l: seq<(string, V)>, m: map<string, V>)
    requires IsListing(l, m)
    ensures l == [] <==> m.Keys == {}
  {
    if l != [] { assert l[0].0 in m; }
  }

  /** A map has one listing. */
  lemma {:induction false} ListingIsUnique<V>(a: seq<(string, V)>, b: seq<(string, V)>, m: map<string, V>)
    requires IsListing(a, m) && IsListing(b, m)
    ensures a == b
    decreases |a|
  {
    if a == [] {
      EmptyListing(a, m);
      EmptyListing(b, m);
    } else {
      var x := a[|a| - 1];
      LastIsGreatest(b, m, x.0);
      var y := b[|b| - 1];
      LastIsGreatest(a, m, y.0);
      StringLessTotal(x.0, y.0);
      DropLast(a, m);
      DropLast(b, m);
      ListingIsUnique(a[..|a| - 1], b[..|b| - 1], m - {x.0});
      assert a == a[..|a| - 1] + [x] && b == b[..|b| - 1] + [y];
    }
  }

  lemma DropLast<V>(l: seq<(string, V)>, m: map<string, V>)
    requires IsListing(l, m) && l != []
    ensures IsListing(l[..|l| - 1], m - {l[|l| - 1].0})
  {
    var n := |l| - 1;
    forall i | 0 <= i < n ensures l[i].0 != l[n].0 { StringLessTotal(l[i].0, l[n].0); }
    forall k | k in m - {l[n].0} ensures exists i :: 0 <= i < n && l[..n][i].0 == k {
      var i :| 0 <= i < |l| && l[i].0 == k;
      assert l[..n][i].0 == k;
    }
  }

  predicate KeyLeq<V>(a: (string, V), b: (string, V)) {
    !StringLess(b.0, a.0)
  }

  lemma StringOrderIsTotal()
    ensures forall a: string, b: string :: !StringLess(a, b) || !StringLess(b, a)
    ensures forall a: string, b: string, c: string :: !StringLess(b, a) && !StringLess(c, b) ==> !StringLess(c, a)
  {
    forall a: string, b: string ensures !StringLess(a, b) || !StringLess(b, a) { StringLessTotal(a, b); }
    forall a: string, b: string, c: string | !StringLess(b, a) && !StringLess(c, b) ensures !StringLess(c, a) {
      StringLessTotal(a, b);
      StringLessTotal(b, c);
      if StringLess(a, b) && StringLess(b, c) { StringLessTransitive(a, b, c); }
      StringLessTotal(a, c);
    }
  }

  lemma SortedPairsList<V(!new)>(pairs: seq<(string, V)>, l: seq<(string, V)>, m: map<string, V>)
    requires Pushed(pairs, m, m.Keys) && multiset(l) == multiset(pairs)
    requires forall i, j :: 0 <= i < j < |l| ==> KeyLeq(l[i], l[j])
    ensures IsListing(l, m)
  {
    DistinctAfterSorting(pairs, l);
    forall p ensures p in l <==> p in pairs { assert p in multiset(l) <==> p in multiset(pairs); }
    forall i | 0 <= i < |l| ensures l[i].0 in m && l[i].1 == m[l[i].0] {
      assert l[i] in pairs;
    }
    forall i, j | 0 <= i < j < |l| ensures StringLess(l[i].0, l[j].0) {
      StringLessTotal(l[i].0, l[j].0);
      assert KeyLeq(l[i], l[j]) && l[i] != l[j];
    }
    forall k | k in m ensures exists i :: 0 <= i < |l| && l[i].0 == k {
      var i :| 0 <= i < |pairs| && pairs[i].0 == k;
      assert pairs[i] in l;
    }
  }

  /** Pushing all pairs and sorting by key, whatever the iteration order of the map. */
  method SortedEntries<V(!new, ==)>(m: map<string, V>) returns (l: seq<(string, V)>)
    ensures IsListing(l, m)
  {
    var pairs: seq<(string, V)>, rest := [], m.Keys;
    while rest != {}
      invariant rest <= m.Keys && Pushed(pairs, m, m.Keys - rest)
      decreases |rest|
    {
      var k :| k in rest;
      PushOne(pairs, m, m.Keys - rest, k);
      assert m.Keys - (rest - {k}) == (m.Keys - rest) + {k};
      rest := rest - {k};
      pairs := pairs + [(k, m[k])];
    }
    assert m.Keys - rest == m.Keys;
    StringOrderIsTotal();
    l := Sort((a: (string, V), b: (string, V)) => KeyLeq(a, b), pairs);
    SortedPairsList(pairs, l, m);
  }

  ghost predicate Pushed<V>(pairs: seq<(string, V)>, m: map<string, V>, done: set<string>) {
    && (forall i :: 0 <= i < |pairs| ==> pairs[i].0 in done && pairs[i].0 in m && pairs[i].1 == m[pairs[i].0])
    && (forall i, j :: 0 <= i < j < |pairs| ==> pairs[i].0 != pairs[j].0)
    && (forall k :: k in done ==> exists i :: 0 <= i < |pairs| && pairs[i].0 == k)
  }

  lemma PushOne<V>(pairs: seq<(string, V)>, m: map<string, V>, done: set<string>, k: string)
    requires Pushed(pairs, m, done) && k in m && k !in done
    ensures Pushed(pairs + [(k, m[k])], m, done + {k})
  {
    var all := pairs + [(k, m[k])];
    forall x | x in done + {k} ensures exists i :: 0 <= i < |all| && all[i].0 == x {
      if x == k {
        assert all[|pairs|].0 == x;
      } else {
        var i :| 0 <= i < |pairs| && pairs[i].0 == x;
        assert all[i].0 == x;
      }
    }
  }

  // ---------------------------------------------------------------- lists of dots

  /** The dot a key decodes to, for keys that decode. */
  function DotOf(k: DotKey): Dot {
    match DecodeDot(k)
    case Ok(d) => d
    case _ => Dot("", 0)
  }

  predicate DotLeq(a: DotKey, b: DotKey) {
    CompareDots(DotOf(a), DotOf(b)) <= 0
  }

  lemma DotOrderIsTotal()
    ensures TotalOrder((a: DotKey, b: DotKey) => DotLeq(a, b))
  {
    forall a: DotKey, b: DotKey ensures DotLeq(a, b) || DotLeq(b, a) { CompareDotsIsTotalOrder(DotOf(a), DotOf(b), DotOf(a)); }
    forall a: DotKey, b: DotKey, c: DotKey | DotLeq(a, b) && DotLeq(b, c) ensures DotLeq(a, c) {
      CompareDotsIsTotalOrder(DotOf(a), DotOf(b), DotOf(c));
    }
  }

  /** `l` lists the keys of `s`, each once, in the order of their dots. */
  ghost predicate IsDotList(l: seq<DotKey>, s: set<DotKey>) {
    SortedBy((a: DotKey, b: DotKey) => DotLeq(a, b), l) && multiset(l) == multiset(s)
  }

  /** Of two listed dots the later one has the greater writer id, or the same one and no smaller counter. */
  lemma DotListAscends(l: seq<DotKey>, s: set<DotKey>, i: nat, j: nat)
    requires IsDotList(l, s) && i < j < |l|
    ensures var a, b := DotOf(l[i]), DotOf(l[j]);
            (exists k :: DiffersAt(a.writerId, b.writerId, k)) || (a.writerId == b.writerId && a.counter <= b.counter)
  {
    assert DotLeq(l[i], l[j]);
    CompareDotsIsExact(DotOf(l[i]), DotOf(l[j]));
    CompareDotsIsTotalOrder(DotOf(l[i]), DotOf(l[j]), DotOf(l[i]));
  }

  function SetFrom(l: seq<DotKey>): set<DotKey> {
    set k | k in l
  }

  lemma DotListRoundTrip(l: seq<DotKey>, s: set<DotKey>)
    requires IsDotList(l, s)
    ensures SetFrom(l) == s
  {
    forall k ensures k in SetFrom(l) <==> k in s { assert k in multiset(l) <==> k in multiset(s); }
  }

  /** Keys as `orsetAdd` writes them. */
  ghost predicate Encoded(s: set<DotKey>) {
    forall k :: k in s ==> DecodeDot(k).Ok? && EncodeDot(DotOf(k)) == k
  }

  /** A set of encoded dots has one list, although decoding itself is not injective. */
  lemma DotListIsUnique(a: seq<DotKey>, b: seq<DotKey>, s: set<DotKey>)
    requires IsDotList(a, s) && IsDotList(b, s) && Encoded(s)
    ensures a == b
  {
    DotListRoundTrip(a, s);
    forall x, y | x in a && y in a && DotLeq(x, y) && DotLeq(y, x) ensures x == y {
      assert x in SetFrom(a) && y in SetFrom(a);
      CompareDotsIsTotalOrder(DotOf(x), DotOf(y), DotOf(x));
    }
    SortedIsUnique((p: DotKey, q: DotKey) => DotLeq(p, q), a, b);
  }

  datatype DotList = DotList(dots: seq<DotKey>) | NotADot

  /** Decoding every key, then sorting by dot. */
  method SortDots(s: set<DotKey>) returns (r: DotList)
    ensures r.NotADot? <==> exists k :: k in s && !DecodeDot(k).Ok?
    ensures r.DotList? ==> IsDotList(r.dots, s)
  {
    var pushed: seq<DotKey>, rest := [], s;
    while rest != {}
      invariant rest <= s && multiset(pushed) == multiset(s - rest)
      invariant forall k :: k in s - rest ==> DecodeDot(k).Ok?
      decreases |rest|
    {
      var k :| k in rest;
      if !DecodeDot(k).Ok? {
        return NotADot;
      }
      assert s - (rest - {k}) == (s - rest) + {k};
      rest := rest - {k};
      pushed := pushed + [k];
    }
    assert s - rest == s;
    DotOrderIsTotal();
    var dots := Sort((a: DotKey, b: DotKey) => DotLeq(a, b), pushed);
    r := DotList(dots);
  }

  // ---------------------------------------------------------------- OR-sets

  datatype SetImage = SetImage(entries: seq<(Element, seq<DotKey>)>, tombstones: seq<DotKey>)

  ghost predicate ListsDots(lists: map<Element, seq<DotKey>>, m: Entries) {
    lists.Keys == m.Keys && forall e :: e in m ==> IsDotList(lists[e], m[e])
  }

  /** `i` is a serialised form of the set. */
  ghost predicate IsSetImage(i: SetImage, m: Entries, tombs: set<DotKey>) {
    && ListsDots(FromList(i.entries), m) && IsListing(i.entries, FromList(i.entries))
    && IsDotList(i.tombstones, tombs)
  }

  function RestoredEntries(l: seq<(Element, seq<DotKey>)>): Entries {
    var lists := FromList(l);
    map e | e in lists :: SetFrom(lists[e])
  }

  lemma SetRoundTrip(i: SetImage, m: Entries, tombs: set<DotKey>)
    requires IsSetImage(i, m, tombs)
    ensures RestoredEntries(i.entries) == m && SetFrom(i.tombstones) == tombs
  {
    DotListRoundTrip(i.tombstones, tombs);
    forall e | e in m ensures SetFrom(FromList(i.entries)[e]) == m[e] { DotListRoundTrip(FromList(i.entries)[e], m[e]); }
  }

  ghost predicate AllEncoded(m: Entries, tombs: set<DotKey>) {
    Encoded(tombs) && forall e :: e in m ==> Encoded(m[e])
  }

  lemma SetImageIsUnique(i: SetImage, j: SetImage, m: Entries, tombs: set<DotKey>)
    requires IsSetImage(i, m, tombs) && IsSetImage(j, m, tombs) && AllEncoded(m, tombs)
    ensures i == j
  {
    var a, b := FromList(i.entries), FromList(j.entries);
    forall e | e in m ensures a[e] == b[e] { DotListIsUnique(a[e], b[e], m[e]); }
    assert a == b;
    ListingIsUnique(i.entries, j.entries, a);
    DotListIsUnique(i.tombstones, j.tombstones, tombs);
  }

  datatype SetOutcome = Image(image: SetImage) | UndecodableDot

  ghost predicate HasBadDot(m: Entries, tombs: set<DotKey>) {
    (exists k :: k in tombs && !DecodeDot(k).Ok?) || (exists e, k :: e in m && k in m[e] && !DecodeDot(k).Ok?)
  }

  /** `orsetSerialize` */
  method SerializeSet(s: ORSet) returns (r: SetOutcome)
    ensures r.UndecodableDot? <==> HasBadDot(s.entries, s.tombstones)
    ensures r.Image? ==> IsSetImage(r.image, s.entries, s.tombstones)
  {
    var lists: map<Element, seq<DotKey>>, rest := map[], s.entries.Keys;
    while rest != {}
      invariant rest <= s.entries.Keys && lists.Keys == s.entries.Keys - rest
      invariant forall e :: e in lists ==> IsDotList(lists[e], s.entries[e])
      invariant forall e, k :: e in lists && k in s.entries[e] ==> DecodeDot(k).Ok?
      decreases |rest|
    {
      var e :| e in rest;
      var dots := SortDots(s.entries[e]);
      if dots.NotADot? {
        return UndecodableDot;
      }
      rest := rest - {e};
      lists := lists[e := dots.dots];
    }
    var entries := SortedEntries(lists);
    ListingRoundTrip(entries, lists);
    var tombs := SortDots(s.tombstones);
    if tombs.NotADot? {
      return UndecodableDot;
    }
    r := Image(SetImage(entries, tombs.dots));
  }

  /** `orsetDeserialize` */
  method DeserializeSet(i: SetImage) returns (s: ORSet)
    ensures fresh(s) && s.entries == RestoredEntries(i.entries) && s.tombstones == SetFrom(i.tombstones)
  {
    var entries: Entries := map[];
    for n := 0 to |i.entries|
      invariant entries == RestoredEntries(i.entries[..n])
    {
      assert i.entries[..n + 1][..n] == i.entries[..n];
      var (element, dots) := i.entries[n];
      entries := entries[element := SetFrom(dots)];
    }
    assert i.entries[..|i.entries|] == i.entries;
    var tombstones: set<DotKey> := {};
    for n := 0 to |i.tombstones|
      invariant tombstones == SetFrom(i.tombstones[..n])
    {
      assert i.tombstones[..n + 1] == i.tombstones[..n] + [i.tombstones[n]];
      tombstones := tombstones + {i.tombstones[n]};
    }
    assert i.tombstones[..|i.tombstones|] == i.tombstones;
    s := new ORSet();
    s.entries, s.tombstones := entries, tombstones;
  }

  // ---------------------------------------------------------------- version vectors

  predicate NoZeros(c: Counters) {
    forall w :: w in c ==> c[w] > 0
  }

  datatype Fields = Fields(fields: seq<(string, int)>) | ZeroCounter(writer: string)

  /** `vvSerialize`: a zero counter is refused. */
  method SerializeVV(c: Counters) returns (r: Fields)
    ensures r.Fields? <==> NoZeros(c)
    ensures r.Fields? ==> IsListing(r.fields, c)
  {
    var widened: map<string, int> := c;
    var sorted := SortedEntries(widened);
    for n := 0 to |sorted|
      invariant forall i :: 0 <= i < n ==> sorted[i].1 > 0
    {
      if sorted[n].1 == 0 {
        return ZeroCounter(sorted[n].0);
      }
    }
    forall w | w in c ensures c[w] > 0 {
      var i :| 0 <= i < |sorted| && sorted[i].0 == w;
    }
    r := Fields(sorted);
  }

  datatype Vector = Vector(counters: Counters) | InvalidCounter

  /** Reading fields back: negative counters are refused and zero counters dropped. */
  method DeserializeVV(fields: seq<(string, int)>) returns (r: Vector)
    ensures r.InvalidCounter? <==> exists i :: 0 <= i < |fields| && fields[i].1 < 0
    ensures r.Vector? && KeysDiffer(fields) ==> Nonzero(FromList(fields), r.counters)
  {
    var vv: Counters := map[];
    for n := 0 to |fields|
      invariant forall i :: 0 <= i < n ==> fields[i].1 >= 0
      invariant KeysDiffer(fields) ==> Nonzero(FromList(fields[..n]), vv)
    {
      var (w, counter) := fields[n];
      if counter < 0 {
        return InvalidCounter;
      }
      assert fields[..n + 1][..n] == fields[..n];
      FromListKeys(fields[..n], w);
      if counter > 0 {
        vv := vv[w := counter];
      }
    }
    assert fields[..|fields|] == fields;
    r := Vector(vv);
  }

  ghost predicate KeysDiffer<V>(l: seq<(string, V)>) {
    forall i, j :: 0 <= i < j < |l| ==> l[i].0 != l[j].0
  }

  ghost predicate Nonzero(m: map<string, int>, vv: Counters) {
    forall w :: (w in vv <==> w in m && m[w] > 0) && (w in vv ==> vv[w] == m[w])
  }

  // ---------------------------------------------------------------- the full state

  datatype EventId = EventId(lamport: nat, writerId: string, patchSha: string, opIndex: nat)

  /** Registers are copied field by field, so they are their own image. */
  datatype Register<V> = NoRegister | Register(eventId: EventId, value: V)

  datatype FullState<V> = FullState(
    nodeAlive: ORSet, edgeAlive: ORSet, prop: map<string, Register<V>>, observedFrontier: Counters, edgeBirthEvent: map<string, EventId>)

  datatype StateImage<V> = StateImage(
    nodeAlive: SetImage, edgeAlive: SetImage, prop: seq<(string, Register<V>)>, observedFrontier: seq<(string, int)>,
    edgeBirthEvent: seq<(string, EventId)>)

  datatype StateOutcome<V> = StateImaged(image: StateImage<V>) | BadState

  ghost predicate Unwritable<V>(s: FullState<V>)
    reads s.nodeAlive, s.edgeAlive
  {
    || HasBadDot(s.nodeAlive.entries, s.nodeAlive.tombstones) || HasBadDot(s.edgeAlive.entries, s.edgeAlive.tombstones)
    || !NoZeros(s.observedFrontier)
  }

  ghost predicate IsStateImage<V>(i: StateImage<V>, s: FullState<V>)
    reads s.nodeAlive, s.edgeAlive
  {
    && IsSetImage(i.nodeAlive, s.nodeAlive.entries, s.nodeAlive.tombstones)
    && IsSetImage(i.edgeAlive, s.edgeAlive.entries, s.edgeAlive.tombstones)
    && IsListing(i.prop, s.prop) && IsListing(i.observedFrontier, s.observedFrontier) && IsListing(i.edgeBirthEvent, s.edgeBirthEvent)
  }

  /** Serialisation is canonical: a state with encoded dots has one image. */
  lemma StateImageIsUnique<V>(i: StateImage<V>, j: StateImage<V>, s: FullState<V>)
    requires IsStateImage(i, s) && IsStateImage(j, s)
    requires AllEncoded(s.nodeAlive.entries, s.nodeAlive.tombstones) && AllEncoded(s.edgeAlive.entries, s.edgeAlive.tombstones)
    ensures i == j
  {
    SetImageIsUnique(i.nodeAlive, j.nodeAlive, s.nodeAlive.entries, s.nodeAlive.tombstones);
    SetImageIsUnique(i.edgeAlive, j.edgeAlive, s.edgeAlive.entries, s.edgeAlive.tombstones);
    ListingIsUnique(i.prop, j.prop, s.prop);
    ListingIsUnique(i.observedFrontier, j.observedFrontier, s.observedFrontier);
    ListingIsUnique(i.edgeBirthEvent, j.edgeBirthEvent, s.edgeBirthEvent);
  }

  /** `serializeFullStateV5` before the byte codec. */
  method SerializeFullState<V(!new, ==)>(s: FullState<V>) returns (r: StateOutcome<V>)
    ensures r.BadState? <==> Unwritable(s)
    ensures r.StateImaged? ==> IsStateImage(r.image, s)
  {
    var nodes := SerializeSet(s.nodeAlive);
    if nodes.UndecodableDot? { return BadState; }
    var edges := SerializeSet(s.edgeAlive);
    if edges.UndecodableDot? { return BadState; }
    var prop := SortedEntries(s.prop);
    var frontier := SerializeVV(s.observedFrontier);
    if frontier.ZeroCounter? { return BadState; }
    var births := SortedEntries(s.edgeBirthEvent);
    r := StateImaged(StateImage(nodes.image, edges.image, prop, frontier.fields, births));
  }

  method FillMap<V>(l: seq<(string, V)>) returns (m: map<string, V>)
    ensures m == FromList(l)
  {
    m := map[];
    for n := 0 to |l|
      invariant m == FromList(l[..n])
    {
      assert l[..n + 1][..n] == l[..n];
      m := m[l[n].0 := l[n].1];
    }
    assert l[..|l|] == l;
  }

  datatype Loaded<V> = Loaded(state: FullState<V>) | InvalidFrontier

  /** `deserializeFullStateV5` after the byte codec, for the current format. */
  method DeserializeFullState<V>(i: StateImage<V>) returns (r: Loaded<V>)
    ensures r.InvalidFrontier? <==> exists n :: 0 <= n < |i.observedFrontier| && i.observedFrontier[n].1 < 0
    ensures r.Loaded? ==> fresh(r.state.nodeAlive) && fresh(r.state.edgeAlive)
    ensures r.Loaded? ==> r.state.nodeAlive.entries == RestoredEntries(i.nodeAlive.entries)
    ensures r.Loaded? ==> r.state.nodeAlive.tombstones == SetFrom(i.nodeAlive.tombstones)
    ensures r.Loaded? ==> r.state.edgeAlive.entries == RestoredEntries(i.edgeAlive.entries)
    ensures r.Loaded? ==> r.state.edgeAlive.tombstones == SetFrom(i.edgeAlive.tombstones)
    ensures r.Loaded? ==> r.state.prop == FromList(i.prop) && r.state.edgeBirthEvent == FromList(i.edgeBirthEvent)
    ensures r.Loaded? && KeysDiffer(i.observedFrontier) ==> Nonzero(FromList(i.observedFrontier), r.state.observedFrontier)
  {
    var nodes := DeserializeSet(i.nodeAlive);
    var edges := DeserializeSet(i.edgeAlive);
    var prop := FillMap(i.prop);
    var frontier := DeserializeVV(i.observedFrontier);
    if frontier.InvalidCounter? { return InvalidFrontier; }
    var births := FillMap(i.edgeBirthEvent);
    r := Loaded(FullState(nodes, edges, prop, frontier.counters, births));
  }

  ghost predicate SameState<V>(s: FullState<V>, t: FullState<V>)
    reads s.nodeAlive, s.edgeAlive, t.nodeAlive, t.edgeAlive
  {
    && t.nodeAlive.entries == s.nodeAlive.entries && t.nodeAlive.tombstones == s.nodeAlive.tombstones
    && t.edgeAlive.entries == s.edgeAlive.entries && t.edgeAlive.tombstones == s.edgeAlive.tombstones
    && t.prop == s.prop && t.observedFrontier == s.observedFrontier && t.edgeBirthEvent == s.edgeBirthEvent
  }

  datatype Reloaded<V> = Reloaded(state: FullState<V>) | Unsaved

  /** Saving a state and loading it again gives the same state in new objects; only malformed dots and zero counters
      prevent it. */
  method SaveAndLoad<V(!new, ==)>(s: FullState<V>) returns (r: Reloaded<V>)
    ensures r.Unsaved? <==> Unwritable(s)
    ensures r.Reloaded? ==> fresh(r.state.nodeAlive) && fresh(r.state.edgeAlive) && SameState(s, r.state)
  {
    var saved := SerializeFullState(s);
    if saved.BadState? { return Unsaved; }
    var i := saved.image;
    SetRoundTrip(i.nodeAlive, s.nodeAlive.entries, s.nodeAlive.tombstones);
    SetRoundTrip(i.edgeAlive, s.edgeAlive.entries, s.edgeAlive.tombstones);
    ListingRoundTrip(i.prop, s.prop);
    ListingRoundTrip(i.edgeBirthEvent, s.edgeBirthEvent);
    FrontierRoundTrip(i.observedFrontier, s.observedFrontier);
    var loaded := DeserializeFullState(i);
    assert forall vv: Counters :: Nonzero(FromList(i.observedFrontier), vv) ==> vv == s.observedFrontier;
    r := Reloaded(loaded.state);
  }

  lemma FrontierRoundTrip(l: seq<(string, int)>, c: Counters)
    requires IsListing(l, c) && NoZeros(c)
    ensures KeysDiffer(l) && forall n :: 0 <= n < |l| ==> l[n].1 > 0
    ensures forall vv: Counters :: Nonzero(FromList(l), vv) ==> vv == c
  {
    var widened: map<string, int> := c;
    ListingRoundTrip(l, widened);
    forall i, j | 0 <= i < j < |l| ensures l[i].0 != l[j].0 { StringLessTotal(l[i].0, l[j].0); }
    forall vv: Counters | Nonzero(FromList(l), vv) ensures vv == c {
      forall w ensures w in vv <==> w in c { assert w in vv <==> w in widened && widened[w] > 0; }
    }
  }
}
