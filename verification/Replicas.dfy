/** Replicas that add, remove, synchronise and collect garbage: what holds over whole runs. */
module Replicas {
  import opened Dots
  import opened VersionVectors
  import opened ORSets

  /** What happened, in order: an add with its dot, or a remove with everything its replica had seen. */
  datatype Event = Added(element: Element, key: DotKey) | Removed(element: Element, seen: set<nat>)

  /** `past` is a history variable: the events in the causal past of the replica. */
  datatype Replica = Replica(content: Content, vv: Counters, past: set<nat>)

  datatype System = System(replicas: seq<Replica>, events: seq<Event>)

  datatype Step =
    | Add(i: nat, element: Element)
    | Remove(i: nat, element: Element)
    | Sync(i: nat, j: nat)
    | Compact(i: nat, vv: Counters)

  ghost predicate Enabled(ws: seq<string>, t: Step) {
    t.i < |ws| && (t.Sync? ==> t.j < |ws|)
  }

  /** One writer id per replica. */
  ghost predicate Writers(ws: seq<string>) {
    && (forall i :: 0 <= i < |ws| ==> ws[i] != "")
    && (forall i, j :: 0 <= i < j < |ws| ==> ws[i] != ws[j])
  }

  ghost function NextDot(ws: seq<string>, s: System, i: nat): Dot
    requires i < |ws| == |s.replicas|
  {
    Dot(ws[i], CounterOf(s.replicas[i].vv, ws[i]) + 1)
  }

  /** The new state of the acting replica. */
  ghost function Acted(ws: seq<string>, s: System, t: Step): Replica
    requires Enabled(ws, t) && |s.replicas| == |ws|
  {
    var r, n := s.replicas[t.i], |s.events|;
    match t
    case Add(i, e) =>
      var d := NextDot(ws, s, i);
      Replica(Content(r.content.adds + {(e, EncodeDot(d))}, r.content.tombs), r.vv[ws[i] := d.counter], r.past + {n})
    case Remove(i, e) =>
      Replica(Content(r.content.adds, r.content.tombs + LiveDots(r.content, e)), r.vv, r.past + {n})
    case Sync(i, j) =>
      var q := s.replicas[j];
      Replica(Joined(r.content, q.content), Merged(r.vv, q.vv), r.past + q.past)
    case Compact(i, vv) =>
      Replica(Compacted(r.content, vv), r.vv, r.past)
  }

  ghost function NewEvents(ws: seq<string>, s: System, t: Step): seq<Event>
    requires Enabled(ws, t) && |s.replicas| == |ws|
  {
    match t
    case Add(i, e) => [Added(e, EncodeDot(NextDot(ws, s, i)))]
    case Remove(i, e) => [Removed(e, s.replicas[i].past)]
    case _ => []
  }

  ghost function Apply(ws: seq<string>, s: System, t: Step): (r: System)
    requires |s.replicas| == |ws|
    ensures |r.replicas| == |ws|
  {
    if Enabled(ws, t) then System(s.replicas[t.i := Acted(ws, s, t)], s.events + NewEvents(ws, s, t)) else s
  }

  ghost function Initial(ws: seq<string>): System {
    System(seq(|ws|, i => Replica(Content({}, {}), map[], {})), [])
  }

  ghost function Run(ws: seq<string>, steps: seq<Step>): (r: System)
    ensures |r.replicas| == |ws|
  {
    if steps == [] then Initial(ws) else Apply(ws, Run(ws, steps[..|steps| - 1]), steps[|steps| - 1])
  }

  lemma RunStep(ws: seq<string>, steps: seq<Step>, t: Step)
    ensures Run(ws, steps + [t]) == Apply(ws, Run(ws, steps), t)
  {
    assert (steps + [t])[..|steps|] == steps;
  }

  /** The same run with all compactions left out. */
  ghost function Uncompacted(steps: seq<Step>): seq<Step> {
    if steps == [] then [] else
      Uncompacted(steps[..|steps| - 1]) + if steps[|steps| - 1].Compact? then [] else [steps[|steps| - 1]]
  }

  /** A dot that is live at some replica. */
  ghost predicate LiveSomewhere(s: System, k: DotKey) {
    exists j, e {:trigger Live(s.replicas[j].content, e, k)} :: 0 <= j < |s.replicas| && Live(s.replicas[j].content, e, k)
  }

  /** The condition under which a compaction is safe: it takes no dot that is live anywhere. */
  ghost predicate Safe(s: System, i: nat, vv: Counters)
    requires i < |s.replicas|
  {
    forall k :: k in Dropped(s.replicas[i].content, vv) ==> !LiveSomewhere(s, k)
  }

  ghost predicate AllSafe(ws: seq<string>, steps: seq<Step>) {
    steps == [] ||
    (var before, t := steps[..|steps| - 1], steps[|steps| - 1];
     AllSafe(ws, before) && (t.Compact? && t.i < |ws| ==> Safe(Run(ws, before), t.i, t.vv)))
  }

  // ------------------------------------------------- the contents follow from the history

  ghost function AddsOf(ev: seq<Event>, past: set<nat>): set<(Element, DotKey)> {
    set n | n in past && n < |ev| && ev[n].Added? :: (ev[n].element, ev[n].key)
  }

  /** The add `m` was seen by the remove `n`. */
  ghost predicate Kills(ev: seq<Event>, n: nat, m: nat) {
    n < |ev| && m < |ev| && ev[n].Removed? && ev[m].Added? && m in ev[n].seen && ev[m].element == ev[n].element
  }

  ghost predicate IsTomb(ev: seq<Event>, past: set<nat>, k: DotKey) {
    exists n: nat, m: nat :: n in past && Kills(ev, n, m) && ev[m].key == k
  }

  ghost predicate TombsAre(ev: seq<Event>, past: set<nat>, tombs: set<DotKey>) {
    forall k :: k in tombs <==> IsTomb(ev, past, k)
  }

  /** Removes saw only what came before them. */
  ghost predicate Ordered(ev: seq<Event>) {
    forall n, m {:trigger m in ev[n].seen} :: 0 <= n < |ev| && ev[n].Removed? && m in ev[n].seen ==> m < n
  }

  ghost predicate InHistory(ev: seq<Event>, past: set<nat>) {
    forall n :: n in past ==> n < |ev|
  }

  /** A replica without compactions is a function of its causal past. */
  ghost predicate Explained(ev: seq<Event>, r: Replica) {
    InHistory(ev, r.past) && r.content.adds == AddsOf(ev, r.past) && TombsAre(ev, r.past, r.content.tombs)
  }

  ghost predicate Issued(ws: seq<string>, s: System, k: DotKey) {
    && DecodeDot(k).Ok? && EncodeDot(DecodeDot(k).dot) == k
    && forall i :: 0 <= i < |ws| == |s.replicas| && DecodeDot(k).dot.writerId == ws[i] ==> Covers(s.replicas[i].vv, DecodeDot(k).dot)
  }

  ghost predicate OnceOnly(ev: seq<Event>) {
    forall n, m :: 0 <= n < m < |ev| && ev[n].Added? && ev[m].Added? ==> ev[n].key != ev[m].key
  }

  ghost predicate AllIssued(ws: seq<string>, s: System, ev: seq<Event>) {
    forall n {:trigger Issued(ws, s, ev[n].key)} :: 0 <= n < |ev| && ev[n].Added? ==> Issued(ws, s, ev[n].key)
  }

  /** Every dot was handed out, and none of them twice. */
  ghost predicate Unique(ws: seq<string>, s: System) {
    AllIssued(ws, s, s.events) && OnceOnly(s.events)
  }

  ghost predicate Sound(ws: seq<string>, s: System) {
    && |s.replicas| == |ws| && Ordered(s.events) && Unique(ws, s)
    && forall j :: 0 <= j < |ws| ==> Explained(s.events, s.replicas[j])
  }

  lemma FreshDot(ws: seq<string>, s: System, i: nat)
    requires Writers(ws) && i < |ws| && Sound(ws, s)
    ensures forall n :: 0 <= n < |s.events| && s.events[n].Added? ==> s.events[n].key != EncodeDot(NextDot(ws, s, i))
    ensures DecodeDot(EncodeDot(NextDot(ws, s, i))) == Ok(NextDot(ws, s, i))
  {
    DecodeUndoesEncode(NextDot(ws, s, i));
    forall n | 0 <= n < |s.events| && s.events[n].Added? ensures s.events[n].key != EncodeDot(NextDot(ws, s, i)) {
      assert Issued(ws, s, s.events[n].key);
    }
  }

  lemma NextDotIsNew(ws: seq<string>, s: System, i: nat, j: nat)
    requires Writers(ws) && i < |ws| && j < |ws| && Sound(ws, s)
    ensures var k := EncodeDot(NextDot(ws, s, i));
            k !in s.replicas[j].content.tombs && forall e :: (e, k) !in s.replicas[j].content.adds
  {
    FreshDot(ws, s, i);
    var k := EncodeDot(NextDot(ws, s, i));
    assert Explained(s.events, s.replicas[j]);
    assert !IsTomb(s.events, s.replicas[j].past, k);
  }

  lemma IssuedStays(ws: seq<string>, s: System, t: Step, k: DotKey)
    requires |s.replicas| == |ws| && Issued(ws, s, k)
    ensures Issued(ws, Apply(ws, s, t), k)
  {
    if Enabled(ws, t) {
      var w := DecodeDot(k).dot.writerId;
      assert CounterOf(s.replicas[t.i].vv, w) <= CounterOf(Acted(ws, s, t).vv, w);
    }
  }

  ghost predicate Holds(c: Content, k: DotKey) {
    k in c.tombs || exists e :: (e, k) in c.adds
  }

  /** Whatever a replica holds was handed out, and its writer remembers. */
  ghost predicate HeldIsIssued(ws: seq<string>, s: System) {
    forall j, k {:trigger Holds(s.replicas[j].content, k)} :: 0 <= j < |s.replicas| && Holds(s.replicas[j].content, k) ==> Issued(ws, s, k)
  }

  /** A step shows a replica nothing but the new dot and what some replica held before. */
  lemma HeldBefore(ws: seq<string>, s: System, t: Step, k: DotKey)
    requires |s.replicas| == |ws| && Enabled(ws, t) && Holds(Acted(ws, s, t).content, k)
    ensures Holds(s.replicas[t.i].content, k) || (t.Sync? && Holds(s.replicas[t.j].content, k))
            || (t.Add? && k == EncodeDot(NextDot(ws, s, t.i)))
  {
    var a := Acted(ws, s, t).content;
    if k !in a.tombs {
      var e :| (e, k) in a.adds;
      assert (e, k) in s.replicas[t.i].content.adds || (t.Sync? && (e, k) in s.replicas[t.j].content.adds)
             || (t.Add? && k == EncodeDot(NextDot(ws, s, t.i)));
    }
  }

  lemma HeldStep(ws: seq<string>, s: System, t: Step)
    requires Writers(ws) && |s.replicas| == |ws| && HeldIsIssued(ws, s)
    ensures HeldIsIssued(ws, Apply(ws, s, t))
  {
    if Enabled(ws, t) {
      var u := Apply(ws, s, t);
      forall j, k | 0 <= j < |u.replicas| && Holds(u.replicas[j].content, k)
        ensures Issued(ws, u, k)
      {
        if j == t.i { HeldBefore(ws, s, t, k); }
        if t.Add? && k == EncodeDot(NextDot(ws, s, t.i)) {
          DecodeUndoesEncode(NextDot(ws, s, t.i));
        } else {
          assert Issued(ws, s, k);
          IssuedStays(ws, s, t, k);
        }
      }
    }
  }

  lemma {:induction false} HeldRun(ws: seq<string>, steps: seq<Step>)
    requires Writers(ws)
    ensures HeldIsIssued(ws, Run(ws, steps))
  {
    if steps != [] {
      HeldRun(ws, steps[..|steps| - 1]);
      HeldStep(ws, Run(ws, steps[..|steps| - 1]), steps[|steps| - 1]);
    }
  }

  /** After any run, with compactions of any kind, `vvIncrement` hands out a dot that no replica has heard of. */
  lemma FreshDotIsUnknown(ws: seq<string>, steps: seq<Step>, i: nat, j: nat)
    requires Writers(ws) && i < |ws| && j < |ws|
    ensures var s := Run(ws, steps); !Holds(s.replicas[j].content, EncodeDot(NextDot(ws, s, i)))
  {
    var s := Run(ws, steps);
    var k := EncodeDot(NextDot(ws, s, i));
    HeldRun(ws, steps);
    DecodeUndoesEncode(NextDot(ws, s, i));
    assert Holds(s.replicas[j].content, k) ==> Issued(ws, s, k);
  }

  lemma IssuedGrows(ws: seq<string>, u: System, ev: seq<Event>, more: seq<Event>)
    requires AllIssued(ws, u, ev) && AllIssued(ws, u, more)
    ensures AllIssued(ws, u, ev + more)
  {
    var all := ev + more;
    forall n | 0 <= n < |all| && all[n].Added? ensures Issued(ws, u, all[n].key) {
      if n < |ev| {
        assert Issued(ws, u, ev[n].key);
      } else {
        assert Issued(ws, u, more[n - |ev|].key);
      }
    }
  }

  lemma OnceOnlyGrows(ev: seq<Event>, more: seq<Event>)
    requires OnceOnly(ev) && |more| <= 1
    requires forall n :: 0 <= n < |ev| && ev[n].Added? && |more| == 1 && more[0].Added? ==> ev[n].key != more[0].key
    ensures OnceOnly(ev + more)
  {
  }

  lemma OrderedGrows(ev: seq<Event>, more: seq<Event>)
    requires Ordered(ev) && |more| <= 1
    requires forall m :: 0 <= m < |more| && more[m].Removed? ==> InHistory(ev, more[m].seen)
    ensures Ordered(ev + more)
  {
    var all := ev + more;
    forall n, m | 0 <= n < |all| && all[n].Removed? && m in all[n].seen ensures m < n {
      if n < |ev| { assert all[n] == ev[n]; } else { assert all[n] == more[n - |ev|]; }
    }
  }

  lemma NewDotIsIssued(ws: seq<string>, s: System, t: Step)
    requires Writers(ws) && Sound(ws, s) && t.Add? && Enabled(ws, t)
    ensures Issued(ws, Apply(ws, s, t), EncodeDot(NextDot(ws, s, t.i)))
  {
    DecodeUndoesEncode(NextDot(ws, s, t.i));
  }

  lemma UniqueStays(ws: seq<string>, s: System, t: Step)
    requires Writers(ws) && Sound(ws, s)
    ensures Unique(ws, Apply(ws, s, t)) && Ordered(Apply(ws, s, t).events)
  {
    if Enabled(ws, t) {
      var u, more := Apply(ws, s, t), NewEvents(ws, s, t);
      forall n | 0 <= n < |s.events| && s.events[n].Added? ensures Issued(ws, u, s.events[n].key) {
        assert Issued(ws, s, s.events[n].key);
        IssuedStays(ws, s, t, s.events[n].key);
      }
      if t.Add? {
        FreshDot(ws, s, t.i);
        NewDotIsIssued(ws, s, t);
      }
      assert Explained(s.events, s.replicas[t.i]);
      IssuedGrows(ws, u, s.events, more);
      OnceOnlyGrows(s.events, more);
      OrderedGrows(s.events, more);
    }
  }

  lemma HistoryGrows(ev: seq<Event>, more: seq<Event>, r: Replica)
    requires Ordered(ev) && Explained(ev, r)
    ensures Explained(ev + more, r)
  {
    var all := ev + more;
    assert AddsOf(all, r.past) == AddsOf(ev, r.past);
    forall k ensures IsTomb(all, r.past, k) <==> IsTomb(ev, r.past, k) {
      if n: nat, m: nat :| n in r.past && Kills(all, n, m) && all[m].key == k {
        assert ev[n].Removed? && m in ev[n].seen;
        assert Kills(ev, n, m);
      }
      if n: nat, m: nat :| n in r.past && Kills(ev, n, m) && ev[m].key == k {
        assert Kills(all, n, m);
      }
    }
  }

  lemma AddExplained(ev: seq<Event>, r: Replica, e: Element, k: DotKey, vv: Counters)
    requires Ordered(ev) && Explained(ev, r)
    ensures Explained(ev + [Added(e, k)], Replica(Content(r.content.adds + {(e, k)}, r.content.tombs), vv, r.past + {|ev|}))
  {
    var all, n := ev + [Added(e, k)], |ev|;
    HistoryGrows(ev, [Added(e, k)], r);
    assert all[n] == Added(e, k);
    assert AddsOf(all, r.past + {n}) == AddsOf(all, r.past) + {(e, k)};
    forall x ensures IsTomb(all, r.past + {n}, x) <==> IsTomb(all, r.past, x) {
    }
  }

  lemma RemoveExplained(ev: seq<Event>, r: Replica, e: Element)
    requires Ordered(ev) && Explained(ev, r)
    ensures Explained(ev + [Removed(e, r.past)], Replica(Content(r.content.adds, r.content.tombs + LiveDots(r.content, e)), r.vv, r.past + {|ev|}))
  {
    var all, n := ev + [Removed(e, r.past)], |ev|;
    HistoryGrows(ev, [Removed(e, r.past)], r);
    assert all[n] == Removed(e, r.past);
    assert AddsOf(all, r.past + {n}) == AddsOf(all, r.past);
    forall x ensures IsTomb(all, r.past + {n}, x) <==> x in r.content.tombs + LiveDots(r.content, e) {
      if IsTomb(all, r.past + {n}, x) {
        var a: nat, m: nat :| a in r.past + {n} && Kills(all, a, m) && all[m].key == x;
        if a == n {
          assert (e, x) in r.content.adds;
        } else {
          assert IsTomb(all, r.past, x);
        }
      }
      if Live(r.content, e, x) {
        var m :| m in r.past && m < |ev| && ev[m].Added? && (ev[m].element, ev[m].key) == (e, x);
        assert Kills(all, n, m);
      }
    }
  }

  lemma SyncExplained(ev: seq<Event>, r: Replica, q: Replica, vv: Counters)
    requires Explained(ev, r) && Explained(ev, q)
    ensures Explained(ev, Replica(Joined(r.content, q.content), vv, r.past + q.past))
  {
    assert AddsOf(ev, r.past + q.past) == AddsOf(ev, r.past) + AddsOf(ev, q.past);
    forall k ensures IsTomb(ev, r.past + q.past, k) <==> IsTomb(ev, r.past, k) || IsTomb(ev, q.past, k) {
    }
  }

  lemma SoundStep(ws: seq<string>, s: System, t: Step)
    requires Writers(ws) && Sound(ws, s) && !t.Compact?
    ensures Sound(ws, Apply(ws, s, t))
  {
    UniqueStays(ws, s, t);
    if Enabled(ws, t) {
      var u, r := Apply(ws, s, t), s.replicas[t.i];
      assert Explained(s.events, r);
      match t {
        case Add(i, e) => AddExplained(s.events, r, e, EncodeDot(NextDot(ws, s, i)), Acted(ws, s, t).vv);
        case Remove(i, e) => RemoveExplained(s.events, r, e);
        case Sync(i, j) =>
          assert Explained(s.events, s.replicas[j]);
          SyncExplained(s.events, r, s.replicas[j], Acted(ws, s, t).vv);
          assert s.events + [] == s.events;
      }
      forall j | 0 <= j < |ws| ensures Explained(u.events, u.replicas[j]) {
        if j != t.i {
          HistoryGrows(s.events, NewEvents(ws, s, t), s.replicas[j]);
        }
      }
    }
  }

  lemma InitialIsSound(ws: seq<string>)
    ensures Sound(ws, Initial(ws))
  {
    forall j | 0 <= j < |ws| ensures Explained([], Initial(ws).replicas[j]) {
      assert AddsOf([], {}) == {};
      assert forall k :: !IsTomb([], {}, k);
    }
  }

  // ------------------------------------------------- compaction cannot be seen

  /** `r` ran with compactions and `s` without: nothing that may be observed differs, and what `r` forgot is dead. */
  ghost predicate Agree(r: System, s: System) {
    && |r.replicas| == |s.replicas| && r.events == s.events
    && (forall j :: 0 <= j < |r.replicas| ==> Matches(r.replicas[j], s.replicas[j]))
    && (forall j, k :: 0 <= j < |r.replicas| && Forgotten(r.replicas[j], s.replicas[j], k) ==> !LiveSomewhere(r, k))
  }

  ghost predicate Matches(a: Replica, b: Replica) {
    && a.vv == b.vv && a.past == b.past
    && a.content.adds <= b.content.adds && a.content.tombs <= b.content.tombs
    && SameLive(a.content, b.content)
  }

  ghost predicate SameLive(a: Content, b: Content) {
    forall e, k :: Live(a, e, k) <==> Live(b, e, k)
  }

  /** Tombstoned in the uncompacted replica only. */
  ghost predicate Forgotten(a: Replica, b: Replica, k: DotKey) {
    k in b.content.tombs && k !in a.content.tombs
  }

  lemma MatchAdd(a: Replica, b: Replica, e: Element, k: DotKey, vv: Counters, past: set<nat>)
    requires Matches(a, b) && k !in b.content.tombs
    ensures Matches(Replica(Content(a.content.adds + {(e, k)}, a.content.tombs), vv, past), Replica(Content(b.content.adds + {(e, k)}, b.content.tombs), vv, past))
  {
    var x, y := Content(a.content.adds + {(e, k)}, a.content.tombs), Content(b.content.adds + {(e, k)}, b.content.tombs);
    forall f, l ensures Live(x, f, l) <==> Live(y, f, l) {
      assert Live(a.content, f, l) <==> Live(b.content, f, l);
    }
  }

  lemma MatchRemove(a: Replica, b: Replica, e: Element, past: set<nat>)
    requires Matches(a, b)
    ensures LiveDots(a.content, e) == LiveDots(b.content, e)
    ensures Matches(Replica(Content(a.content.adds, a.content.tombs + LiveDots(a.content, e)), a.vv, past),
                    Replica(Content(b.content.adds, b.content.tombs + LiveDots(b.content, e)), b.vv, past))
  {
    forall k ensures k in LiveDots(a.content, e) <==> k in LiveDots(b.content, e) {
      assert Live(a.content, e, k) <==> Live(b.content, e, k);
    }
    var x, y := Content(a.content.adds, a.content.tombs + LiveDots(a.content, e)), Content(b.content.adds, b.content.tombs + LiveDots(b.content, e));
    forall f, l ensures Live(x, f, l) <==> Live(y, f, l) {
      assert Live(a.content, f, l) <==> Live(b.content, f, l);
    }
  }

  /** Where the forgotten dots are dead, joining two replicas gives the same live dots. */
  lemma MatchSync(a: Replica, b: Replica, c: Replica, d: Replica)
    requires Matches(a, b) && Matches(c, d)
    requires forall e, k :: Forgotten(a, b, k) || Forgotten(c, d, k) ==> !Live(a.content, e, k) && !Live(c.content, e, k)
    ensures Matches(Replica(Joined(a.content, c.content), Merged(a.vv, c.vv), a.past + c.past),
                    Replica(Joined(b.content, d.content), Merged(b.vv, d.vv), b.past + d.past))
  {
    var x, y := Joined(a.content, c.content), Joined(b.content, d.content);
    forall f, l ensures Live(x, f, l) <==> Live(y, f, l) {
      assert Live(a.content, f, l) <==> Live(b.content, f, l);
      assert Live(c.content, f, l) <==> Live(d.content, f, l);
    }
  }

  lemma MatchCompact(a: Replica, b: Replica, vv: Counters)
    requires Matches(a, b)
    ensures Matches(Replica(Compacted(a.content, vv), a.vv, a.past), b)
  {
    forall f, l ensures Live(Compacted(a.content, vv), f, l) <==> Live(b.content, f, l) {
      CompactedKeepsLive(a.content, vv, f);
      assert l in LiveDots(Compacted(a.content, vv), f) <==> l in LiveDots(a.content, f);
      assert Live(a.content, f, l) <==> Live(b.content, f, l);
    }
  }

  /** Compacting one side only. */
  lemma AgreeCompact(ws: seq<string>, r: System, s: System, i: nat, vv: Counters)
    requires Agree(r, s) && |s.replicas| == |ws| && i < |ws| && Safe(r, i, vv)
    ensures Agree(Apply(ws, r, Compact(i, vv)), s)
  {
    var u := Apply(ws, r, Compact(i, vv));
    MatchCompact(r.replicas[i], s.replicas[i], vv);
    forall k | LiveSomewhere(u, k) ensures LiveSomewhere(r, k) {
      var j, e :| 0 <= j < |u.replicas| && Live(u.replicas[j].content, e, k);
      assert Live(s.replicas[j].content, e, k);
      assert Live(r.replicas[j].content, e, k);
    }
    forall j, k | 0 <= j < |u.replicas| && Forgotten(u.replicas[j], s.replicas[j], k) ensures !LiveSomewhere(u, k) {
      if j == i && !Forgotten(r.replicas[i], s.replicas[i], k) {
        assert k in Dropped(r.replicas[i].content, vv);
      } else {
        assert Forgotten(r.replicas[j], s.replicas[j], k);
      }
    }
  }

  lemma ActedMatches(ws: seq<string>, r: System, s: System, t: Step)
    requires Writers(ws) && Agree(r, s) && Sound(ws, s) && !t.Compact? && Enabled(ws, t)
    ensures Matches(Acted(ws, r, t), Acted(ws, s, t))
    ensures NewEvents(ws, r, t) == NewEvents(ws, s, t)
  {
    var a, b, n := r.replicas[t.i], s.replicas[t.i], |s.events|;
    assert Matches(a, b);
    match t {
      case Add(i, e) =>
        NextDotIsNew(ws, s, i, i);
        assert NextDot(ws, r, i) == NextDot(ws, s, i);
        MatchAdd(a, b, e, EncodeDot(NextDot(ws, s, i)), Acted(ws, s, t).vv, b.past + {n});
      case Remove(i, e) => MatchRemove(a, b, e, b.past + {n});
      case Sync(i, j) =>
        var c, d := r.replicas[j], s.replicas[j];
        assert Matches(c, d);
        forall e, k | Forgotten(a, b, k) || Forgotten(c, d, k) ensures !Live(a.content, e, k) && !Live(c.content, e, k) {
          assert !LiveSomewhere(r, k);
          assert Live(r.replicas[i].content, e, k) ==> LiveSomewhere(r, k);
          assert Live(r.replicas[j].content, e, k) ==> LiveSomewhere(r, k);
        }
        MatchSync(a, b, c, d);
    }
  }

  /** A step makes no dot live except the one it hands out. */
  lemma LiveBefore(ws: seq<string>, r: System, t: Step, k: DotKey)
    requires |r.replicas| == |ws| && Enabled(ws, t) && !t.Compact? && LiveSomewhere(Apply(ws, r, t), k)
    ensures LiveSomewhere(r, k) || (t.Add? && k == EncodeDot(NextDot(ws, r, t.i)))
  {
    var u := Apply(ws, r, t);
    var j, e :| 0 <= j < |u.replicas| && Live(u.replicas[j].content, e, k);
    if j != t.i {
      assert Live(r.replicas[j].content, e, k);
    } else if t.Sync? {
      assert Live(r.replicas[t.i].content, e, k) || Live(r.replicas[t.j].content, e, k);
    } else {
      assert Live(r.replicas[t.i].content, e, k) || (t.Add? && k == EncodeDot(NextDot(ws, r, t.i)));
    }
  }

  lemma ForgottenSource(ws: seq<string>, r: System, s: System, t: Step, j: nat, k: DotKey) returns (q: nat)
    requires Agree(r, s) && |s.replicas| == |ws| && !t.Compact? && Enabled(ws, t) && j < |ws|
    requires Forgotten(Apply(ws, r, t).replicas[j], Apply(ws, s, t).replicas[j], k)
    ensures q < |ws| && Forgotten(r.replicas[q], s.replicas[q], k)
  {
    q := if j == t.i && t.Sync? && !Forgotten(r.replicas[j], s.replicas[j], k) then t.j else j;
    if t.Remove? {
      assert Matches(r.replicas[t.i], s.replicas[t.i]);
      MatchRemove(r.replicas[t.i], s.replicas[t.i], t.element, {});
    }
  }

  lemma ForgottenIsOld(ws: seq<string>, r: System, s: System, i: nat, q: nat, k: DotKey)
    requires Writers(ws) && Agree(r, s) && Sound(ws, s) && i < |ws| && q < |ws| && Forgotten(r.replicas[q], s.replicas[q], k)
    ensures k != EncodeDot(NextDot(ws, r, i))
  {
    assert Matches(r.replicas[i], s.replicas[i]);
    NextDotIsNew(ws, s, i, q);
  }

  lemma ForgottenBefore(ws: seq<string>, r: System, s: System, t: Step, j: nat, k: DotKey)
    requires Writers(ws) && Agree(r, s) && Sound(ws, s) && !t.Compact? && Enabled(ws, t) && j < |ws|
    requires Forgotten(Apply(ws, r, t).replicas[j], Apply(ws, s, t).replicas[j], k)
    ensures !LiveSomewhere(Apply(ws, r, t), k)
  {
    var q := ForgottenSource(ws, r, s, t, j, k);
    ForgottenIsOld(ws, r, s, t.i, q, k);
    if LiveSomewhere(Apply(ws, r, t), k) {
      LiveBefore(ws, r, t, k);
    }
  }

  /** The same step on both sides. */
  lemma AgreeStep(ws: seq<string>, r: System, s: System, t: Step)
    requires Writers(ws) && Agree(r, s) && Sound(ws, s) && !t.Compact?
    ensures Agree(Apply(ws, r, t), Apply(ws, s, t))
  {
    if Enabled(ws, t) {
      var u, v, a, b := Apply(ws, r, t), Apply(ws, s, t), r.replicas[t.i], s.replicas[t.i];
      assert Matches(a, b);
      ActedMatches(ws, r, s, t);
      forall j | 0 <= j < |ws| ensures Matches(u.replicas[j], v.replicas[j]) { assert Matches(r.replicas[j], s.replicas[j]); }
      forall j, k | 0 <= j < |ws| && Forgotten(u.replicas[j], v.replicas[j], k) ensures !LiveSomewhere(u, k) {
        ForgottenBefore(ws, r, s, t, j, k);
      }
    }
  }

  // ------------------------------------------------- whole runs

  lemma {:induction false} RunsAgree(ws: seq<string>, steps: seq<Step>)
    requires Writers(ws) && AllSafe(ws, steps)
    ensures Sound(ws, Run(ws, Uncompacted(steps))) && Agree(Run(ws, steps), Run(ws, Uncompacted(steps)))
  {
    if steps == [] {
      InitialIsSound(ws);
      InitialAgrees(Initial(ws));
    } else {
      var before, t := steps[..|steps| - 1], steps[|steps| - 1];
      RunsAgree(ws, before);
      var r, s := Run(ws, before), Run(ws, Uncompacted(before));
      if !t.Compact? {
        RunStep(ws, Uncompacted(before), t);
        SoundStep(ws, s, t);
        AgreeStep(ws, r, s, t);
      } else {
        assert Uncompacted(steps) == Uncompacted(before);
        if t.i < |ws| {
          AgreeCompact(ws, r, s, t.i, t.vv);
        }
      }
    }
  }

  lemma InitialAgrees(s: System)
    ensures Agree(s, s)
  {
    forall j | 0 <= j < |s.replicas| ensures Matches(s.replicas[j], s.replicas[j]) {}
  }

  ghost predicate SameView(r: System, s: System) {
    && |r.replicas| == |s.replicas|
    && forall j, e :: 0 <= j < |r.replicas| ==> LiveDots(r.replicas[j].content, e) == LiveDots(s.replicas[j].content, e)
  }

  lemma AgreementIsSameView(r: System, s: System)
    requires Agree(r, s)
    ensures SameView(r, s)
  {
    forall j, e | 0 <= j < |r.replicas| ensures LiveDots(r.replicas[j].content, e) == LiveDots(s.replicas[j].content, e) {
      assert Matches(r.replicas[j], s.replicas[j]);
      forall k ensures k in LiveDots(r.replicas[j].content, e) <==> k in LiveDots(s.replicas[j].content, e) {
        assert Live(r.replicas[j].content, e, k) <==> Live(s.replicas[j].content, e, k);
      }
    }
  }

  /** Garbage collection is invisible: in every run whose compactions take only dots that are live nowhere,
      all replicas show the live dots, and hold the version vectors, of the run without compactions. */
  lemma CollectionIsInvisible(ws: seq<string>, steps: seq<Step>)
    requires Writers(ws) && AllSafe(ws, steps)
    ensures SameView(Run(ws, steps), Run(ws, Uncompacted(steps)))
    ensures forall j :: 0 <= j < |ws| ==> Run(ws, steps).replicas[j].vv == Run(ws, Uncompacted(steps)).replicas[j].vv
  {
    RunsAgree(ws, steps);
    AgreementIsSameView(Run(ws, steps), Run(ws, Uncompacted(steps)));
    forall j | 0 <= j < |ws| ensures Run(ws, steps).replicas[j].vv == Run(ws, Uncompacted(steps)).replicas[j].vv {
      assert Matches(Run(ws, steps).replicas[j], Run(ws, Uncompacted(steps)).replicas[j]);
    }
  }

  lemma TombsGrow(ws: seq<string>, s: System, t: Step, j: nat)
    requires |s.replicas| == |ws| && j < |ws| && !t.Compact?
    ensures s.replicas[j].content.tombs <= Apply(ws, s, t).replicas[j].content.tombs
  {
  }

  lemma {:induction false} TombsStay(ws: seq<string>, steps: seq<Step>, more: seq<Step>, j: nat, k: DotKey)
    requires Writers(ws) && AllSafe(ws, steps + more) && j < |ws|
    requires AllSafe(ws, steps) ==> k in Run(ws, Uncompacted(steps)).replicas[j].content.tombs
    ensures AllSafe(ws, steps) && k in Run(ws, Uncompacted(steps + more)).replicas[j].content.tombs
    decreases |more|
  {
    if more == [] {
      assert steps + more == steps;
    } else {
      var n := |more| - 1;
      assert (steps + more)[..|steps + more| - 1] == steps + more[..n];
      TombsStay(ws, steps, more[..n], j, k);
      var s, t := Uncompacted(steps + more[..n]), more[n];
      if t.Compact? {
        assert Uncompacted(steps + more) == s;
      } else {
        assert Uncompacted(steps + more) == s + [t];
        RunStep(ws, s, t);
        TombsGrow(ws, Run(ws, s), t, j);
      }
    }
  }

  /** A dot that some replica once held as dead never comes back to life there, whatever was compacted since. */
  lemma DeadStaysDead(ws: seq<string>, steps: seq<Step>, more: seq<Step>, j: nat, e: Element, k: DotKey)
    requires Writers(ws) && AllSafe(ws, steps + more) && j < |ws| && k in Run(ws, steps).replicas[j].content.tombs
    ensures !Live(Run(ws, steps + more).replicas[j].content, e, k)
  {
    if AllSafe(ws, steps) {
      RunsAgree(ws, steps);
      assert Matches(Run(ws, steps).replicas[j], Run(ws, Uncompacted(steps)).replicas[j]);
    }
    TombsStay(ws, steps, more, j, k);
    RunsAgree(ws, steps + more);
    var a, b := Run(ws, steps + more).replicas[j], Run(ws, Uncompacted(steps + more)).replicas[j];
    assert Matches(a, b);
    assert Live(a.content, e, k) ==> Live(b.content, e, k);
  }

  /** Some add of the element in the causal past was seen by no remove of the element in that past. */
  ghost predicate SurvivingAdd(ev: seq<Event>, past: set<nat>, e: Element, a: nat) {
    && a in past && a < |ev| && ev[a].Added? && ev[a].element == e
    && forall n: nat :: n in past && n < |ev| && ev[n].Removed? && ev[n].element == e ==> a !in ev[n].seen
  }

  lemma LiveHasSurvivor(ev: seq<Event>, r: Replica, e: Element, k: DotKey)
    requires Explained(ev, r) && Live(r.content, e, k)
    ensures exists a: nat :: SurvivingAdd(ev, r.past, e, a)
  {
    var a: nat :| a in r.past && a < |ev| && ev[a].Added? && (ev[a].element, ev[a].key) == (e, k);
    forall n: nat | n in r.past && n < |ev| && ev[n].Removed? && ev[n].element == e ensures a !in ev[n].seen {
      if a in ev[n].seen {
        assert Kills(ev, n, a);
        assert IsTomb(ev, r.past, k);
      }
    }
    assert SurvivingAdd(ev, r.past, e, a);
  }

  lemma SurvivorIsLive(ev: seq<Event>, r: Replica, e: Element, a: nat)
    requires Explained(ev, r) && SurvivingAdd(ev, r.past, e, a)
    requires forall m: nat :: m < |ev| && ev[m].Added? && ev[m].key == ev[a].key ==> m == a
    ensures Live(r.content, e, ev[a].key)
  {
    assert (e, ev[a].key) in AddsOf(ev, r.past);
  }

  lemma ExplainedIsAddWins(ws: seq<string>, s: System, j: nat, e: Element)
    requires Sound(ws, s) && j < |ws|
    ensures Present(s.replicas[j].content, e) <==> exists a: nat :: SurvivingAdd(s.events, s.replicas[j].past, e, a)
  {
    var ev, r := s.events, s.replicas[j];
    assert Explained(ev, r);
    if k :| Live(r.content, e, k) {
      LiveHasSurvivor(ev, r, e, k);
    }
    if a: nat :| SurvivingAdd(ev, r.past, e, a) {
      SurvivorIsLive(ev, r, e, a);
    }
  }

  /** Add wins: in every run with safe compactions an element is present at a replica exactly when some add of it
      in the replica's causal past was seen by no remove of it in that past. */
  lemma AddWins(ws: seq<string>, steps: seq<Step>, j: nat, e: Element)
    requires Writers(ws) && AllSafe(ws, steps) && j < |ws|
    ensures var s := Run(ws, steps);
            Present(s.replicas[j].content, e) <==> exists a: nat :: SurvivingAdd(s.events, s.replicas[j].past, e, a)
  {
    RunsAgree(ws, steps);
    var r, s := Run(ws, steps), Run(ws, Uncompacted(steps));
    ExplainedIsAddWins(ws, s, j, e);
    assert Matches(r.replicas[j], s.replicas[j]);
    assert forall k :: Live(r.replicas[j].content, e, k) <==> Live(s.replicas[j].content, e, k);
  }

  /** Strong eventual consistency: replicas with the same causal past show the same elements. */
  lemma SamePastSameElements(ws: seq<string>, steps: seq<Step>, i: nat, j: nat, e: Element)
    requires Writers(ws) && AllSafe(ws, steps) && i < |ws| && j < |ws|
    requires Run(ws, steps).replicas[i].past == Run(ws, steps).replicas[j].past
    ensures Present(Run(ws, steps).replicas[i].content, e) <==> Present(Run(ws, steps).replicas[j].content, e)
  {
    AddWins(ws, steps, i, e);
    AddWins(ws, steps, j, e);
  }

  // ------------------------------------------------- the condition is exact

  ghost function RunFrom(ws: seq<string>, s: System, more: seq<Step>): (r: System)
    requires |s.replicas| == |ws|
    ensures |r.replicas| == |ws|
  {
    if more == [] then s else Apply(ws, RunFrom(ws, s, more[..|more| - 1]), more[|more| - 1])
  }

  lemma RunFromOne(ws: seq<string>, s: System, t: Step)
    requires |s.replicas| == |ws|
    ensures RunFrom(ws, s, [t]) == Apply(ws, s, t)
  {
    assert [t][..0] == [];
  }

  ghost predicate NoCompaction(more: seq<Step>) {
    forall n :: 0 <= n < |more| ==> !more[n].Compact?
  }

  lemma {:induction false} AgreeFrom(ws: seq<string>, r: System, s: System, more: seq<Step>)
    requires Writers(ws) && Agree(r, s) && Sound(ws, s) && NoCompaction(more)
    ensures Agree(RunFrom(ws, r, more), RunFrom(ws, s, more)) && Sound(ws, RunFrom(ws, s, more))
  {
    if more != [] {
      var n := |more| - 1;
      AgreeFrom(ws, r, s, more[..n]);
      AgreeStep(ws, RunFrom(ws, r, more[..n]), RunFrom(ws, s, more[..n]), more[n]);
      SoundStep(ws, RunFrom(ws, s, more[..n]), more[n]);
    }
  }

  ghost predicate Unnoticed(ws: seq<string>, s: System, i: nat, vv: Counters, more: seq<Step>)
    requires |s.replicas| == |ws|
  {
    SameView(RunFrom(ws, Apply(ws, s, Compact(i, vv)), more), RunFrom(ws, s, more))
  }

  lemma SafeIsUnnoticed(ws: seq<string>, steps: seq<Step>, i: nat, vv: Counters, more: seq<Step>)
    requires Writers(ws) && AllSafe(ws, steps) && i < |ws| && Safe(Run(ws, steps), i, vv) && NoCompaction(more)
    ensures Unnoticed(ws, Run(ws, steps), i, vv, more)
  {
    RunsAgree(ws, steps);
    var r, s := Run(ws, steps), Run(ws, Uncompacted(steps));
    AgreeCompact(ws, r, s, i, vv);
    AgreeFrom(ws, r, s, more);
    AgreeFrom(ws, Apply(ws, r, Compact(i, vv)), s, more);
    AgreementIsSameView(RunFrom(ws, r, more), RunFrom(ws, s, more));
    AgreementIsSameView(RunFrom(ws, Apply(ws, r, Compact(i, vv)), more), RunFrom(ws, s, more));
  }

  /** A dot compacted at `i` while live at `j` is resurrected at `i` by the next synchronisation with `j`. */
  lemma UnsafeResurrects(ws: seq<string>, s: System, i: nat, vv: Counters, k: DotKey) returns (more: seq<Step>)
    requires |s.replicas| == |ws| && i < |ws| && k in Dropped(s.replicas[i].content, vv) && LiveSomewhere(s, k)
    ensures NoCompaction(more) && !Unnoticed(ws, s, i, vv, more)
  {
    var j, e :| 0 <= j < |ws| && Live(s.replicas[j].content, e, k);
    more := [Sync(i, j)];
    var u := Apply(ws, s, Compact(i, vv));
    RunFromOne(ws, u, more[0]);
    RunFromOne(ws, s, more[0]);
    assert j != i && u.replicas[j] == s.replicas[j];
    assert Live(RunFrom(ws, u, more).replicas[i].content, e, k);
    assert !Live(RunFrom(ws, s, more).replicas[i].content, e, k);
    assert k in LiveDots(RunFrom(ws, u, more).replicas[i].content, e);
  }

  /** The condition is exact: a compaction goes unnoticed in every later course of adds, removes and
      synchronisations if and only if it takes no dot that is live at some replica. */
  lemma SafeIffUnnoticed(ws: seq<string>, steps: seq<Step>, i: nat, vv: Counters)
    requires Writers(ws) && AllSafe(ws, steps) && i < |ws|
    ensures Safe(Run(ws, steps), i, vv) <==> forall more :: NoCompaction(more) ==> Unnoticed(ws, Run(ws, steps), i, vv, more)
  {
    var s := Run(ws, steps);
    if Safe(s, i, vv) {
      forall more | NoCompaction(more) ensures Unnoticed(ws, s, i, vv, more) { SafeIsUnnoticed(ws, steps, i, vv, more); }
    } else {
      var k :| k in Dropped(s.replicas[i].content, vv) && LiveSomewhere(s, k);
      var more := UnsafeResurrects(ws, s, i, vv, k);
    }
  }

  /** Replica 0 adds an element, replica 1 synchronises with it, replica 0 removes the element. */
  ghost function Example(ws: seq<string>): System
    requires |ws| == 2
  {
    Apply(ws, Apply(ws, Apply(ws, Initial(ws), Add(0, "x")), Sync(1, 0)), Remove(0, "x"))
  }

  lemma ExampleContents(ws: seq<string>, k: DotKey)
    requires |ws| == 2 && Writers(ws) && k == EncodeDot(Dot(ws[0], 1))
    ensures var s := Example(ws);
            && s.replicas[0].content == Content({("x", k)}, {k}) && s.replicas[1].content == Content({("x", k)}, {})
            && Descends(s.replicas[0].vv, map[ws[0] := 1]) && Descends(s.replicas[1].vv, map[ws[0] := 1])
  {
    var s1 := Apply(ws, Initial(ws), Add(0, "x"));
    assert s1.replicas[0].content == Content({("x", k)}, {}) && s1.replicas[0].vv == map[ws[0] := 1];
    var s2 := Apply(ws, s1, Sync(1, 0));
    assert s2.replicas[0] == s1.replicas[0] && s2.replicas[1].content == Content({("x", k)}, {});
    assert CounterOf(s2.replicas[1].vv, ws[0]) == 1;
    assert LiveDots(s2.replicas[0].content, "x") == {k};
  }

  lemma ExampleResurrects(ws: seq<string>, s: System, vv: Counters, k: DotKey)
    requires |ws| == 2 == |s.replicas| && Stable(vv, k)
    requires s.replicas[0].content == Content({("x", k)}, {k}) && s.replicas[1].content == Content({("x", k)}, {})
    ensures !Present(s.replicas[0].content, "x")
    ensures Present(Apply(ws, Apply(ws, s, Compact(0, vv)), Sync(0, 1)).replicas[0].content, "x")
  {
    assert ("x", k) in s.replicas[0].content.adds;
    assert k in Dropped(s.replicas[0].content, vv);
    var u := Apply(ws, s, Compact(0, vv));
    assert u.replicas[1] == s.replicas[1];
    assert Live(Apply(ws, u, Sync(0, 1)).replicas[0].content, "x", k);
  }

  /** That all replicas' version vectors contain a dot does not make compacting it safe: here both contain the only
      dot when replica 0 compacts it, and the removed element comes back. */
  lemma ContainmentIsNotEnough(ws: seq<string>)
    requires |ws| == 2 && Writers(ws)
    ensures var s, vv := Example(ws), map[ws[0] := 1];
            && Descends(s.replicas[0].vv, vv) && Descends(s.replicas[1].vv, vv)
            && !Present(s.replicas[0].content, "x")
            && Present(Apply(ws, Apply(ws, s, Compact(0, vv)), Sync(0, 1)).replicas[0].content, "x")
  {
    var d := Dot(ws[0], 1);
    DecodeUndoesEncode(d);
    ExampleContents(ws, EncodeDot(d));
    ExampleResurrects(ws, Example(ws), map[ws[0] := 1], EncodeDot(d));
  }
}
