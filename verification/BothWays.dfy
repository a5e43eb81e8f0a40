/** A two-sided best-first search as a function of the costs alone: which side closes which node next, when the
    search stops, and where the two sides are joined. Heaps and neighbour lists do not occur here. */
module BothWays {
  import opened Graphs
  import opened BestFirst
  import opened SearchOrder

  /** The forward and the backward search. */
  datatype Sides = Sides(f: Search, b: Search)

  /** One side closes a node. */
  datatype Move = Move(forward: bool, node: NodeId)

  ghost function Moved(c: Costs, back: Costs, tie: bool, s: Sides, m: Move): Sides {
    if m.forward then Sides(CloseAndExpand(c, s.f, m.node, tie), s.b) else Sides(s.f, CloseAndExpand(back, s.b, m.node, tie))
  }

  /** Both searches after the moves `ms`. */
  ghost function Both(c: Costs, back: Costs, tie: bool, start: NodeId, goal: NodeId, ms: seq<Move>): Sides {
    if ms == [] then Sides(Replay(c, tie, start, []), Replay(back, tie, goal, []))
    else Moved(c, back, tie, Both(c, back, tie, start, goal, ms[..|ms| - 1]), ms[|ms| - 1])
  }

  /** Both sides know `n`. */
  ghost predicate Common(s: Sides, n: NodeId) {
    n in s.f.dist && n in s.f.tree && n in s.b.dist && n in s.b.tree
  }

  /** What meeting at `n` costs. */
  ghost function Sum(s: Sides, n: NodeId): real
    requires Common(s, n)
  {
    s.f.dist[n] + s.b.dist[n]
  }

  ghost predicate Below(s: Sides, x: real) {
    forall n {:trigger Common(s, n)} :: Common(s, n) ==> x < Sum(s, n)
  }

  /** The side with the lesser least key, forward at a tie, closes its next node while the key is below all meetings. */
  ghost predicate Goes(kf: Policy, kb: Policy, tie: bool, s: Sides, m: Move) {
    if m.forward then
      && IsNext(kf, tie, s.f, m.node) && Below(s, Key(kf, m.node, s.f.dist[m.node]))
      && forall y {:trigger Open(s.b, y)} :: Open(s.b, y) ==> Key(kf, m.node, s.f.dist[m.node]) <= Key(kb, y, s.b.dist[y])
    else
      && IsNext(kb, tie, s.b, m.node) && Below(s, Key(kb, m.node, s.b.dist[m.node]))
      && forall y {:trigger Open(s.f, y)} :: Open(s.f, y) ==> Key(kb, m.node, s.b.dist[m.node]) < Key(kf, y, s.f.dist[y])
  }

  ghost predicate GoesAt(c: Costs, back: Costs, kf: Policy, kb: Policy, tie: bool, start: NodeId, goal: NodeId, ms: seq<Move>, i: int)
    requires 0 <= i < |ms|
  {
    Goes(kf, kb, tie, Both(c, back, tie, start, goal, ms[..i]), ms[i])
  }

  ghost predicate Runs(c: Costs, back: Costs, kf: Policy, kb: Policy, tie: bool, start: NodeId, goal: NodeId, ms: seq<Move>) {
    forall i {:trigger GoesAt(c, back, kf, kb, tie, start, goal, ms, i)} :: 0 <= i < |ms| ==> GoesAt(c, back, kf, kb, tie, start, goal, ms, i)
  }

  /** The sides are joined at `n`: no meeting is cheaper, and with `tie` none as cheap lies at a smaller node. */
  ghost predicate MeetsAt(tie: bool, s: Sides, n: NodeId) {
    && Common(s, n)
    && forall x {:trigger Common(s, x)} :: Common(s, x) ==> Sum(s, n) < Sum(s, x) || (Sum(s, n) == Sum(s, x) && (tie ==> n <= x))
  }

  ghost predicate JoinedAt(tie: bool, s: Sides, n: NodeId, path: seq<NodeId>, total: real) {
    MeetsAt(tie, s, n) && s.b.tree[n] != [] && path == Through(s.f.tree[n], s.b.tree[n]) && total == Sum(s, n)
  }

  ghost predicate Joins(tie: bool, s: Sides, r: PathResult) {
    match r
    case InvalidStart => false
    case NoPath => forall n :: !Common(s, n)
    case Found(path, total) => exists n :: JoinedAt(tie, s, n, path, total)
  }

  /** No side has a move left that could matter. */
  ghost predicate Finished(kf: Policy, kb: Policy, tie: bool, s: Sides) {
    forall m :: !Goes(kf, kb, tie, s, m)
  }

  /** `ms` are all the moves of a search that answers `r`. */
  ghost predicate CourseOfBoth(c: Costs, back: Costs, kf: Policy, kb: Policy, tie: bool, start: NodeId, goal: NodeId, limit: Option<nat>,
                         ms: seq<Move>, r: PathResult) {
    var s := Both(c, back, tie, start, goal, ms);
    && Runs(c, back, kf, kb, tie, start, goal, ms) && Joins(tie, s, r)
    && (!Within(limit, |ms|) || Finished(kf, kb, tie, s))
    && (ms != [] ==> Within(limit, |ms| - 1))
  }

  /** `r` is a possible answer of the two-sided search. */
  ghost predicate AnswersBoth(c: Costs, back: Costs, kf: Policy, kb: Policy, tie: bool, start: NodeId, goal: NodeId, limit: Option<nat>,
                              r: PathResult) {
    if start == goal then r == Found([start], 0.0) else exists ms :: CourseOfBoth(c, back, kf, kb, tie, start, goal, limit, ms, r)
  }

  // ------------------------------------------------------------ determinism

  lemma MoveIsUnique(kf: Policy, kb: Policy, s: Sides, m: Move, n: Move)
    requires Goes(kf, kb, true, s, m) && Goes(kf, kb, true, s, n)
    ensures m == n
  {
    if m.forward && n.forward {
      NextIsUnique(kf, s.f, m.node, n.node);
    } else if !m.forward && !n.forward {
      NextIsUnique(kb, s.b, m.node, n.node);
    }
  }

  lemma GoesOn(c: Costs, back: Costs, kf: Policy, kb: Policy, tie: bool, start: NodeId, goal: NodeId, ms: seq<Move>, i: nat)
    requires Runs(c, back, kf, kb, tie, start, goal, ms) && i < |ms|
    ensures Goes(kf, kb, tie, Both(c, back, tie, start, goal, ms[..i]), ms[i])
  {
    assert GoesAt(c, back, kf, kb, tie, start, goal, ms, i);
  }

  lemma {:induction false} RunsAgree(c: Costs, back: Costs, kf: Policy, kb: Policy, start: NodeId, goal: NodeId,
                                     ms: seq<Move>, ns: seq<Move>, i: nat)
    requires Runs(c, back, kf, kb, true, start, goal, ms) && Runs(c, back, kf, kb, true, start, goal, ns)
    requires i <= |ms| && i <= |ns|
    ensures ms[..i] == ns[..i]
    decreases i
  {
    if i > 0 {
      RunsAgree(c, back, kf, kb, start, goal, ms, ns, i - 1);
      assert GoesAt(c, back, kf, kb, true, start, goal, ms, i - 1) && GoesAt(c, back, kf, kb, true, start, goal, ns, i - 1);
      MoveIsUnique(kf, kb, Both(c, back, true, start, goal, ms[..i - 1]), ms[i - 1], ns[i - 1]);
      assert ms[..i] == ms[..i - 1] + [ms[i - 1]] && ns[..i] == ns[..i - 1] + [ns[i - 1]];
    }
  }

  lemma StopsForGood(c: Costs, back: Costs, kf: Policy, kb: Policy, start: NodeId, goal: NodeId, limit: Option<nat>,
                     ms: seq<Move>, r: PathResult, ns: seq<Move>, q: PathResult)
    requires CourseOfBoth(c, back, kf, kb, true, start, goal, limit, ms, r) && CourseOfBoth(c, back, kf, kb, true, start, goal, limit, ns, q)
    requires |ms| <= |ns|
    ensures ms == ns
  {
    RunsAgree(c, back, kf, kb, start, goal, ms, ns, |ms|);
    assert ms[..|ms|] == ms;
    if |ms| < |ns| {
      GoesOn(c, back, kf, kb, true, start, goal, ns, |ms|);
    }
  }

  lemma JoinIsUnique(s: Sides, r: PathResult, q: PathResult)
    requires Joins(true, s, r) && Joins(true, s, q)
    ensures r == q
  {
    if r.Found? && q.Found? {
      var m :| JoinedAt(true, s, m, r.path, r.totalCost);
      var n :| JoinedAt(true, s, n, q.path, q.totalCost);
      assert Common(s, m) && Common(s, n);
    }
  }

  /** With the tie-breaks there is one answer. */
  lemma AnswerBothIsUnique(c: Costs, back: Costs, kf: Policy, kb: Policy, start: NodeId, goal: NodeId, limit: Option<nat>,
                           r: PathResult, q: PathResult)
    requires AnswersBoth(c, back, kf, kb, true, start, goal, limit, r) && AnswersBoth(c, back, kf, kb, true, start, goal, limit, q)
    ensures r == q
  {
    if start != goal {
      var ms :| CourseOfBoth(c, back, kf, kb, true, start, goal, limit, ms, r);
      var ns :| CourseOfBoth(c, back, kf, kb, true, start, goal, limit, ns, q);
      if |ms| <= |ns| {
        StopsForGood(c, back, kf, kb, start, goal, limit, ms, r, ns, q);
      } else {
        StopsForGood(c, back, kf, kb, start, goal, limit, ns, q, ms, r);
      }
      JoinIsUnique(Both(c, back, true, start, goal, ms), r, q);
    }
  }

  /** Providers that list the same entries in any order lead to the same answer, for all weights and heuristics. */
  lemma AnswerBothIgnoresListOrder(out1: Graph, inn1: Graph, out2: Graph, inn2: Graph, w: Weight, kf: Policy, kb: Policy,
                                   start: NodeId, goal: NodeId, limit: Option<nat>, r1: PathResult, r2: PathResult)
    requires forall u, e :: e in Out(out1, u) <==> e in Out(out2, u)
    requires forall u, e :: e in Out(inn1, u) <==> e in Out(inn2, u)
    requires AnswersBoth(CostsOf(out1, w), CostsOf(inn1, Flip(w)), kf, kb, true, start, goal, limit, r1)
    requires AnswersBoth(CostsOf(out2, w), CostsOf(inn2, Flip(w)), kf, kb, true, start, goal, limit, r2)
    ensures r1 == r2
  {
    SameEntriesSameCosts(out1, out2, w, CostsOf(out1, w), CostsOf(out2, w));
    SameEntriesSameCosts(inn1, inn2, Flip(w), CostsOf(inn1, Flip(w)), CostsOf(inn2, Flip(w)));
    AnswerBothIsUnique(CostsOf(out1, w), CostsOf(inn1, Flip(w)), kf, kb, start, goal, limit, r1, r2);
  }

  lemma RunsMore(c: Costs, back: Costs, kf: Policy, kb: Policy, tie: bool, start: NodeId, goal: NodeId, ms: seq<Move>, m: Move)
    requires Runs(c, back, kf, kb, tie, start, goal, ms) && Goes(kf, kb, tie, Both(c, back, tie, start, goal, ms), m)
    ensures Runs(c, back, kf, kb, tie, start, goal, ms + [m])
    ensures Both(c, back, tie, start, goal, ms + [m]) == Moved(c, back, tie, Both(c, back, tie, start, goal, ms), m)
  {
    var ns := ms + [m];
    assert ns[..|ms|] == ms;
    forall i | 0 <= i < |ns|
      ensures GoesAt(c, back, kf, kb, tie, start, goal, ns, i)
    {
      if i < |ms| {
        assert GoesAt(c, back, kf, kb, tie, start, goal, ms, i) && ns[..i] == ms[..i];
      }
    }
  }
}
