/** Any number of audit services of one writer on one ref, step by step between their awaits. */
module AuditProducer {
  import opened Graphs
  import opened AuditReceipts
  import opened AuditVerifier

  /** What a service is told about a data commit, with the digest and the clock it reads. */
  datatype Tick = Tick(patchSha: string, writer: string, lamport: int, opsDigest: string, timestamp: int)

  /** Where a service stands within a call: not in one; about to write; about to swap the ref to a stored commit;
      about to read the ref again. */
  datatype Stage =
    | Idle
    | Writing(tick: Tick, commit: Commit, retrying: bool)
    | Swapping(tick: Tick, sha: string, retrying: bool)
    | Refreshing(tick: Tick)

  /** `calls` and `attempts` are history variables: calls begun, and swaps tried in the current call. */
  datatype Service = Service(
    prevAuditCommit: Option<string>, expectedOldRef: Option<string>, degraded: bool, stage: Stage,
    committed: nat, skipped: nat, failed: nat, calls: nat, attempts: nat)

  datatype World = World(store: Store, tip: Option<string>, services: seq<Service>)

  datatype Config = Config(graph: string, writer: string, oidLen: nat)

  datatype Step =
    | Init(i: nat, readable: bool)
    | Call(i: nat, tick: Tick)
    | Write(i: nat, sha: string)
    | WriteFails(i: nat)
    | Swap(i: nat)
    | SwapFails(i: nat)
    | Refresh(i: nat)
    | RefreshFails(i: nat)

  function NewService(): Service {
    Service(None, None, false, Idle, 0, 0, 0, 0, 0)
  }

  // ---------------------------------------------------------------- one service

  /** The commit `_commitInner` is about to write; `None` when it throws before writing. */
  function Build(cfg: Config, prev: Option<string>, t: Tick): Option<Commit> {
    if t.writer != cfg.writer then None else
      var prevOid := if prev.Some? then prev.value else ZeroHash(|t.patchSha|);
      match BuildReceipt(Receipt(t.patchSha, cfg.graph, t.opsDigest, prevOid, t.lamport, t.lamport, t.timestamp, t.writer))
      case Rejected => None
      case Built(r) =>
        Some(Commit(if prev.Some? then [prev.value] else [],
                    Readable(RecordOf(r), Trailers(cfg.graph, t.writer, Lower(t.patchSha), t.opsDigest, 1))))
  }

  /** A call that throws: in a retry the service degrades. */
  function Failed(s: Service, retrying: bool): Service {
    s.(failed := s.failed + 1, stage := Idle, degraded := s.degraded || retrying)
  }

  /** `_commitInner` up to the first write. */
  function Begin(cfg: Config, s: Service, t: Tick, retrying: bool): Service {
    match Build(cfg, s.prevAuditCommit, t)
    case None => Failed(s, retrying)
    case Some(c) => s.(stage := Writing(t, c, retrying))
  }

  ghost predicate Enabled(cfg: Config, w: World, t: Step) {
    && t.i < |w.services|
    && var s := w.services[t.i];
    match t
    case Init(_, _) => s.stage.Idle?
    case Call(_, _) => s.stage.Idle?
    case Write(_, sha) => s.stage.Writing? && IsObjectId(cfg, sha) && (sha in w.store ==> w.store[sha] == s.stage.commit)
    case WriteFails(_) => s.stage.Writing?
    case Swap(_) => s.stage.Swapping? && w.tip == s.expectedOldRef
    case SwapFails(_) => s.stage.Swapping?
    case Refresh(_) => s.stage.Refreshing?
    case RefreshFails(_) => s.stage.Refreshing?
  }

  /** Object ids of the repository; none is the zero hash. */
  ghost predicate IsObjectId(cfg: Config, sha: string) {
    IsHex(sha) && |sha| == cfg.oidLen && sha != ZeroHash(cfg.oidLen)
  }

  /** The service after its step. */
  ghost function Moved(cfg: Config, w: World, t: Step): Service
    requires Enabled(cfg, w, t)
  {
    var s := w.services[t.i];
    match t
    case Init(_, readable) =>
      if !readable then s.(prevAuditCommit := None, expectedOldRef := None)
      else if w.tip.Some? then s.(prevAuditCommit := w.tip, expectedOldRef := w.tip) else s
    case Call(_, tick) =>
      var begun := s.(calls := s.calls + 1, attempts := 0);
      if s.degraded then begun.(skipped := s.skipped + 1) else Begin(cfg, begun, tick, false)
    case Write(_, sha) => s.(stage := Swapping(s.stage.tick, sha, s.stage.retrying))
    case WriteFails(_) => Failed(s, s.stage.retrying)
    case Swap(_) =>
      s.(prevAuditCommit := Some(s.stage.sha), expectedOldRef := Some(s.stage.sha), committed := s.committed + 1, stage := Idle,
         attempts := s.attempts + 1)
    case SwapFails(_) =>
      var tried := s.(attempts := s.attempts + 1);
      if s.stage.retrying then Failed(tried, true) else tried.(stage := Refreshing(s.stage.tick))
    case Refresh(_) => Begin(cfg, s.(prevAuditCommit := w.tip, expectedOldRef := w.tip), s.stage.tick, true)
    case RefreshFails(_) => Failed(s, false)
  }

  ghost function Apply(cfg: Config, w: World, t: Step): World {
    if !Enabled(cfg, w, t) then w else
      var s := w.services[t.i];
      World(if t.Write? then w.store[t.sha := s.stage.commit] else w.store,
            if t.Swap? then Some(s.stage.sha) else w.tip,
            w.services[t.i := Moved(cfg, w, t)])
  }

  ghost function Run(cfg: Config, w: World, steps: seq<Step>): World {
    if steps == [] then w else Apply(cfg, Run(cfg, w, steps[..|steps| - 1]), steps[|steps| - 1])
  }

  ghost function Fresh(n: nat): World {
    World(map[], None, seq(n, _ => NewService()))
  }

  // ---------------------------------------------------------------- what every step keeps

  /** The books balance, and no call tries more than two swaps. */
  ghost predicate Balanced(s: Service) {
    && s.calls == s.committed + s.skipped + s.failed + (if s.stage.Idle? then 0 else 1)
    && s.attempts <= 2
    && (s.stage.Writing? || s.stage.Swapping? ==> s.attempts == if s.stage.retrying then 1 else 0)
    && (s.stage.Refreshing? ==> s.attempts == 1)
    && (s.degraded ==> s.stage.Idle?)
  }

  /** What a service remembers of the ref is a stored commit, and what it is writing follows it. */
  ghost predicate Coherent(cfg: Config, store: Store, s: Service) {
    && s.prevAuditCommit == s.expectedOldRef
    && (s.prevAuditCommit.Some? ==> IsObjectId(cfg, s.prevAuditCommit.value))
    && match s.stage
       case Writing(t, c, _) => Build(cfg, s.prevAuditCommit, t) == Some(c)
       case Swapping(t, sha, _) => IsObjectId(cfg, sha) && sha in store && Build(cfg, s.prevAuditCommit, t) == Some(store[sha])
       case _ => true
  }

  ghost predicate Regular(cfg: Config, w: World) {
    && (w.tip.Some? ==> IsObjectId(cfg, w.tip.value))
    && forall i :: 0 <= i < |w.services| ==> Balanced(w.services[i]) && Coherent(cfg, w.store, w.services[i])
  }

  lemma RegularStep(cfg: Config, w: World, t: Step)
    requires Regular(cfg, w)
    ensures Regular(cfg, Apply(cfg, w, t))
  {
    if Enabled(cfg, w, t) {
      var u := Apply(cfg, w, t);
      assert Balanced(w.services[t.i]) && Coherent(cfg, w.store, w.services[t.i]);
      forall i | 0 <= i < |u.services| ensures Balanced(u.services[i]) && Coherent(cfg, u.store, u.services[i]) {
        assert Balanced(w.services[i]) && Coherent(cfg, w.store, w.services[i]);
      }
    }
  }

  lemma {:induction false} RegularRun(cfg: Config, w: World, steps: seq<Step>)
    requires Regular(cfg, w)
    ensures Regular(cfg, Run(cfg, w, steps))
  {
    if steps != [] {
      RegularRun(cfg, w, steps[..|steps| - 1]);
      RegularStep(cfg, Run(cfg, w, steps[..|steps| - 1]), steps[|steps| - 1]);
    }
  }

  /** In every run of every number of services: each finished call was committed, skipped or failed, and no call
      tried to swap the ref more than twice. */
  lemma CallsAreAccounted(cfg: Config, n: nat, steps: seq<Step>, i: nat)
    requires i < |Run(cfg, Fresh(n), steps).services|
    ensures var s := Run(cfg, Fresh(n), steps).services[i];
            s.attempts <= 2 && s.committed + s.skipped + s.failed == if s.stage.Idle? then s.calls else s.calls - 1
  {
    RegularRun(cfg, Fresh(n), steps);
    assert Balanced(Run(cfg, Fresh(n), steps).services[i]);
  }

  // ---------------------------------------------------------------- the chain

  ghost function ReceiptTick(store: Store, tip: Option<string>): int {
    if tip.Some? then TickAt(store, tip.value) else 0
  }

  /** The tip, if any, heads a chain that the verifier accepts. */
  ghost predicate ChainGood(cfg: Config, w: World) {
    w.tip.Some? ==> HasChain(w.store, cfg.graph, cfg.writer, w.tip.value)
  }

  lemma ChainKept(store: Store, more: Store, graph: string, writer: string, cs: seq<string>)
    requires IsChain(store, graph, writer, cs) && forall c :: c in store ==> c in more && more[c] == store[c]
    ensures IsChain(more, graph, writer, cs)
  {
    forall i | 0 <= i < |cs| ensures Sound(more, graph, writer, cs[i]) { assert Sound(store, graph, writer, cs[i]); }
    forall i | 0 <= i < |cs| - 1 ensures Continues(more, cs[i], cs[i + 1]) { assert Continues(store, cs[i], cs[i + 1]); }
    assert Sound(store, graph, writer, cs[|cs| - 1]);
  }

  /** Adding objects to the store breaks no chain. */
  lemma ChainStays(store: Store, more: Store, graph: string, writer: string, tip: string)
    requires HasChain(store, graph, writer, tip)
    requires forall c :: c in store ==> c in more && more[c] == store[c]
    ensures HasChain(more, graph, writer, tip) && TickAt(more, tip) == TickAt(store, tip)
  {
    var cs :| IsChain(store, graph, writer, cs) && cs[0] == tip;
    assert Sound(store, graph, writer, cs[0]);
    ChainKept(store, more, graph, writer, cs);
  }

  /** What a service writes passes all checks of a single commit; it is a genesis exactly when nothing came before,
      and then its tick is 1. */
  lemma BuiltIsSound(cfg: Config, prev: Option<string>, t: Tick, store: Store, sha: string)
    requires prev.Some? ==> IsObjectId(cfg, prev.value)
    requires sha in store && Build(cfg, prev, t) == Some(store[sha])
    ensures Sound(store, cfg.graph, cfg.writer, sha)
    ensures ReceiptAt(store, sha).tickStart == ReceiptAt(store, sha).tickEnd == t.lamport && |ReceiptAt(store, sha).dataCommit| == |t.patchSha|
    ensures IsGenesis(store, sha) <==> prev.None?
    ensures prev.None? ==> store[sha].parents == [] && t.lamport == 1
    ensures prev.Some? ==> PointsTo(store, sha, prev.value) && |t.patchSha| == cfg.oidLen
    ensures var r := ReceiptAt(store, sha);
            && r.dataCommit == Lower(t.patchSha) && r.opsDigest == Lower(t.opsDigest) && r.timestamp == t.timestamp
            && r.graphName == cfg.graph && r.writerId == t.writer == cfg.writer
            && r.prevAuditCommit == if prev.Some? then prev.value else ZeroHash(|t.patchSha|)
  {
    var prevOid := if prev.Some? then prev.value else ZeroHash(|t.patchSha|);
    var r := Receipt(t.patchSha, cfg.graph, t.opsDigest, prevOid, t.lamport, t.lamport, t.timestamp, t.writer);
    BuiltIsAccepted(r);
    LowerTwice(t.patchSha);
    LowerTwice(t.opsDigest);
    assert IsHex(prevOid) ==> Lower(prevOid) == prevOid by { if IsHex(prevOid) { LowerOfHex(prevOid); } }
    assert prev.None? ==> Lower(prevOid) == prevOid;
  }

  /** A successful swap leaves a chain that verifies if and only if the new tick exceeds the tip's
      (and the ids are as long as the tip's). */
  lemma SwapIffAdvances(cfg: Config, w: World, t: Step)
    requires Regular(cfg, w) && ChainGood(cfg, w) && t.Swap? && Enabled(cfg, w, t)
    ensures var tick, u := w.services[t.i].stage.tick, Apply(cfg, w, t);
            ChainGood(cfg, u) <==>
              w.tip.Some? ==> TickAt(w.store, w.tip.value) < tick.lamport && |ReceiptAt(w.store, w.tip.value).dataCommit| == |tick.patchSha|
  {
    var s := w.services[t.i];
    assert Coherent(cfg, w.store, s);
    var sha, tick := s.stage.sha, s.stage.tick;
    BuiltIsSound(cfg, s.prevAuditCommit, tick, w.store, sha);
    if w.tip.None? {
      assert IsChain(w.store, cfg.graph, cfg.writer, [sha]);
    } else {
      ChainGrows(w.store, cfg.graph, cfg.writer, sha, w.tip.value);
    }
  }

  lemma ChainLonger(store: Store, graph: string, writer: string, c: string, cs: seq<string>)
    requires Sound(store, graph, writer, c) && IsChain(store, graph, writer, cs) && Sound(store, graph, writer, cs[0])
    requires PointsTo(store, c, cs[0]) && Links(ReceiptAt(store, cs[0]), ReceiptAt(store, c))
    ensures IsChain(store, graph, writer, [c] + cs)
  {
    var more := [c] + cs;
    forall i | 0 <= i < |more| ensures Sound(store, graph, writer, more[i]) {
      if i > 0 { assert Sound(store, graph, writer, cs[i - 1]); }
    }
    forall i | 0 <= i < |more| - 1 ensures Continues(store, more[i], more[i + 1]) {
      if i > 0 { assert Continues(store, cs[i - 1], cs[i]); }
    }
    assert more[|more| - 1] == cs[|cs| - 1];
  }

  /** A sound commit on top of a chain makes a chain exactly when it links to the old tip. */
  lemma ChainGrows(store: Store, graph: string, writer: string, c: string, tip: string)
    requires Sound(store, graph, writer, c) && PointsTo(store, c, tip) && HasChain(store, graph, writer, tip)
    ensures HasReceipt(store, tip)
    ensures HasChain(store, graph, writer, c) <==> Links(ReceiptAt(store, tip), ReceiptAt(store, c))
  {
    var cs :| IsChain(store, graph, writer, cs) && cs[0] == tip;
    assert Sound(store, graph, writer, cs[0]);
    if Links(ReceiptAt(store, tip), ReceiptAt(store, c)) {
      ChainLonger(store, graph, writer, c, cs);
      assert ([c] + cs)[0] == c;
    }
    if HasChain(store, graph, writer, c) {
      var ds :| IsChain(store, graph, writer, ds) && ds[0] == c;
      assert |ds| > 1 && Continues(store, ds[0], ds[1]);
    }
  }

  /** The successful swaps of the run write ticks beyond the tip's, for data commits of the repository. */
  ghost predicate Advances(cfg: Config, w: World, t: Step) {
    t.Swap? && Enabled(cfg, w, t) ==>
      var tick := w.services[t.i].stage.tick;
      |tick.patchSha| == cfg.oidLen && ReceiptTick(w.store, w.tip) < tick.lamport
  }

  ghost predicate AllAdvance(cfg: Config, w: World, steps: seq<Step>) {
    steps == [] ||
    (AllAdvance(cfg, w, steps[..|steps| - 1]) && Advances(cfg, Run(cfg, w, steps[..|steps| - 1]), steps[|steps| - 1]))
  }

  ghost predicate TipFits(cfg: Config, w: World) {
    ChainGood(cfg, w) && (w.tip.Some? ==> HasReceipt(w.store, w.tip.value) && |ReceiptAt(w.store, w.tip.value).dataCommit| == cfg.oidLen)
  }

  lemma TipFitsStep(cfg: Config, w: World, t: Step)
    requires Regular(cfg, w) && TipFits(cfg, w) && Advances(cfg, w, t)
    ensures TipFits(cfg, Apply(cfg, w, t))
  {
    if Enabled(cfg, w, t) {
      if t.Swap? {
        var s := w.services[t.i];
        assert Coherent(cfg, w.store, s);
        SwapIffAdvances(cfg, w, t);
        BuiltIsSound(cfg, s.prevAuditCommit, s.stage.tick, w.store, s.stage.sha);
      } else if w.tip.Some? {
        ChainStays(w.store, Apply(cfg, w, t).store, cfg.graph, cfg.writer, w.tip.value);
      }
    }
  }

  lemma {:induction false} TipFitsRun(cfg: Config, w: World, steps: seq<Step>)
    requires Regular(cfg, w) && TipFits(cfg, w) && AllAdvance(cfg, w, steps)
    ensures Regular(cfg, Run(cfg, w, steps)) && TipFits(cfg, Run(cfg, w, steps))
  {
    if steps != [] {
      TipFitsRun(cfg, w, steps[..|steps| - 1]);
      RegularStep(cfg, Run(cfg, w, steps[..|steps| - 1]), steps[|steps| - 1]);
      TipFitsStep(cfg, Run(cfg, w, steps[..|steps| - 1]), steps[|steps| - 1]);
    }
  }

  /** Producer meets verifier: whatever the interleaving, the failed writes and the lost swaps, if every successful
      swap writes a tick beyond the tip's then the chain left behind verifies from its tip to its genesis. */
  lemma ProducerMeetsVerifier(cfg: Config, n: nat, steps: seq<Step>)
    requires AllAdvance(cfg, Fresh(n), steps)
    ensures var w := Run(cfg, Fresh(n), steps); w.tip.Some? ==> HasChain(w.store, cfg.graph, cfg.writer, w.tip.value)
  {
    TipFitsRun(cfg, Fresh(n), steps);
  }

  // ---------------------------------------------------------------- a chain has to start at tick 1

  /** A tick from which a chain can be started: well-formed, of this writer, and the first one. */
  predicate Opens(cfg: Config, t: Tick) {
    && t.writer == cfg.writer && cfg.writer != "" && cfg.graph != ""
    && OidFormat(t.patchSha) && IsHex(Lower(t.opsDigest)) && |t.opsDigest| == 64
    && 0 <= t.timestamp <= MAX_SAFE_INTEGER
    && t.lamport == 1
  }

  /** With the ref unset, a receipt can be built exactly from such a tick: the zero hash is refused for a tick above 1. */
  lemma BuildsFirstIff(cfg: Config, t: Tick)
    ensures Build(cfg, None, t).Some? <==> Opens(cfg, t)
  {
    var z := ZeroHash(|t.patchSha|);
    assert Lower(z) == z;
    LowerTwice(t.patchSha);
  }

  ghost predicate OpensAt(cfg: Config, steps: seq<Step>, k: int) {
    0 <= k < |steps| && steps[k].Call? && Opens(cfg, steps[k].tick)
  }

  ghost predicate NoneOpens(cfg: Config, steps: seq<Step>) {
    forall k {:trigger OpensAt(cfg, steps, k)} :: !OpensAt(cfg, steps, k)
  }

  /** The ref is unset and every call so far has failed, without degrading its service. */
  ghost predicate AllFailed(s: Service) {
    && s.prevAuditCommit.None? && s.stage.Idle? && !s.degraded
    && s.committed == 0 && s.skipped == 0 && s.failed == s.calls
  }

  ghost predicate NothingYet(w: World) {
    w.tip.None? && w.store == map[] && forall i :: 0 <= i < |w.services| ==> AllFailed(w.services[i])
  }

  lemma NothingYetStep(cfg: Config, w: World, t: Step)
    requires NothingYet(w) && (t.Call? ==> !Opens(cfg, t.tick))
    ensures NothingYet(Apply(cfg, w, t))
  {
    if Enabled(cfg, w, t) {
      var u := Apply(cfg, w, t);
      assert AllFailed(w.services[t.i]);
      if t.Call? { BuildsFirstIff(cfg, t.tick); }
      forall i | 0 <= i < |u.services| ensures AllFailed(u.services[i]) { assert AllFailed(w.services[i]); }
    }
  }

  /** While no call brings such a tick, every call of every service fails and nothing is ever written. */
  lemma {:induction false} NeverStarts(cfg: Config, n: nat, steps: seq<Step>)
    requires NoneOpens(cfg, steps)
    ensures NothingYet(Run(cfg, Fresh(n), steps))
  {
    if steps != [] {
      var before, t := steps[..|steps| - 1], steps[|steps| - 1];
      forall k ensures !OpensAt(cfg, before, k) { assert !OpensAt(cfg, steps, k); }
      NeverStarts(cfg, n, before);
      assert !OpensAt(cfg, steps, |steps| - 1);
      NothingYetStep(cfg, Run(cfg, Fresh(n), before), t);
    } else {
      forall i | 0 <= i < n ensures AllFailed(Fresh(n).services[i]) {}
    }
  }

  lemma RunMore(cfg: Config, w: World, steps: seq<Step>, t: Step)
    ensures Run(cfg, w, steps + [t]) == Apply(cfg, Run(cfg, w, steps), t)
  {
    assert (steps + [t])[..|steps|] == steps;
  }

  /** Three steps start a chain from such a tick. */
  lemma CanStart(cfg: Config, n: nat, t: Tick, sha: string) returns (steps: seq<Step>)
    requires n > 0 && Opens(cfg, t) && IsObjectId(cfg, sha)
    ensures steps == [Call(0, t), Write(0, sha), Swap(0)]
    ensures var w := Run(cfg, Fresh(n), steps); w.tip == Some(sha) && |w.services| == n && w.services[0].committed == 1
  {
    BuildsFirstIff(cfg, t);
    var w0 := Fresh(n);
    var w1, w2 := Apply(cfg, w0, Call(0, t)), Apply(cfg, Apply(cfg, w0, Call(0, t)), Write(0, sha));
    assert w0.services[0] == NewService();
    assert Enabled(cfg, w0, Call(0, t)) && w1.services[0].stage.Writing?;
    assert Enabled(cfg, w1, Write(0, sha)) && w2.services[0].stage.Swapping?;
    assert Enabled(cfg, w2, Swap(0));
    RunMore(cfg, w0, [], Call(0, t));
    RunMore(cfg, w0, [Call(0, t)], Write(0, sha));
    RunMore(cfg, w0, [Call(0, t), Write(0, sha)], Swap(0));
    steps := [Call(0, t), Write(0, sha), Swap(0)];
    assert [] + [Call(0, t)] == [Call(0, t)] && [Call(0, t)] + [Write(0, sha)] == [Call(0, t), Write(0, sha)];
    assert steps == [Call(0, t), Write(0, sha)] + [Swap(0)];
  }

  lemma SomeObjectId(cfg: Config) returns (sha: string)
    requires cfg.oidLen > 0
    ensures IsObjectId(cfg, sha)
  {
    sha := seq(cfg.oidLen, _ => '1');
    assert sha[0] != ZeroHash(cfg.oidLen)[0];
  }

  /** All calls of the run are given ticks out of `ticks`. */
  ghost predicate CallsFrom(steps: seq<Step>, ticks: iset<Tick>) {
    forall k :: 0 <= k < |steps| && steps[k].Call? ==> steps[k].tick in ticks
  }

  ghost predicate Starts(cfg: Config, n: nat, ticks: iset<Tick>, steps: seq<Step>) {
    CallsFrom(steps, ticks) && Run(cfg, Fresh(n), steps).tip.Some?
  }

  /** Services that are told of ticks out of `ticks` can start a chain if and only if one of them opens it. */
  lemma StartsIff(cfg: Config, n: nat, ticks: iset<Tick>)
    requires n > 0 && cfg.oidLen > 0
    ensures (exists steps :: Starts(cfg, n, ticks, steps)) <==> (exists t :: t in ticks && Opens(cfg, t))
  {
    if t :| t in ticks && Opens(cfg, t) {
      var sha := SomeObjectId(cfg);
      var steps := CanStart(cfg, n, t, sha);
      assert Starts(cfg, n, ticks, steps);
    } else {
      forall steps | CallsFrom(steps, ticks)
        ensures !Starts(cfg, n, ticks, steps)
      {
        NeverStarts(cfg, n, steps);
      }
    }
  }

  /** In particular, services switched on after the first tick never commit anything. */
  lemma LateStartNeverCommits(cfg: Config, n: nat, steps: seq<Step>)
    requires forall k :: 0 <= k < |steps| && steps[k].Call? ==> steps[k].tick.lamport != 1
    ensures NothingYet(Run(cfg, Fresh(n), steps))
  {
    NeverStarts(cfg, n, steps);
  }

  // ---------------------------------------------------------------- commits and retries succeed

  /** A tick that can be written after the commit `tip`: well-formed, of this writer, with ids of the tip's length. */
  predicate Follows(cfg: Config, tip: string, t: Tick) {
    && t.writer == cfg.writer && cfg.writer != "" && cfg.graph != ""
    && OidFormat(t.patchSha) && |t.patchSha| == |tip| && IsHex(Lower(t.opsDigest)) && |t.opsDigest| == 64
    && 0 <= t.timestamp <= MAX_SAFE_INTEGER
    && t.lamport >= 1
  }

  /** What the ref admits next. */
  predicate Admits(cfg: Config, tip: Option<string>, t: Tick) {
    if tip.Some? then Follows(cfg, tip.value, t) else Opens(cfg, t)
  }

  /** A receipt can be built on the ref's value exactly from the ticks it admits. */
  lemma BuildsNextIff(cfg: Config, tip: Option<string>, t: Tick)
    requires tip.Some? ==> IsObjectId(cfg, tip.value)
    ensures Build(cfg, tip, t).Some? <==> Admits(cfg, tip, t)
    ensures Build(cfg, tip, t).Some? ==> Build(cfg, tip, t).value.parents == if tip.Some? then [tip.value] else []
  {
    if tip.Some? {
      LowerOfHex(tip.value);
      LowerTwice(t.patchSha);
    } else {
      BuildsFirstIff(cfg, t);
    }
  }

  /** The new object has joined the store on top of the old ref value, the ref leads to it, service `i` has counted
      one more commit and remembers it, and nothing else has changed. */
  ghost predicate Committed(w: World, u: World, i: nat, sha: string)
    requires i < |w.services|
  {
    var s := w.services[i];
    && u.tip == Some(sha) && |u.services| == |w.services|
    && sha in u.store && u.store == w.store[sha := u.store[sha]]
    && u.store[sha].parents == (if w.tip.Some? then [w.tip.value] else [])
    && u.services[i].stage.Idle? && u.services[i].committed == s.committed + 1
    && u.services[i].failed == s.failed && u.services[i].skipped == s.skipped && u.services[i].degraded == s.degraded
    && u.services[i].prevAuditCommit == u.services[i].expectedOldRef == Some(sha)
    && (forall j :: 0 <= j < |w.services| && j != i ==> u.services[j] == w.services[j])
  }

  /** Service `i` is about to write a commit on the present ref value. */
  ghost predicate AboutToWrite(cfg: Config, w: World, i: nat) {
    && i < |w.services| && w.services[i].stage.Writing? && w.services[i].expectedOldRef == w.tip
    && w.services[i].stage.commit.parents == if w.tip.Some? then [w.tip.value] else []
  }

  lemma RunFirst(cfg: Config, w: World, t: Step, steps: seq<Step>)
    ensures Run(cfg, w, [t] + steps) == Run(cfg, Apply(cfg, w, t), steps)
    decreases |steps|
  {
    if steps == [] {
      assert [t] + [] == [t] && [t][..0] == [];
    } else {
      var m := |steps| - 1;
      RunFirst(cfg, w, t, steps[..m]);
      assert ([t] + steps)[..|[t] + steps| - 1] == [t] + steps[..m];
    }
  }

  lemma RunNone(cfg: Config, w: World)
    ensures Run(cfg, w, []) == w
  {
  }

  lemma WriteAndSwap(cfg: Config, w: World, i: nat, sha: string)
    requires AboutToWrite(cfg, w, i) && IsObjectId(cfg, sha) && sha !in w.store
    ensures Committed(w, Run(cfg, w, [Write(i, sha), Swap(i)]), i, sha)
  {
    var w1 := Apply(cfg, w, Write(i, sha));
    assert Enabled(cfg, w, Write(i, sha)) && Enabled(cfg, w1, Swap(i));
    RunNone(cfg, w);
    RunMore(cfg, w, [], Write(i, sha));
    RunMore(cfg, w, [Write(i, sha)], Swap(i));
    assert [] + [Write(i, sha)] == [Write(i, sha)] && [Write(i, sha)] + [Swap(i)] == [Write(i, sha), Swap(i)];
  }

  /** A retry reads the ref again and commits on what it finds there, whatever it expected before. */
  lemma RetryCommits(cfg: Config, w: World, i: nat, tick: Tick, sha: string)
    requires i < |w.services| && w.services[i].stage == Refreshing(tick)
    requires (w.tip.Some? ==> IsObjectId(cfg, w.tip.value)) && Admits(cfg, w.tip, tick)
    requires IsObjectId(cfg, sha) && sha !in w.store
    ensures Committed(w, Run(cfg, w, [Refresh(i), Write(i, sha), Swap(i)]), i, sha)
  {
    var w1 := Apply(cfg, w, Refresh(i));
    BuildsNextIff(cfg, w.tip, tick);
    assert Enabled(cfg, w, Refresh(i));
    WriteAndSwap(cfg, w1, i, sha);
    RunFirst(cfg, w, Refresh(i), [Write(i, sha), Swap(i)]);
    assert [Refresh(i)] + [Write(i, sha), Swap(i)] == [Refresh(i), Write(i, sha), Swap(i)];
  }

  /** A first swap that is lost costs nothing but the retry. */
  lemma LostSwapCommits(cfg: Config, w: World, i: nat, tick: Tick, lost: string, sha: string)
    requires i < |w.services| && w.services[i].stage == Swapping(tick, lost, false)
    requires (w.tip.Some? ==> IsObjectId(cfg, w.tip.value)) && Admits(cfg, w.tip, tick)
    requires IsObjectId(cfg, sha) && sha !in w.store
    ensures Committed(w, Run(cfg, w, [SwapFails(i), Refresh(i), Write(i, sha), Swap(i)]), i, sha)
  {
    var w1 := Apply(cfg, w, SwapFails(i));
    assert Enabled(cfg, w, SwapFails(i));
    RetryCommits(cfg, w1, i, tick, sha);
    RunFirst(cfg, w, SwapFails(i), [Refresh(i), Write(i, sha), Swap(i)]);
    assert [SwapFails(i)] + [Refresh(i), Write(i, sha), Swap(i)] == [SwapFails(i), Refresh(i), Write(i, sha), Swap(i)];
  }

  /** A service that remembers the ref's value commits on it. */
  lemma CallCommits(cfg: Config, w: World, i: nat, tick: Tick, sha: string)
    requires i < |w.services| && w.services[i].stage.Idle? && !w.services[i].degraded
    requires w.services[i].prevAuditCommit == w.services[i].expectedOldRef == w.tip
    requires (w.tip.Some? ==> IsObjectId(cfg, w.tip.value)) && Admits(cfg, w.tip, tick)
    requires IsObjectId(cfg, sha) && sha !in w.store
    ensures Committed(w, Run(cfg, w, [Call(i, tick), Write(i, sha), Swap(i)]), i, sha)
  {
    var w1 := Apply(cfg, w, Call(i, tick));
    BuildsNextIff(cfg, w.tip, tick);
    assert Enabled(cfg, w, Call(i, tick));
    WriteAndSwap(cfg, w1, i, sha);
    RunFirst(cfg, w, Call(i, tick), [Write(i, sha), Swap(i)]);
    assert [Call(i, tick)] + [Write(i, sha), Swap(i)] == [Call(i, tick), Write(i, sha), Swap(i)];
  }

  /** Initialised on a ref that is set, a service commits on its value. */
  lemma InitCommits(cfg: Config, w: World, i: nat, tick: Tick, sha: string)
    requires i < |w.services| && w.services[i].stage.Idle? && !w.services[i].degraded
    requires w.tip.Some? && IsObjectId(cfg, w.tip.value) && Follows(cfg, w.tip.value, tick)
    requires IsObjectId(cfg, sha) && sha !in w.store
    ensures Committed(w, Run(cfg, w, [Init(i, true), Call(i, tick), Write(i, sha), Swap(i)]), i, sha)
  {
    var w1 := Apply(cfg, w, Init(i, true));
    assert Enabled(cfg, w, Init(i, true));
    CallCommits(cfg, w1, i, tick, sha);
    RunFirst(cfg, w, Init(i, true), [Call(i, tick), Write(i, sha), Swap(i)]);
    assert [Init(i, true)] + [Call(i, tick), Write(i, sha), Swap(i)] == [Init(i, true), Call(i, tick), Write(i, sha), Swap(i)];
  }

  /** A swap succeeds exactly when nobody moved the ref since the service looked; its first loss leads to a retry. */
  lemma SwapIsDecided(cfg: Config, w: World, i: nat)
    requires i < |w.services| && w.services[i].stage.Swapping?
    ensures Enabled(cfg, w, Swap(i)) <==> w.tip == w.services[i].expectedOldRef
    ensures !w.services[i].stage.retrying ==> Apply(cfg, w, SwapFails(i)).services[i].stage == Refreshing(w.services[i].stage.tick)
  {
  }

  /** A service degrades exactly when its retry fails: in building, in writing or in a second lost swap. */
  lemma DegradesIff(cfg: Config, w: World, t: Step)
    requires Enabled(cfg, w, t) && !w.services[t.i].degraded && (w.tip.Some? ==> IsObjectId(cfg, w.tip.value))
    ensures var stage := w.services[t.i].stage;
            Apply(cfg, w, t).services[t.i].degraded <==>
              (t.WriteFails? && stage.retrying) || (t.SwapFails? && stage.retrying) || (t.Refresh? && !Admits(cfg, w.tip, stage.tick))
  {
    if t.Refresh? {
      BuildsNextIff(cfg, w.tip, w.services[t.i].stage.tick);
    }
  }

  /** A degraded service never commits or fails again: from then on it skips every call. */
  lemma {:induction false} DegradedSkipsAll(cfg: Config, w: World, steps: seq<Step>, i: nat)
    requires i < |w.services| && w.services[i].degraded && w.services[i].stage.Idle?
    ensures var s, u := w.services[i], Run(cfg, w, steps);
            && |u.services| == |w.services| && u.services[i].degraded && u.services[i].stage.Idle?
            && u.services[i].committed == s.committed && u.services[i].failed == s.failed
            && u.services[i].skipped - s.skipped == u.services[i].calls - s.calls
    decreases |steps|
  {
    if steps != [] {
      DegradedSkipsAll(cfg, w, steps[..|steps| - 1], i);
    }
  }

  // ---------------------------------------------------------------- every commit is in the chain

  /** What all services together have counted as committed. */
  ghost function Total(ss: seq<Service>): nat {
    if ss == [] then 0 else Total(ss[..|ss| - 1]) + ss[|ss| - 1].committed
  }

  lemma {:induction false} TotalWith(ss: seq<Service>, i: nat, s: Service)
    requires i < |ss|
    ensures Total(ss[i := s]) == Total(ss) - ss[i].committed + s.committed
    decreases |ss|
  {
    var n := |ss| - 1;
    if i < n {
      TotalWith(ss[..n], i, s);
      assert ss[i := s][..n] == ss[..n][i := s];
    } else {
      assert ss[i := s][..n] == ss[..n];
    }
  }

  lemma {:induction false} TotalFresh(n: nat)
    ensures Total(Fresh(n).services) == 0
  {
    if n > 0 {
      TotalFresh(n - 1);
      assert Fresh(n).services[..n - 1] == Fresh(n - 1).services;
    }
  }

  /** `cs` is the chain that the ref heads, with one commit for each that was counted. */
  ghost predicate Tallies(cfg: Config, w: World, cs: seq<string>) {
    && |cs| == Total(w.services)
    && (if w.tip.Some? then IsChain(w.store, cfg.graph, cfg.writer, cs) && cs[0] == w.tip.value else cs == [])
  }

  ghost predicate Tallied(cfg: Config, w: World) {
    exists cs :: Tallies(cfg, w, cs)
  }

  /** A successful swap puts its commit in front of the chain. */
  lemma SwapTallies(cfg: Config, w: World, t: Step, cs: seq<string>)
    requires Regular(cfg, w) && TipFits(cfg, w) && Advances(cfg, w, t) && Tallies(cfg, w, cs) && t.Swap? && Enabled(cfg, w, t)
    ensures Tallies(cfg, Apply(cfg, w, t), [w.services[t.i].stage.sha] + cs)
  {
    var s := w.services[t.i];
    var sha, tick := s.stage.sha, s.stage.tick;
    assert Coherent(cfg, w.store, s);
    BuiltIsSound(cfg, s.prevAuditCommit, tick, w.store, sha);
    TotalWith(w.services, t.i, Moved(cfg, w, t));
    if w.tip.None? {
      assert [sha] + cs == [sha];
      assert IsChain(w.store, cfg.graph, cfg.writer, [sha]);
    } else {
      assert Sound(w.store, cfg.graph, cfg.writer, cs[0]);
      ChainLonger(w.store, cfg.graph, cfg.writer, sha, cs);
    }
  }

  /** Any other step counts no commit, leaves the ref alone and loses no object. */
  lemma OthersLeaveTheChain(cfg: Config, w: World, t: Step)
    requires Regular(cfg, w) && Enabled(cfg, w, t) && !t.Swap?
    ensures Moved(cfg, w, t).committed == w.services[t.i].committed && Apply(cfg, w, t).tip == w.tip
    ensures forall c :: c in w.store ==> c in Apply(cfg, w, t).store && Apply(cfg, w, t).store[c] == w.store[c]
  {
  }

  lemma OtherTallies(cfg: Config, w: World, t: Step, cs: seq<string>)
    requires Regular(cfg, w) && Enabled(cfg, w, t) && !t.Swap? && Tallies(cfg, w, cs)
    ensures Tallies(cfg, Apply(cfg, w, t), cs)
  {
    OthersLeaveTheChain(cfg, w, t);
    TotalWith(w.services, t.i, Moved(cfg, w, t));
    if w.tip.Some? { ChainKept(w.store, Apply(cfg, w, t).store, cfg.graph, cfg.writer, cs); }
  }

  lemma TallyStep(cfg: Config, w: World, t: Step)
    requires Regular(cfg, w) && TipFits(cfg, w) && Advances(cfg, w, t) && Tallied(cfg, w)
    ensures Tallied(cfg, Apply(cfg, w, t))
  {
    if Enabled(cfg, w, t) {
      var cs :| Tallies(cfg, w, cs);
      if t.Swap? {
        SwapTallies(cfg, w, t, cs);
      } else {
        OtherTallies(cfg, w, t, cs);
      }
    }
  }

  /** In a run whose successful swaps advance the tick, the chain holds every commit that was counted, and no other. */
  lemma {:induction false} EveryCommitIsInTheChain(cfg: Config, n: nat, steps: seq<Step>)
    requires AllAdvance(cfg, Fresh(n), steps)
    ensures Tallied(cfg, Run(cfg, Fresh(n), steps))
    decreases |steps|
  {
    if steps == [] {
      TotalFresh(n);
      assert Tallies(cfg, Fresh(n), []);
    } else {
      var before := steps[..|steps| - 1];
      EveryCommitIsInTheChain(cfg, n, before);
      TipFitsRun(cfg, Fresh(n), before);
      TallyStep(cfg, Run(cfg, Fresh(n), before), steps[|steps| - 1]);
    }
  }

  lemma ChainsHaveOneLength(store: Store, graph: string, writer: string, a: seq<string>, b: seq<string>)
    requires IsChain(store, graph, writer, a) && IsChain(store, graph, writer, b) && a[0] == b[0]
    ensures |a| == |b|
  {
    ChainThrough(store, graph, writer, a, b);
    ChainThrough(store, graph, writer, b, a);
  }

  // ---------------------------------------------------------------- the verifier at work

  /** Walking back from the tip of such a run reports a valid chain down to a genesis and no error, and verifies as many
      receipts as the services counted commits. */
  method VerifyRun(cfg: Config, n: nat, ghost steps: seq<Step>, store: Store, tip: string) returns (result: ChainResult)
    requires AllAdvance(cfg, Fresh(n), steps)
    requires store == Run(cfg, Fresh(n), steps).store && Run(cfg, Fresh(n), steps).tip == Some(tip)
    ensures result.status == VALID && result.errors == [] && result.genesisCommit.Some?
    ensures result.receiptsVerified == Total(Run(cfg, Fresh(n), steps).services)
  {
    TipFitsRun(cfg, Fresh(n), steps);
    result := new ChainResult();
    WalkChain(store, cfg.graph, cfg.writer, tip, None, result);
    EveryCommitIsInTheChain(cfg, n, steps);
    ghost var cs :| Tallies(cfg, Run(cfg, Fresh(n), steps), cs);
    ghost var seg :| Counted(store, cfg.graph, cfg.writer, tip, None, result, seg);
    ChainsHaveOneLength(store, cfg.graph, cfg.writer, cs, seg);
  }
}
