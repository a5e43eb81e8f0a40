/** The backward walk over an audit chain, on arbitrary commit stores. */
module AuditVerifier {
  import opened Graphs
  import opened AuditReceipts

  datatype Code =
    | MISSING_RECEIPT_BLOB | RECEIPT_TREE_INVALID | CBOR_DECODE_FAILED | TRAILER_MISMATCH | RECEIPT_SCHEMA_INVALID
    | OID_FORMAT_INVALID | OID_LENGTH_MISMATCH | TICK_MONOTONICITY | WRITER_CONSISTENCY | GENESIS_HAS_PARENTS
    | SINCE_NOT_FOUND | CONTINUATION_NO_PARENT | GIT_PARENT_MISMATCH

  datatype Status = VALID | PARTIAL | BROKEN_CHAIN | DATA_MISMATCH | ERROR

  datatype Fault = Fault(code: Code, commit: Option<string>)

  datatype Warning = TickGap(older: int, newer: int) | TipMoved(from: string, to: string)

  // ---------------------------------------------------------------- what a good chain is

  predicate HasReceipt(store: Store, c: string) {
    c in store && store[c].body.Readable? && SchemaValid(store[c].body.record)
  }

  function ReceiptAt(store: Store, c: string): Receipt
    requires HasReceipt(store, c)
  {
    ReadReceipt(store[c].body.record)
  }

  /** `validateTrailerConsistency` finds nothing wrong. */
  predicate TrailersMatch(r: Receipt, t: Trailers) {
    && t.schema == 1 && t.graph == r.graphName && t.writer == r.writerId
    && Lower(t.dataCommit) == Lower(r.dataCommit) && Lower(t.opsDigest) == Lower(r.opsDigest)
  }

  predicate IdsFit(r: Receipt) {
    OidFormat(r.dataCommit) && OidFormat(r.prevAuditCommit) && |r.prevAuditCommit| == |r.dataCommit|
  }

  /** The commit carries a sound receipt of this writer and graph. */
  predicate Sound(store: Store, graph: string, writer: string, c: string) {
    && HasReceipt(store, c)
    && var r := ReceiptAt(store, c);
    && IdsFit(r) && TrailersMatch(r, store[c].body.trailers) && r.writerId == writer && r.graphName == graph
  }

  /** `older` may come right before `newer`. */
  predicate Links(older: Receipt, newer: Receipt) {
    older.tickEnd < newer.tickStart && |older.dataCommit| == |newer.dataCommit|
  }

  predicate IsGenesis(store: Store, c: string)
    requires HasReceipt(store, c)
  {
    ReceiptAt(store, c).prevAuditCommit == ZeroHash(|ReceiptAt(store, c).dataCommit|)
  }

  /** A chain from its tip to its genesis: every commit is sound, points to the next both by its receipt and by its
      only parent, and ticks go down; the genesis has the zero hash and no parent. */
  ghost predicate IsChain(store: Store, graph: string, writer: string, cs: seq<string>) {
    && cs != []
    && (forall i :: 0 <= i < |cs| ==> Sound(store, graph, writer, cs[i]))
    && (forall i :: 0 <= i < |cs| - 1 ==> Continues(store, cs[i], cs[i + 1]))
    && IsGenesis(store, cs[|cs| - 1]) && store[cs[|cs| - 1]].parents == []
  }

  /** The receipt of `c` is not a genesis and names `d`, its only parent, which comes right before it. */
  predicate Continues(store: Store, c: string, d: string)
    requires HasReceipt(store, c) && HasReceipt(store, d)
  {
    && !IsGenesis(store, c) && ReceiptAt(store, c).prevAuditCommit == d && store[c].parents == [d]
    && Links(ReceiptAt(store, d), ReceiptAt(store, c))
  }

  /** Sound and continuing down to some commit, not necessarily a genesis. */
  ghost predicate IsSegment(store: Store, graph: string, writer: string, cs: seq<string>) {
    && cs != []
    && (forall i :: 0 <= i < |cs| ==> Sound(store, graph, writer, cs[i]))
    && (forall i :: 0 <= i < |cs| - 1 ==> Continues(store, cs[i], cs[i + 1]))
  }

  ghost predicate HasChain(store: Store, graph: string, writer: string, tip: string) {
    exists cs :: IsChain(store, graph, writer, cs) && cs[0] == tip
  }

  /** `since` is met on the way down from the tip. */
  ghost predicate HasSegmentTo(store: Store, graph: string, writer: string, tip: string, since: string) {
    exists cs :: IsSegment(store, graph, writer, cs) && cs[0] == tip && cs[|cs| - 1] == since
  }

  /** The `i`-th commit of `cs` stores the receipt `rs[i]` of this writer and graph under matching trailers, follows the
      next one by its only parent, its receipt, its tick and its id length, or is a genesis if there is none. */
  ghost predicate StoredAt(store: Store, graph: string, writer: string, cs: seq<string>, rs: seq<Receipt>, i: int) {
    && 0 <= i < |cs| == |rs| && cs[i] in store
    && var c, r, last := store[cs[i]], rs[i], i == |cs| - 1;
    && c.body.Readable? && c.body.record == RecordOf(r)
    && r.graphName == graph && graph != "" && r.writerId == writer && writer != ""
    && 1 <= r.tickStart == r.tickEnd && r.timestamp >= 0
    && OidFormat(r.dataCommit) && OidFormat(r.prevAuditCommit) && |r.prevAuditCommit| == |r.dataCommit|
    && var t := c.body.trailers;
    && t.schema == 1 && t.graph == graph && t.writer == writer
    && Lower(t.dataCommit) == Lower(r.dataCommit) && Lower(t.opsDigest) == Lower(r.opsDigest)
    && c.parents == (if last then [] else [cs[i + 1]])
    && r.prevAuditCommit == (if last then ZeroHash(|r.dataCommit|) else cs[i + 1])
    && (!last ==> cs[i + 1] != ZeroHash(|r.dataCommit|) && rs[i + 1].tickEnd < r.tickStart && |rs[i + 1].dataCommit| == |r.dataCommit|)
  }

  ghost predicate AllStored(store: Store, graph: string, writer: string, cs: seq<string>, rs: seq<Receipt>) {
    cs != [] && |rs| == |cs| && forall i {:trigger StoredAt(store, graph, writer, cs, rs, i)} :: 0 <= i < |cs| ==> StoredAt(store, graph, writer, cs, rs, i)
  }

  ghost function ReceiptsOf(store: Store, graph: string, writer: string, cs: seq<string>): (rs: seq<Receipt>)
    requires IsChain(store, graph, writer, cs)
    ensures |rs| == |cs| && forall i :: 0 <= i < |cs| ==> Sound(store, graph, writer, cs[i]) && rs[i] == ReceiptAt(store, cs[i])
  {
    seq(|cs|, i requires 0 <= i < |cs| => assert Sound(store, graph, writer, cs[i]); ReceiptAt(store, cs[i]))
  }

  lemma ChainStores(store: Store, graph: string, writer: string, cs: seq<string>, i: nat)
    requires IsChain(store, graph, writer, cs) && i < |cs|
    ensures StoredAt(store, graph, writer, cs, ReceiptsOf(store, graph, writer, cs), i)
  {
    var rs := ReceiptsOf(store, graph, writer, cs);
    assert Sound(store, graph, writer, cs[i]);
    SchemaIsOfReceipts(store[cs[i]].body.record);
    SchemaIsExact(rs[i]);
    if i < |cs| - 1 {
      assert Sound(store, graph, writer, cs[i + 1]) && Continues(store, cs[i], cs[i + 1]);
    }
  }

  lemma StoredIsSound(store: Store, graph: string, writer: string, cs: seq<string>, rs: seq<Receipt>, i: nat)
    requires StoredAt(store, graph, writer, cs, rs, i)
    ensures Sound(store, graph, writer, cs[i]) && ReceiptAt(store, cs[i]) == rs[i]
  {
    SchemaIsExact(rs[i]);
  }

  /** A chain is a list of stored receipts, each following the next. */
  lemma ChainIsExact(store: Store, graph: string, writer: string, cs: seq<string>)
    ensures IsChain(store, graph, writer, cs) <==> exists rs :: AllStored(store, graph, writer, cs, rs)
  {
    if IsChain(store, graph, writer, cs) {
      var rs := ReceiptsOf(store, graph, writer, cs);
      forall i | 0 <= i < |cs| ensures StoredAt(store, graph, writer, cs, rs, i) { ChainStores(store, graph, writer, cs, i); }
      assert AllStored(store, graph, writer, cs, rs);
    }
    if rs :| AllStored(store, graph, writer, cs, rs) {
      forall i | 0 <= i < |cs| ensures Sound(store, graph, writer, cs[i]) && ReceiptAt(store, cs[i]) == rs[i] {
        assert StoredAt(store, graph, writer, cs, rs, i);
        StoredIsSound(store, graph, writer, cs, rs, i);
      }
      forall i | 0 <= i < |cs| - 1 ensures Continues(store, cs[i], cs[i + 1]) {
        assert StoredAt(store, graph, writer, cs, rs, i);
      }
      assert StoredAt(store, graph, writer, cs, rs, |cs| - 1);
    }
  }

  /** In a chain all commits differ and ticks descend throughout. */
  lemma {:induction false} TicksDescend(store: Store, graph: string, writer: string, cs: seq<string>, i: nat, j: nat)
    requires IsSegment(store, graph, writer, cs) && i < j < |cs|
    ensures ReceiptAt(store, cs[j]).tickStart <= ReceiptAt(store, cs[i]).tickStart - (j - i)
    ensures cs[i] != cs[j]
    decreases j - i
  {
    assert Sound(store, graph, writer, cs[j - 1]) && Sound(store, graph, writer, cs[j]);
    assert Continues(store, cs[j - 1], cs[j]);
    if i < j - 1 {
      TicksDescend(store, graph, writer, cs, i, j - 1);
    }
  }

  /** Two segments from the same tip run along each other. */
  lemma {:induction false} SegmentsAgree(store: Store, graph: string, writer: string, a: seq<string>, b: seq<string>, i: nat)
    requires IsSegment(store, graph, writer, a) && IsSegment(store, graph, writer, b) && a[0] == b[0]
    requires i < |a| && i < |b|
    ensures a[i] == b[i]
  {
    if i > 0 {
      SegmentsAgree(store, graph, writer, a, b, i - 1);
      assert Continues(store, a[i - 1], a[i]) && Continues(store, b[i - 1], b[i]);
    }
  }

  lemma PointsOn(store: Store, graph: string, writer: string, seg: seq<string>, i: nat)
    requires IsSegment(store, graph, writer, seg) && i < |seg| - 1
    ensures HasReceipt(store, seg[i]) && PointsTo(store, seg[i], ReceiptAt(store, seg[i]).prevAuditCommit)
  {
    assert Continues(store, seg[i], seg[i + 1]);
  }

  /** What stands at the end of a segment decides whether it extends to a chain. */
  lemma ChainThrough(store: Store, graph: string, writer: string, seg: seq<string>, cs: seq<string>)
    requires IsSegment(store, graph, writer, seg) && IsChain(store, graph, writer, cs) && cs[0] == seg[0]
    ensures |seg| <= |cs| && cs[|seg| - 1] == seg[|seg| - 1]
    ensures |seg| == |cs| || Continues(store, cs[|seg| - 1], cs[|seg|])
  {
    var m := if |cs| < |seg| then |cs| else |seg|;
    if m < |seg| { PointsOn(store, graph, writer, seg, m - 1); }
    SegmentsAgree(store, graph, writer, seg, cs, m - 1);
  }

  // ---------------------------------------------------------------- the walk

  class ChainResult {
    var status: Status
    var receiptsVerified: nat
    var receiptsScanned: nat
    var genesisCommit: Option<string>
    var stoppedAt: Option<string>
    var errors: seq<Fault>
    var warnings: seq<Warning>

    constructor ()
      ensures status == VALID && receiptsVerified == 0 && receiptsScanned == 0
      ensures genesisCommit == None && stoppedAt == None && errors == [] && warnings == []
    {
      status, receiptsVerified, receiptsScanned := VALID, 0, 0;
      genesisCommit, stoppedAt, errors, warnings := None, None, [], [];
    }

    /** `_addError` */
    method AddError(code: Code, commit: Option<string>)
      modifies `errors, `status
      ensures errors == old(errors) + [Fault(code, commit)]
      ensures status == if old(status) in {VALID, PARTIAL} then ERROR else old(status)
    {
      errors := errors + [Fault(code, commit)];
      if status == VALID || status == PARTIAL {
        status := ERROR;
      }
    }

    /** An error after which the status is set outright. */
    method Fail(code: Code, commit: Option<string>, verdict: Status)
      modifies `errors, `status
      ensures errors == old(errors) + [Fault(code, commit)] && status == verdict
    {
      AddError(code, commit);
      status := verdict;
    }
  }

  predicate OnlyZeros(s: string) {
    s != "" && forall i :: 0 <= i < |s| ==> s[i] == '0'
  }

  predicate FormatsFit(r: Receipt) {
    OidFormat(r.dataCommit) && (OidFormat(r.prevAuditCommit) || OnlyZeros(r.prevAuditCommit))
  }

  predicate LengthsFit(r: Receipt, newer: Option<Receipt>) {
    |r.prevAuditCommit| == |r.dataCommit| && (newer.Some? ==> |newer.value.dataCommit| == |r.dataCommit|)
  }

  /** The reported fault is the first one the receipt has, in the order ids, lengths, trailers, tick, names. */
  predicate ReceiptExplains(f: Fault, graph: string, writer: string, c: string, r: Receipt, t: Trailers,
          newer: Option<Receipt>) {
    var late := newer.Some? && r.tickEnd >= newer.value.tickStart;
    && f.commit == Some(c)
    && match f.code
       case OID_FORMAT_INVALID => !FormatsFit(r)
       case OID_LENGTH_MISMATCH => FormatsFit(r) && !LengthsFit(r, newer)
       case TRAILER_MISMATCH => FormatsFit(r) && LengthsFit(r, newer) && !TrailersMatch(r, t)
       case TICK_MONOTONICITY => FormatsFit(r) && LengthsFit(r, newer) && TrailersMatch(r, t) && late
       case WRITER_CONSISTENCY =>
         FormatsFit(r) && LengthsFit(r, newer) && TrailersMatch(r, t) && !late && (r.writerId != writer || r.graphName != graph)
       case _ => false
  }

  predicate CommitExplains(f: Fault, store: Store, graph: string, writer: string, c: string, newer: Option<Receipt>) {
    if c in store && store[c].body.Readable? && SchemaValid(store[c].body.record) then
      ReceiptExplains(f, graph, writer, c, ReadReceipt(store[c].body.record), store[c].body.trailers, newer)
    else
      && f.commit == Some(c)
      && match f.code
         case MISSING_RECEIPT_BLOB => c !in store || store[c].body.NoTree? || store[c].body.NoBlob?
         case RECEIPT_TREE_INVALID => c in store && (store[c].body.TreeUnreadable? || store[c].body.WrongEntries?)
         case CBOR_DECODE_FAILED => c in store && store[c].body.BadEncoding?
         case TRAILER_MISMATCH => c in store && store[c].body.BadTrailers?
         case RECEIPT_SCHEMA_INVALID => c in store && store[c].body.Readable?
         case _ => false
  }

  /** The status a fault leads to. */
  ghost predicate Verdict(f: Fault, store: Store, status: Status) {
    match f.code
    case TRAILER_MISMATCH => status == DATA_MISMATCH
    case RECEIPT_TREE_INVALID =>
      var wrong := f.commit.Some? && f.commit.value in store && store[f.commit.value].body.WrongEntries?;
      status == if wrong then BROKEN_CHAIN else ERROR
    case OID_FORMAT_INVALID => status == BROKEN_CHAIN
    case TICK_MONOTONICITY => status == BROKEN_CHAIN
    case WRITER_CONSISTENCY => status == BROKEN_CHAIN
    case GENESIS_HAS_PARENTS => status == BROKEN_CHAIN
    case CONTINUATION_NO_PARENT => status == BROKEN_CHAIN
    case GIT_PARENT_MISMATCH => status == BROKEN_CHAIN
    case _ => status == ERROR
  }

  /** `_readReceipt` and the checks of one commit up to the writer's name, in the order of the walk; `prevReceipt` is
      the newer receipt, if any. A tick gap is warned about. */
  method CheckCommit(store: Store, graph: string, writer: string, current: string, prevReceipt: Option<Receipt>,
          result: ChainResult)
    returns (ok: bool)
    requires prevReceipt.Some? ==> prevReceipt.value.writerId == writer && prevReceipt.value.graphName == graph
    modifies result`errors, result`status, result`warnings
    ensures ok <==> Sound(store, graph, writer, current) && (prevReceipt.Some? ==> Links(ReceiptAt(store, current), prevReceipt.value))
    ensures ok ==> result.errors == old(result.errors) && result.status == old(result.status)
    ensures ok ==> result.warnings == old(result.warnings) + GapWarning(ReceiptAt(store, current), prevReceipt)
    ensures !ok ==> |result.errors| == |old(result.errors)| + 1 && result.status != VALID && result.status != PARTIAL
    ensures !ok ==> CommitExplains(result.errors[|old(result.errors)|], store, graph, writer, current, prevReceipt)
    ensures !ok && old(result.status).VALID? ==> Verdict(result.errors[|old(result.errors)|], store, result.status)
  {
    if current !in store {
      result.AddError(MISSING_RECEIPT_BLOB, Some(current));
      return false;
    }
    match store[current].body {
      case NoTree =>
        result.AddError(MISSING_RECEIPT_BLOB, Some(current));
        return false;
      case TreeUnreadable =>
        result.AddError(RECEIPT_TREE_INVALID, Some(current));
        return false;
      case WrongEntries =>
        result.Fail(RECEIPT_TREE_INVALID, Some(current), BROKEN_CHAIN);
        return false;
      case NoBlob =>
        result.AddError(MISSING_RECEIPT_BLOB, Some(current));
        return false;
      case BadEncoding =>
        result.Fail(CBOR_DECODE_FAILED, Some(current), ERROR);
        return false;
      case BadTrailers =>
        result.Fail(TRAILER_MISMATCH, Some(current), DATA_MISMATCH);
        return false;
      case Readable(record, trailers) =>
        if !SchemaValid(record) {
          result.AddError(RECEIPT_SCHEMA_INVALID, Some(current));
          return false;
        }
        ok := CheckReceipt(graph, writer, current, ReadReceipt(record), trailers, prevReceipt, result, store);
    }
  }

  function GapWarning(r: Receipt, prevReceipt: Option<Receipt>): seq<Warning> {
    if prevReceipt.Some? && r.tickEnd + 1 < prevReceipt.value.tickStart then [TickGap(r.tickEnd, prevReceipt.value.tickStart)] else []
  }

  /** A gap is reported exactly when ticks are missing between the older and the newer receipt, from the older tick up. */
  lemma GapIsExact(r: Receipt, newer: Receipt)
    ensures GapWarning(r, None) == [] && |GapWarning(r, Some(newer))| <= 1
    ensures GapWarning(r, Some(newer)) != [] <==> newer.tickStart - r.tickEnd > 1
    ensures forall w :: w in GapWarning(r, Some(newer)) ==> w.TickGap? && w.older == r.tickEnd && w.newer == newer.tickStart
  {
  }

  /** The checks on a receipt that could be read; the chain's id length is that of the newer receipt. */
  method CheckReceipt(graph: string, writer: string, current: string, r: Receipt, trailers: Trailers,
          prevReceipt: Option<Receipt>, result: ChainResult, ghost store: Store)
    returns (ok: bool)
    requires prevReceipt.Some? ==> prevReceipt.value.writerId == writer && prevReceipt.value.graphName == graph
    modifies result`errors, result`status, result`warnings
    ensures ok <==> IdsFit(r) && TrailersMatch(r, trailers) && r.writerId == writer && r.graphName == graph &&
                    (prevReceipt.Some? ==> Links(r, prevReceipt.value))
    ensures ok ==> result.errors == old(result.errors) && result.status == old(result.status)
    ensures ok ==> result.warnings == old(result.warnings) + GapWarning(r, prevReceipt)
    ensures !ok ==> |result.errors| == |old(result.errors)| + 1 && result.status != VALID && result.status != PARTIAL
    ensures !ok ==> ReceiptExplains(result.errors[|old(result.errors)|], graph, writer, current, r, trailers, prevReceipt)
    ensures !ok && old(result.status).VALID? ==> Verdict(result.errors[|old(result.errors)|], store, result.status)
  {
    if !OidFormat(r.dataCommit) || (!OidFormat(r.prevAuditCommit) && !OnlyZeros(r.prevAuditCommit)) {
      result.Fail(OID_FORMAT_INVALID, Some(current), BROKEN_CHAIN);
      return false;
    }
    var oidLen := |r.dataCommit|;
    if prevReceipt.Some? && oidLen != |prevReceipt.value.dataCommit| {
      result.AddError(OID_LENGTH_MISMATCH, Some(current));
      return false;
    }
    if |r.prevAuditCommit| != oidLen {
      result.AddError(OID_LENGTH_MISMATCH, Some(current));
      return false;
    }
    if !TrailersMatch(r, trailers) {
      result.Fail(TRAILER_MISMATCH, Some(current), DATA_MISMATCH);
      return false;
    }
    if prevReceipt.Some? {
      var newer := prevReceipt.value;
      if r.tickEnd >= newer.tickStart {
        result.Fail(TICK_MONOTONICITY, Some(current), BROKEN_CHAIN);
        return false;
      }
      if r.tickEnd + 1 < newer.tickStart {
        result.warnings := result.warnings + [TickGap(r.tickEnd, newer.tickStart)];
      }
      if r.writerId != newer.writerId || r.graphName != newer.graphName {
        result.Fail(WRITER_CONSISTENCY, Some(current), BROKEN_CHAIN);
        return false;
      }
    }
    if r.writerId != writer || r.graphName != graph {
      result.Fail(WRITER_CONSISTENCY, Some(current), BROKEN_CHAIN);
      return false;
    }
    ok := true;
  }

  /** The commits of `seg` have been verified, and `current` is where the last of them points. */
  ghost predicate Walked(store: Store, graph: string, writer: string, tip: string, seg: seq<string>, current: string) {
    if seg == [] then current == tip else
      && IsSegment(store, graph, writer, seg) && seg[0] == tip
      && PointsTo(store, seg[|seg| - 1], current)
  }

  /** The receipt is no genesis and names `d`, the only parent. */
  predicate PointsTo(store: Store, c: string, d: string)
    requires HasReceipt(store, c)
  {
    !IsGenesis(store, c) && ReceiptAt(store, c).prevAuditCommit == d && store[c].parents == [d]
  }

  ghost function Newer(store: Store, seg: seq<string>): Option<Receipt>
    requires seg != [] ==> HasReceipt(store, seg[|seg| - 1])
  {
    if seg == [] then None else Some(ReceiptAt(store, seg[|seg| - 1]))
  }

  lemma WalkedOn(store: Store, graph: string, writer: string, tip: string, seg: seq<string>, current: string)
    requires Walked(store, graph, writer, tip, seg, current) && Sound(store, graph, writer, current)
    requires Newer(store, seg).Some? ==> Links(ReceiptAt(store, current), Newer(store, seg).value)
    ensures IsSegment(store, graph, writer, seg + [current]) && (seg + [current])[0] == tip
  {
    var more := seg + [current];
    forall i | 0 <= i < |more| - 1 ensures Continues(store, more[i], more[i + 1]) {
      if i < |seg| - 1 { assert Continues(store, seg[i], seg[i + 1]); }
    }
  }

  /** A longer segment from the tip must go through the current commit. */
  lemma MustPass(store: Store, graph: string, writer: string, tip: string, seg: seq<string>, current: string, b: seq<string>)
    requires Walked(store, graph, writer, tip, seg, current) && IsSegment(store, graph, writer, b) && b[0] == tip && |b| > |seg|
    ensures b[|seg|] == current && Sound(store, graph, writer, current)
    ensures Newer(store, seg).Some? ==> Links(ReceiptAt(store, current), Newer(store, seg).value)
  {
    if seg != [] {
      SegmentsAgree(store, graph, writer, seg, b, |seg| - 1);
      assert Continues(store, b[|seg| - 1], b[|seg|]);
    }
  }

  /** No chain and no segment goes on from here. */
  ghost predicate Stuck(store: Store, graph: string, writer: string, tip: string, seg: seq<string>) {
    && !HasChain(store, graph, writer, tip)
    && forall since :: since !in seg ==> !HasSegmentTo(store, graph, writer, tip, since)
  }

  /** A segment that ends at a commit outside `seg` is longer than `seg`. */
  lemma ReachesBeyond(store: Store, graph: string, writer: string, seg: seq<string>, b: seq<string>)
    requires seg == [] || (IsSegment(store, graph, writer, seg) && b != [] && b[0] == seg[0])
    requires IsSegment(store, graph, writer, b) && b[|b| - 1] !in seg
    ensures |b| > |seg|
  {
    if |b| <= |seg| {
      SegmentsAgree(store, graph, writer, seg, b, |b| - 1);
    }
  }

  lemma StuckAt(store: Store, graph: string, writer: string, tip: string, seg: seq<string>, current: string)
    requires Walked(store, graph, writer, tip, seg, current)
    requires !(Sound(store, graph, writer, current) && (Newer(store, seg).Some? ==> Links(ReceiptAt(store, current), Newer(store, seg).value)))
    ensures Stuck(store, graph, writer, tip, seg)
  {
    forall cs | IsChain(store, graph, writer, cs) ensures cs[0] != tip {
      if cs[0] == tip {
        if seg != [] { ChainThrough(store, graph, writer, seg, cs); }
        MustPass(store, graph, writer, tip, seg, current, cs);
      }
    }
    forall cs, since | IsSegment(store, graph, writer, cs) && cs[0] == tip && since !in seg ensures cs[|cs| - 1] != since {
      if cs[|cs| - 1] == since {
        ReachesBeyond(store, graph, writer, seg, cs);
        MustPass(store, graph, writer, tip, seg, current, cs);
      }
    }
  }

  /** Verified, but neither a proper genesis nor pointing on. */
  lemma StuckAfter(store: Store, graph: string, writer: string, tip: string, seg: seq<string>)
    requires IsSegment(store, graph, writer, seg) && seg[0] == tip
    requires var c := seg[|seg| - 1]; if IsGenesis(store, c) then store[c].parents != [] else !PointsTo(store, c, ReceiptAt(store, c).prevAuditCommit)
    ensures Stuck(store, graph, writer, tip, seg)
  {
    forall cs | IsChain(store, graph, writer, cs) ensures cs[0] != tip {
      if cs[0] == tip { ChainThrough(store, graph, writer, seg, cs); }
    }
    NoSegmentBeyond(store, graph, writer, tip, seg);
  }

  lemma NoSegmentBeyond(store: Store, graph: string, writer: string, tip: string, seg: seq<string>)
    requires IsSegment(store, graph, writer, seg) && seg[0] == tip
    requires var c := seg[|seg| - 1]; IsGenesis(store, c) || !PointsTo(store, c, ReceiptAt(store, c).prevAuditCommit)
    ensures forall since :: since !in seg ==> !HasSegmentTo(store, graph, writer, tip, since)
  {
    forall cs, since | IsSegment(store, graph, writer, cs) && cs[0] == tip && since !in seg ensures cs[|cs| - 1] != since {
      if cs[|cs| - 1] == since {
        ReachesBeyond(store, graph, writer, seg, cs);
        PointsOn(store, graph, writer, cs, |seg| - 1);
        SegmentsAgree(store, graph, writer, seg, cs, |seg| - 1);
      }
    }
  }

  // ---------------------------------------------------------------- what the walk reports

  ghost function TickAt(store: Store, c: string): nat {
    if HasReceipt(store, c) then ReceiptAt(store, c).tickStart else 0
  }

  /** The state of the walk between two commits. */
  ghost predicate OnTheWay(store: Store, graph: string, writer: string, tip: string, seg: seq<string>,
          current: string, r: ChainResult)
    reads r
  {
    && Walked(store, graph, writer, tip, seg, current)
    && r.status == VALID && r.errors == [] && r.genesisCommit == None && r.stoppedAt == None
    && r.receiptsVerified == r.receiptsScanned == |seg|
    && (if seg == [] then r.warnings == [] else GapsCounted(store, tip, seg[|seg| - 1], |seg|, r.warnings))
  }

  /** The ticks from `last` up to the tip are consecutive exactly when no gap was reported. */
  ghost predicate GapsCounted(store: Store, tip: string, last: string, n: nat, warnings: seq<Warning>) {
    var span := TickAt(store, tip) - TickAt(store, last) + 1;
    n <= span && (n == span <==> warnings == [])
  }

  /** What the finished walk says. */
  ghost predicate Reports(store: Store, graph: string, writer: string, tip: string, since: Option<string>, r: ChainResult)
    reads r
  {
    && (r.status == VALID <==> since.None? && HasChain(store, graph, writer, tip))
    && (r.status == PARTIAL <==> since.Some? && HasSegmentTo(store, graph, writer, tip, since.value))
    && (r.errors == [] <==> r.status == VALID || r.status == PARTIAL) && |r.errors| <= 1
    && (r.status == VALID ==> r.genesisCommit.Some? && r.receiptsVerified > 0 &&
                              GapsCounted(store, tip, r.genesisCommit.value, r.receiptsVerified, r.warnings))
    && (r.status == PARTIAL ==> r.stoppedAt == since)
    && r.receiptsVerified <= TickAt(store, tip) && r.receiptsVerified <= r.receiptsScanned <= r.receiptsVerified + 1
  }

  /** The fault of a verified commit that neither ends the chain properly nor leads on. */
  ghost predicate EndExplains(f: Fault, store: Store, c: string, since: Option<string>) {
    && HasReceipt(store, c)
    && match f.code
       case GENESIS_HAS_PARENTS => f.commit == Some(c) && since != Some(c) && IsGenesis(store, c) && store[c].parents != []
       case SINCE_NOT_FOUND => f.commit == None && since.Some? && since != Some(c) && IsGenesis(store, c) && store[c].parents == []
       case CONTINUATION_NO_PARENT => f.commit == Some(c) && since != Some(c) && !IsGenesis(store, c) && |store[c].parents| != 1
       case GIT_PARENT_MISMATCH =>
         && f.commit == Some(c) && since != Some(c) && !IsGenesis(store, c) && |store[c].parents| == 1
         && store[c].parents[0] != ReceiptAt(store, c).prevAuditCommit
       case _ => false
  }

  /** The commits of `seg` were verified without meeting `since`, and the fault lies with the next commit, or with
      how the last one goes on. */
  ghost predicate FaultAfter(store: Store, graph: string, writer: string, tip: string, since: Option<string>, seg: seq<string>, f: Fault) {
    || (f.commit.Some? && Walked(store, graph, writer, tip, seg, f.commit.value) && (since.Some? ==> since.value !in seg)
        && CommitExplains(f, store, graph, writer, f.commit.value, Newer(store, seg)))
    || (IsSegment(store, graph, writer, seg) && seg[0] == tip && (since.Some? ==> since.value !in seg) && EndExplains(f, store, seg[|seg| - 1], since))
  }

  /** The verified receipts are those of the commits of `seg`. */
  ghost predicate Counted(store: Store, graph: string, writer: string, tip: string, since: Option<string>, r: ChainResult, seg: seq<string>)
    reads r
  {
    && |seg| == r.receiptsVerified
    && (r.errors != [] ==> FaultAfter(store, graph, writer, tip, since, seg, r.errors[0]))
    && (r.status == VALID ==> IsChain(store, graph, writer, seg) && seg[0] == tip && r.genesisCommit == Some(seg[|seg| - 1]))
    && (r.status == PARTIAL ==> IsSegment(store, graph, writer, seg) && seg[0] == tip && since == Some(seg[|seg| - 1]))
  }

  /** The one reported error is the fault at which the walk had to stop, and the status is its verdict; the receipts
      counted are those of the commits on the way. */
  ghost predicate Diagnosed(store: Store, graph: string, writer: string, tip: string, since: Option<string>, r: ChainResult)
    reads r
  {
    && (r.errors != [] ==> Verdict(r.errors[0], store, r.status))
    && exists seg :: Counted(store, graph, writer, tip, since, r, seg)
  }

  lemma WalkedCount(store: Store, graph: string, writer: string, tip: string, seg: seq<string>)
    requires seg == [] || (IsSegment(store, graph, writer, seg) && seg[0] == tip)
    ensures |seg| <= TickAt(store, tip)
  {
    if seg != [] {
      assert Sound(store, graph, writer, seg[|seg| - 1]) && Sound(store, graph, writer, seg[0]);
      if |seg| > 1 { TicksDescend(store, graph, writer, seg, 0, |seg| - 1); }
    }
  }

  /** Stopping with a fault of the last verified commit. */
  lemma EndsInFault(store: Store, graph: string, writer: string, tip: string, since: Option<string>, seg: seq<string>, r: ChainResult)
    requires IsSegment(store, graph, writer, seg) && seg[0] == tip && (since.Some? ==> since.value !in seg)
    requires |r.errors| == 1 && EndExplains(r.errors[0], store, seg[|seg| - 1], since) && Verdict(r.errors[0], store, r.status)
    requires r.receiptsVerified == r.receiptsScanned == |seg|
    ensures Reports(store, graph, writer, tip, since, r) && Diagnosed(store, graph, writer, tip, since, r)
  {
    WalkedCount(store, graph, writer, tip, seg);
    assert Counted(store, graph, writer, tip, since, r, seg);
    if r.errors[0].code.SINCE_NOT_FOUND? {
      NoSegmentBeyond(store, graph, writer, tip, seg);
    } else {
      StuckAfter(store, graph, writer, tip, seg);
    }
  }

  lemma EndsAtBoundary(store: Store, graph: string, writer: string, tip: string, since: Option<string>, seg: seq<string>, r: ChainResult)
    requires IsSegment(store, graph, writer, seg) && seg[0] == tip && since == Some(seg[|seg| - 1])
    requires r.errors == [] && r.status == PARTIAL && r.stoppedAt == since && r.receiptsVerified == r.receiptsScanned == |seg|
    ensures Reports(store, graph, writer, tip, since, r) && Diagnosed(store, graph, writer, tip, since, r)
  {
    WalkedCount(store, graph, writer, tip, seg);
    assert Counted(store, graph, writer, tip, since, r, seg);
  }

  lemma EndsAtGenesis(store: Store, graph: string, writer: string, tip: string, seg: seq<string>, r: ChainResult)
    requires IsSegment(store, graph, writer, seg) && seg[0] == tip && IsGenesis(store, seg[|seg| - 1]) && store[seg[|seg| - 1]].parents == []
    requires r.errors == [] && r.status == VALID && r.genesisCommit == Some(seg[|seg| - 1]) && r.receiptsVerified == r.receiptsScanned == |seg|
    requires GapsCounted(store, tip, seg[|seg| - 1], |seg|, r.warnings)
    ensures Reports(store, graph, writer, tip, None, r) && Diagnosed(store, graph, writer, tip, None, r)
  {
    WalkedCount(store, graph, writer, tip, seg);
    assert IsChain(store, graph, writer, seg);
    assert Counted(store, graph, writer, tip, None, r, seg);
  }

  /** The step from a verified commit: a boundary, the genesis, or on to the parent. */
  method Advance(store: Store, graph: string, writer: string, tip: string, since: Option<string>, current: string,
          result: ChainResult, ghost seg: seq<string>)
    returns (done: bool)
    requires IsSegment(store, graph, writer, seg) && seg[0] == tip && seg[|seg| - 1] == current
    requires result.status == VALID && result.errors == [] && result.genesisCommit == None && result.stoppedAt == None
    requires result.receiptsVerified == result.receiptsScanned == |seg|
    requires GapsCounted(store, tip, current, |seg|, result.warnings)
    requires since.Some? ==> since.value !in seg[..|seg| - 1]
    modifies result`status, result`errors, result`genesisCommit, result`stoppedAt
    ensures done ==> Reports(store, graph, writer, tip, since, result)
    ensures done ==> Diagnosed(store, graph, writer, tip, since, result)
    ensures !done ==> OnTheWay(store, graph, writer, tip, seg, ReceiptAt(store, current).prevAuditCommit, result)
    ensures !done && since.Some? ==> since.value !in seg
    ensures !done ==> ReceiptAt(store, current).prevAuditCommit != ""
  {
    assert Sound(store, graph, writer, current);
    var receipt := ReceiptAt(store, current);
    if since == Some(current) {
      result.stoppedAt := Some(current);
      if |result.errors| == 0 {
        result.status := PARTIAL;
      }
      EndsAtBoundary(store, graph, writer, tip, since, seg, result);
      return true;
    }
    assert since.Some? ==> since.value !in seg by { assert seg == seg[..|seg| - 1] + [current]; }
    if receipt.prevAuditCommit == ZeroHash(|receipt.dataCommit|) {
      result.genesisCommit := Some(current);
      if |store[current].parents| != 0 {
        result.Fail(GENESIS_HAS_PARENTS, Some(current), BROKEN_CHAIN);
        EndsInFault(store, graph, writer, tip, since, seg, result);
        return true;
      }
      if since.Some? {
        result.Fail(SINCE_NOT_FOUND, None, ERROR);
        EndsInFault(store, graph, writer, tip, since, seg, result);
        return true;
      }
      if |result.errors| == 0 {
        result.status := VALID;
      }
      EndsAtGenesis(store, graph, writer, tip, seg, result);
      return true;
    }
    if |store[current].parents| != 1 {
      result.Fail(CONTINUATION_NO_PARENT, Some(current), BROKEN_CHAIN);
      EndsInFault(store, graph, writer, tip, since, seg, result);
      return true;
    }
    if store[current].parents[0] != receipt.prevAuditCommit {
      result.Fail(GIT_PARENT_MISMATCH, Some(current), BROKEN_CHAIN);
      EndsInFault(store, graph, writer, tip, since, seg, result);
      return true;
    }
    assert store[current].parents == [receipt.prevAuditCommit];
    done := false;
  }

  /** One more commit: its gap, if there is one, has been reported. */
  lemma GapsCountedNext(store: Store, tip: string, seg: seq<string>, current: string, before: seq<Warning>)
    requires HasReceipt(store, current)
    requires if seg == [] then tip == current && before == [] else
               HasReceipt(store, seg[|seg| - 1]) && GapsCounted(store, tip, seg[|seg| - 1], |seg|, before) &&
               ReceiptAt(store, current).tickEnd < ReceiptAt(store, seg[|seg| - 1]).tickStart
    ensures GapsCounted(store, tip, current, |seg| + 1, before + GapWarning(ReceiptAt(store, current), Newer(store, seg)))
  {
    var gap := GapWarning(ReceiptAt(store, current), Newer(store, seg));
    assert before + gap == [] <==> before == [] && gap == [];
  }

  lemma FailureReports(store: Store, graph: string, writer: string, tip: string, since: Option<string>,
          seg: seq<string>, current: string, r: ChainResult)
    requires Walked(store, graph, writer, tip, seg, current)
    requires !(Sound(store, graph, writer, current) && (Newer(store, seg).Some? ==> Links(ReceiptAt(store, current), Newer(store, seg).value)))
    requires since.Some? ==> since.value !in seg
    requires |r.errors| == 1 && CommitExplains(r.errors[0], store, graph, writer, current, Newer(store, seg)) && Verdict(r.errors[0], store, r.status)
    requires r.receiptsVerified == |seg| && r.receiptsScanned == |seg| + 1
    ensures Reports(store, graph, writer, tip, since, r) && Diagnosed(store, graph, writer, tip, since, r)
  {
    StuckAt(store, graph, writer, tip, seg, current);
    WalkedCount(store, graph, writer, tip, seg);
    assert Counted(store, graph, writer, tip, since, r, seg);
  }
  /** One commit of the walk: check it, and go on to its parent or stop. */
  method WalkOne(store: Store, graph: string, writer: string, tip: string, since: Option<string>, current: string,
          prevReceipt: Option<Receipt>, result: ChainResult, ghost seg0: seq<string>)
    returns (done: bool, receipt: Option<Receipt>, ghost seg: seq<string>)
    requires OnTheWay(store, graph, writer, tip, seg0, current, result) && prevReceipt == Newer(store, seg0)
    requires since.Some? ==> since.value !in seg0
    modifies result
    ensures done ==> Reports(store, graph, writer, tip, since, result)
    ensures done ==> Diagnosed(store, graph, writer, tip, since, result)
    ensures !done ==> receipt.Some? && OnTheWay(store, graph, writer, tip, seg, receipt.value.prevAuditCommit, result)
    ensures !done ==> seg != [] && receipt == Newer(store, seg) && receipt.value.prevAuditCommit != ""
    ensures !done && since.Some? ==> since.value !in seg
    ensures !done ==> 0 <= receipt.value.tickStart && (prevReceipt.Some? ==> receipt.value.tickStart < prevReceipt.value.tickStart)
  {
    receipt, seg := prevReceipt, seg0;
    result.receiptsScanned := result.receiptsScanned + 1;
    ghost var warnings := result.warnings;
    var ok := CheckCommit(store, graph, writer, current, prevReceipt, result);
    if !ok {
      FailureReports(store, graph, writer, tip, since, seg, current, result);
      return true, receipt, seg;
    }
    GapsCountedNext(store, tip, seg, current, warnings);
    WalkedOn(store, graph, writer, tip, seg, current);
    seg := seg + [current];
    result.receiptsVerified := result.receiptsVerified + 1;
    receipt := Some(ReceiptAt(store, current));
    done := Advance(store, graph, writer, tip, since, current, result, seg);
  }

  /** `_walkChain`: on any store, even one whose links run in circles, the walk ends; it reports VALID exactly when
      a chain leads from the tip to a genesis. */
  method WalkChain(store: Store, graph: string, writer: string, tip: string, since: Option<string>, result: ChainResult)
    requires result.status == VALID && result.receiptsVerified == result.receiptsScanned == 0
    requires result.genesisCommit == None && result.stoppedAt == None && result.errors == [] && result.warnings == []
    modifies result
    ensures tip != "" ==> Reports(store, graph, writer, tip, since, result)
    ensures tip != "" ==> Diagnosed(store, graph, writer, tip, since, result)
  {
    var current, prevReceipt: Option<Receipt> := tip, None;
    ghost var seg: seq<string> := [];
    while current != ""
      invariant OnTheWay(store, graph, writer, tip, seg, current, result)
      invariant prevReceipt == Newer(store, seg) && (seg != [] ==> current != "")
      invariant since.Some? ==> since.value !in seg
      decreases prevReceipt.None?, if prevReceipt.Some? then prevReceipt.value.tickStart else 0
    {
      var done;
      done, prevReceipt, seg := WalkOne(store, graph, writer, tip, since, current, prevReceipt, result, seg);
      if done {
        return;
      }
      current := prevReceipt.value.prevAuditCommit;
    }
    if since.Some? {
      result.Fail(SINCE_NOT_FOUND, None, ERROR);
    }
  }
}
