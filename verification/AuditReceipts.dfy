/** Audit receipts: what a producer may build, and what a verifier reads back from a commit store. */
module AuditReceipts {

  // ---------------------------------------------------------------- object ids

  function LowerChar(c: char): char {
    if 'A' <= c <= 'Z' then ((c as int) + 32) as char else c
  }

  function Lower(s: string): (r: string)
    ensures |r| == |s|
  {
    seq(|s|, i requires 0 <= i < |s| => LowerChar(s[i]))
  }

  predicate IsHex(s: string) {
    s != "" && forall i :: 0 <= i < |s| ==> '0' <= s[i] <= '9' || 'a' <= s[i] <= 'f'
  }

  /** 40 or 64 hex digits, in either case. */
  predicate OidFormat(s: string) {
    IsHex(Lower(s)) && (|s| == 40 || |s| == 64)
  }

  function ZeroHash(n: nat): (z: string)
    ensures |z| == n && forall i :: 0 <= i < n ==> z[i] == '0'
  {
    seq(n, _ => '0')
  }

  lemma LowerOfHex(s: string)
    requires IsHex(s)
    ensures Lower(s) == s
  {
  }

  lemma LowerTwice(s: string)
    ensures Lower(Lower(s)) == Lower(s)
  {
  }

  // ---------------------------------------------------------------- records

  /** A decoded field value, as far as the checks look at it. */
  datatype Value = Text(text: string) | Integer(value: int) | OtherValue

  datatype Record = NotAnObject | Object(fields: map<string, Value>)

  datatype Receipt = Receipt(
    dataCommit: string, graphName: string, opsDigest: string, prevAuditCommit: string, tickEnd: int, tickStart: int,
    timestamp: int, writerId: string)

  const FIELDS := {"dataCommit", "graphName", "opsDigest", "prevAuditCommit", "tickEnd", "tickStart", "timestamp", "version", "writerId"}

  /** `validateReceiptSchema` finds nothing wrong. */
  predicate SchemaValid(r: Record) {
    && r.Object? && |r.fields| == 9 && (forall k :: k in FIELDS ==> k in r.fields)
    && var m := r.fields;
    && m["version"] == Integer(1)
    && m["graphName"].Text? && m["graphName"].text != ""
    && m["writerId"].Text? && m["writerId"].text != ""
    && m["dataCommit"].Text? && m["opsDigest"].Text? && m["prevAuditCommit"].Text?
    && m["tickStart"].Integer? && m["tickStart"].value >= 1
    && m["tickEnd"].Integer? && m["tickEnd"].value >= m["tickStart"].value
    && m["tickStart"].value == m["tickEnd"].value
    && m["timestamp"].Integer? && m["timestamp"].value >= 0
  }

  function ReadReceipt(r: Record): Receipt
    requires SchemaValid(r)
  {
    var m := r.fields;
    Receipt(m["dataCommit"].text, m["graphName"].text, m["opsDigest"].text, m["prevAuditCommit"].text, m["tickEnd"].value,
            m["tickStart"].value, m["timestamp"].value, m["writerId"].text)
  }

  /** The nine-field record of a receipt, as it is encoded. */
  function RecordOf(r: Receipt): Record {
    Object(map[
      "dataCommit" := Text(r.dataCommit), "graphName" := Text(r.graphName), "opsDigest" := Text(r.opsDigest),
      "prevAuditCommit" := Text(r.prevAuditCommit), "tickEnd" := Integer(r.tickEnd), "tickStart" := Integer(r.tickStart),
      "timestamp" := Integer(r.timestamp), "version" := Integer(1), "writerId" := Text(r.writerId)])
  }

  // ---------------------------------------------------------------- building

  const MAX_SAFE_INTEGER := 9007199254740991

  datatype Built = Built(receipt: Receipt) | Rejected

  /** `buildReceiptRecord` for version 1. */
  function BuildReceipt(r: Receipt): (b: Built) {
    var dc, od, pac := Lower(r.dataCommit), Lower(r.opsDigest), Lower(r.prevAuditCommit);
    if r.graphName == "" || r.writerId == "" then Rejected
    else if !OidFormat(dc) then Rejected
    else if !IsHex(od) || |od| != 64 then Rejected
    else if !OidFormat(pac) then Rejected
    else if |pac| != |dc| then Rejected
    else if r.tickStart < 1 || r.tickEnd < r.tickStart || r.tickStart != r.tickEnd then Rejected
    else if pac == ZeroHash(|dc|) && r.tickStart > 1 then Rejected
    else if r.timestamp < 0 || r.timestamp > MAX_SAFE_INTEGER then Rejected
    else Built(r.(dataCommit := dc, opsDigest := od, prevAuditCommit := pac))
  }

  /** A built receipt survives its record form, passes the verifier's schema and id checks,
      and carries the zero hash only at tick 1. */
  lemma BuiltIsAccepted(r: Receipt)
    requires BuildReceipt(r).Built?
    ensures var b := BuildReceipt(r).receipt;
            && SchemaValid(RecordOf(b)) && ReadReceipt(RecordOf(b)) == b
            && OidFormat(b.dataCommit) && OidFormat(b.prevAuditCommit) && |b.prevAuditCommit| == |b.dataCommit|
            && (b.prevAuditCommit == ZeroHash(|b.dataCommit|) ==> b.tickStart == 1)
  {
    var b := BuildReceipt(r).receipt;
    RecordHasAllFields(b);
    LowerTwice(r.dataCommit);
    LowerTwice(r.prevAuditCommit);
  }

  lemma RecordHasAllFields(b: Receipt)
    ensures RecordOf(b).fields.Keys == FIELDS && |RecordOf(b).fields| == 9
  {
    var m := RecordOf(b).fields;
    assert m.Keys == FIELDS;
    assert |m| == |m.Keys|;
  }

  /** The schema leaves no room for a tenth field. */
  lemma SchemaIsClosed(r: Record)
    requires SchemaValid(r)
    ensures r.fields.Keys == FIELDS
  {
    var extra := r.fields.Keys - FIELDS;
    assert FIELDS <= r.fields.Keys;
    assert r.fields.Keys == FIELDS + extra;
    assert |r.fields.Keys| == |FIELDS| + |extra|;
  }

  /** The schema admits a receipt's record exactly if it has names, a single tick from 1 on, and a time not before 0. */
  lemma SchemaIsExact(r: Receipt)
    ensures SchemaValid(RecordOf(r)) <==> r.graphName != "" && r.writerId != "" && 1 <= r.tickStart == r.tickEnd && r.timestamp >= 0
    ensures SchemaValid(RecordOf(r)) ==> ReadReceipt(RecordOf(r)) == r
  {
    RecordHasAllFields(r);
  }

  /** It admits nothing but records of receipts. */
  lemma SchemaIsOfReceipts(rec: Record)
    requires SchemaValid(rec)
    ensures RecordOf(ReadReceipt(rec)) == rec
  {
    SchemaIsClosed(rec);
    ReadBack(rec.fields, RecordOf(ReadReceipt(rec)).fields);
  }

  lemma ReadBack(m: map<string, Value>, n: map<string, Value>)
    requires SchemaValid(Object(m)) && m.Keys == FIELDS && n == RecordOf(ReadReceipt(Object(m))).fields
    ensures n == m
  {
    RecordHasAllFields(ReadReceipt(Object(m)));
    forall k | k in FIELDS ensures n[k] == m[k] {}
  }

  // ---------------------------------------------------------------- the store

  datatype Trailers = Trailers(graph: string, writer: string, dataCommit: string, opsDigest: string, schema: int)

  /** What reading a commit's tree, blob and message yields. */
  datatype Body =
    | NoTree | TreeUnreadable | WrongEntries | NoBlob | BadEncoding | BadTrailers
    | Readable(record: Record, trailers: Trailers)

  datatype Commit = Commit(parents: seq<string>, body: Body)

  type Store = map<string, Commit>
}
