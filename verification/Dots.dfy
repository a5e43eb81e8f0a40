/** Dots and their text form: one dot names one add operation. */
module Dots {
  datatype Dot = Dot(writerId: string, counter: int)

  predicate ValidDot(d: Dot) {
    d.writerId != "" && d.counter > 0
  }

  // ---------------------------------------------------------------- decimal text

  predicate IsDigit(c: char) {
    '0' <= c <= '9'
  }

  predicate AllDigits(s: string) {
    forall i :: 0 <= i < |s| ==> IsDigit(s[i])
  }

  function DigitsOf(n: nat): (s: string)
    ensures |s| > 0 && AllDigits(s)
  {
    if n < 10 then ['0' + n as char] else DigitsOf(n / 10) + ['0' + (n % 10) as char]
  }

  /** How a template literal prints an integer. */
  function Decimal(n: int): string {
    if n < 0 then "-" + DigitsOf(-n) else DigitsOf(n)
  }

  function ValueOf(s: string): nat
    requires AllDigits(s)
  {
    if s == "" then 0 else 10 * ValueOf(s[..|s| - 1]) + (s[|s| - 1] as int - '0' as int)
  }

  lemma {:induction false} ValueOfDigits(n: nat)
    ensures ValueOf(DigitsOf(n)) == n
  {
    var s := DigitsOf(n);
    if n >= 10 {
      ValueOfDigits(n / 10);
      assert s[..|s| - 1] == DigitsOf(n / 10);
    } else {
      assert s[..0] == "";
    }
  }

  /** How many characters at the front are digits. */
  function DigitRun(s: string): (k: nat)
    ensures k <= |s| && AllDigits(s[..k])
    ensures k < |s| ==> !IsDigit(s[k])
  {
    if s == "" || !IsDigit(s[0]) then 0 else
      var k := DigitRun(s[1..]);
      assert s[..k + 1] == [s[0]] + s[1..][..k];
      k + 1
  }

  predicate IsSpace(c: char) {
    c in "\t\n\r " || c in {'\U{000B}', '\U{000C}', '\U{00A0}', '\U{1680}', '\U{2028}', '\U{2029}', '\U{202F}', '\U{205F}', '\U{3000}', '\U{FEFF}'}
    || '\U{2000}' <= c <= '\U{200A}'
  }

  function SkipSpaces(s: string): string {
    if s != "" && IsSpace(s[0]) then SkipSpaces(s[1..]) else s
  }

  datatype Number = NaN | Integer(value: int)

  function ParseDigits(s: string): Number {
    var k := DigitRun(s);
    if k == 0 then NaN else Integer(ValueOf(s[..k]))
  }

  /** `parseInt(s, 10)`: leading blanks and one sign are accepted, whatever follows the digits is ignored. */
  function ParseInt(s: string): Number {
    var t := SkipSpaces(s);
    if t != "" && t[0] == '-' then
      match ParseDigits(t[1..])
      case NaN => NaN
      case Integer(v) => Integer(-v)
    else if t != "" && t[0] == '+' then ParseDigits(t[1..])
    else ParseDigits(t)
  }

  lemma ParseDigitsOf(n: nat)
    ensures ParseDigits(DigitsOf(n)) == Integer(n)
  {
    var s := DigitsOf(n);
    assert DigitRun(s) == |s| && s[..|s|] == s;
    ValueOfDigits(n);
  }

  lemma ParseDecimal(n: int)
    ensures ParseInt(Decimal(n)) == Integer(n)
  {
    if n < 0 {
      ParseDigitsOf(-n);
      assert Decimal(n)[1..] == DigitsOf(-n);
      assert !IsSpace('-');
    } else {
      ParseDigitsOf(n);
      assert IsDigit(Decimal(n)[0]);
    }
  }

  // ---------------------------------------------------------------- encoding

  datatype Decoded = Ok(dot: Dot) | MissingColon | EmptyWriter | BadCounter

  function EncodeDot(d: Dot): string {
    d.writerId + ":" + Decimal(d.counter)
  }

  /** `lastIndexOf(':')` */
  function LastColon(s: string): (i: int)
    ensures -1 <= i < |s|
    ensures i >= 0 ==> s[i] == ':'
    ensures forall j :: i < j < |s| ==> s[j] != ':'
  {
    if s == "" then -1 else if s[|s| - 1] == ':' then |s| - 1 else LastColon(s[..|s| - 1])
  }

  function DecodeDot(s: string): (r: Decoded)
    ensures r.Ok? ==> ValidDot(r.dot)
  {
    var i := LastColon(s);
    if i == -1 then MissingColon
    else if i == 0 then EmptyWriter
    else match ParseInt(s[i + 1..])
      case NaN => BadCounter
      case Integer(c) => if c <= 0 then BadCounter else Ok(Dot(s[..i], c))
  }

  lemma DecimalHasNoColon(n: int)
    ensures ':' !in Decimal(n)
  {
    assert !IsDigit(':');
    var digits := DigitsOf(if n < 0 then -n else n);
    forall i | 0 <= i < |digits| ensures digits[i] != ':' { assert IsDigit(digits[i]); }
  }

  /** Decoding undoes encoding, colons in the writer id or not, exactly for the dots that may exist;
      the others are told apart. */
  lemma DecodeUndoesEncode(d: Dot)
    ensures DecodeDot(EncodeDot(d)) == if d.writerId == "" then EmptyWriter else if d.counter <= 0 then BadCounter else Ok(d)
  {
    var s, n := EncodeDot(d), |d.writerId|;
    DecimalHasNoColon(d.counter);
    assert s[n] == ':' && s[n + 1..] == Decimal(d.counter) && s[..n] == d.writerId;
    forall j | n < j < |s| ensures s[j] != ':' { assert s[j] == s[n + 1..][j - n - 1]; }
    assert LastColon(s) == n;
    ParseDecimal(d.counter);
  }

  /** Different dots have different text forms. */
  lemma EncodeIsInjective(a: Dot, b: Dot)
    requires ValidDot(a) && ValidDot(b) && EncodeDot(a) == EncodeDot(b)
    ensures a == b
  {
    DecodeUndoesEncode(a);
    DecodeUndoesEncode(b);
  }

  /** Decoding is not injective: text after the digits is dropped. */
  lemma DecodingForgets()
    ensures DecodeDot("w:1") == DecodeDot("w:1x") == Ok(Dot("w", 1))
  {
    var s, t := "w:1", "w:1x";
    assert LastColon(s) == 1 && LastColon(t) == 1;
    assert s[2..] == "1" && t[2..] == "1x" && s[..1] == t[..1] == "w";
    assert DigitRun("1") == 1 && DigitRun("1x") == 1 && "1x"[..1] == "1" && "1"[..1] == "1";
    assert ValueOf("1") == 1 by { assert "1"[..0] == ""; }
  }

  // ---------------------------------------------------------------- order

  /** The order of strings by code units, a proper prefix first. */
  predicate StringLess(a: string, b: string) {
    b != "" && (a == "" || a[0] < b[0] || (a[0] == b[0] && StringLess(a[1..], b[1..])))
  }

  lemma {:induction false} StringLessTotal(a: string, b: string)
    ensures StringLess(a, b) || a == b || StringLess(b, a)
    ensures !(StringLess(a, b) && StringLess(b, a)) && !StringLess(a, a)
  {
    if a != "" && b != "" {
      StringLessTotal(a[1..], b[1..]);
      assert a == [a[0]] + a[1..] && b == [b[0]] + b[1..];
    }
    if a != "" { StringLessTotal(a[1..], a[1..]); }
  }

  lemma {:induction false} StringLessTransitive(a: string, b: string, c: string)
    requires StringLess(a, b) && StringLess(b, c)
    ensures StringLess(a, c)
  {
    if a != "" && b[0] == a[0] && c[0] == b[0] {
      StringLessTransitive(a[1..], b[1..], c[1..]);
    }
  }

  function CompareDots(a: Dot, b: Dot): (r: int) {
    if a.writerId != b.writerId then
      if StringLess(a.writerId, b.writerId) then -1 else 1
    else if a.counter != b.counter then
      if a.counter < b.counter then -1 else 1
    else 0
  }

  /** `compareDots` is a total order: it tells different dots apart, is antisymmetric and transitive. */
  lemma CompareDotsIsTotalOrder(a: Dot, b: Dot, c: Dot)
    ensures CompareDots(a, b) == 0 <==> a == b
    ensures CompareDots(a, b) == -CompareDots(b, a)
    ensures CompareDots(a, b) <= 0 && CompareDots(b, c) <= 0 ==> CompareDots(a, c) <= 0
  {
    StringLessTotal(a.writerId, b.writerId);
    StringLessTotal(b.writerId, c.writerId);
    StringLessTotal(a.writerId, c.writerId);
    if StringLess(a.writerId, b.writerId) && StringLess(b.writerId, c.writerId) {
      StringLessTransitive(a.writerId, b.writerId, c.writerId);
    }
  }

  /** `a` comes before `b`: at the first difference it has the smaller character, or it ends there. */
  ghost predicate DiffersAt(a: string, b: string, i: int) {
    0 <= i <= |a| && i < |b| && a[..i] == b[..i] && (i == |a| || a[i] < b[i])
  }

  lemma {:induction false} StringLessIsExact(a: string, b: string)
    ensures StringLess(a, b) <==> exists i :: DiffersAt(a, b, i)
    decreases |a|
  {
    if a == "" || b == "" {
      assert b != "" ==> DiffersAt(a, b, 0);
    } else {
      StringLessIsExact(a[1..], b[1..]);
      if a[0] < b[0] {
        assert DiffersAt(a, b, 0);
      }
      if i :| DiffersAt(a, b, i) && i > 0 {
        assert a[..i][0] == b[..i][0] && a[1..][..i - 1] == a[..i][1..] && b[1..][..i - 1] == b[..i][1..];
        assert DiffersAt(a[1..], b[1..], i - 1);
      }
      if i :| DiffersAt(a[1..], b[1..], i) && a[0] == b[0] {
        assert a[..i + 1] == [a[0]] + a[1..][..i] && b[..i + 1] == [b[0]] + b[1..][..i];
        assert DiffersAt(a, b, i + 1);
      }
    }
  }

  /** Dots are ordered by writer id in code units, then by counter as a number. */
  lemma CompareDotsIsExact(a: Dot, b: Dot)
    ensures CompareDots(a, b) < 0 <==> (exists i :: DiffersAt(a.writerId, b.writerId, i)) || (a.writerId == b.writerId && a.counter < b.counter)
    ensures CompareDots(a, b) in {-1, 0, 1}
  {
    StringLessIsExact(a.writerId, b.writerId);
    StringLessTotal(a.writerId, b.writerId);
  }
}
