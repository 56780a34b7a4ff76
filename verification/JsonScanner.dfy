/**
 The JSON scanner as a function: the next token of a text and what follows it. Matching ignores case, the
 longest match wins, and the start conditions STRING, STRING_ESCAPE and STRING_ESCAPE_UNICODE are the
 parameter of `ScanString`. Between tokens the scanner is always in its initial condition.

 The scanner appends one input byte at a time to a string, which is faithful for ASCII only.
 */
module JsonScanner {
  import opened Words
  import opened Values
  import opened Text
  import opened JsonPrinter

  datatype Token =
    | TEnd
    | TObjBegin
    | TObjEnd
    | TArrBegin
    | TArrEnd
    | TMemberSep
    | TElementSep
    | TString(text: Bytes)
    | TVariant(value: Value)
    | TSynErr
    | TSynErrEsc
    | TSynErrUni

  datatype Scan = Scan(token: Token, rest: Bytes)

  /** How the text of a floating-point number becomes a double is Qt's business. */
  type DoubleValue = Bytes -> uint64

  const INFINITY_BITS: uint64 := 0x7FF0_0000_0000_0000
  const MINUS_INFINITY_BITS: uint64 := 0xFFF0_0000_0000_0000
  const NAN_BITS: uint64 := 0x7FF8_0000_0000_0000

  const KW_NULL: Bytes := TEXT_NULL
  const KW_UNDEFINED: Bytes := [0x75, 0x6E, 0x64, 0x65, 0x66, 0x69, 0x6E, 0x65, 0x64]
  const KW_TRUE: Bytes := TEXT_TRUE
  const KW_FALSE: Bytes := TEXT_FALSE
  const KW_NAN: Bytes := [0x6E, 0x61, 0x6E]
  const KW_INFINITY: Bytes := [0x69, 0x6E, 0x66, 0x69, 0x6E, 0x69, 0x74, 0x79]

  function Lower(c: byte): byte {
    if 0x41 <= c <= 0x5A then c + 0x20 else c
  }

  predicate StartsWith(b: Bytes, keyword: Bytes) {
    |keyword| <= |b| && forall i :: 0 <= i < |keyword| ==> Lower(b[i]) == keyword[i]
  }

  // ---------- Numbers ----------

  predicate IsDigit(c: byte) {
    ZERO <= c < ZERO + 10
  }

  /** The number of leading digits. */
  function DigitCount(b: Bytes): (n: nat)
    ensures n <= |b| && (forall i :: 0 <= i < n ==> IsDigit(b[i])) && (n < |b| ==> !IsDigit(b[n]))
  {
    if b == [] || !IsDigit(b[0]) then 0 else 1 + DigitCount(b[1..])
  }

  /** The length of an exponent, 0 if there is none. */
  function ExponentLength(b: Bytes): (n: nat)
    ensures n <= |b|
  {
    if b == [] || Lower(b[0]) != 0x65 then 0
    else
      var sign := if |b| > 1 && (b[1] == MINUS || b[1] == 0x2B) then 2 else 1;
      var digits := DigitCount(b[sign..]);
      if digits == 0 then 0 else sign + digits
  }

  /** The length of a fraction, 0 if there is none. */
  function FractionLength(b: Bytes): (n: nat)
    ensures n <= |b|
  {
    if b == [] || b[0] != 0x2E || DigitCount(b[1..]) == 0 then 0 else 1 + DigitCount(b[1..])
  }

  /** The length of the integer part with its sign, 0 if the text does not start with a number. */
  function IntegerLength(b: Bytes): (n: nat)
    ensures n <= |b|
  {
    var sign := if b != [] && b[0] == MINUS then 1 else 0;
    var digits := DigitCount(b[sign..]);
    if digits == 0 then 0 else sign + digits
  }

  function Decimal(digits: Bytes): nat
    requires forall c :: c in digits ==> IsDigit(c)
  {
    if digits == [] then 0
    else
      var last := digits[|digits| - 1];
      assert last in digits && IsDigit(last);
      10 * Decimal(digits[..|digits| - 1]) + (last as int - ZERO as int)
  }

  /** QString::toLongLong: 0 for a text with an exponent and for a number out of range. */
  function ToLongLong(text: Bytes): int64
    requires IntegerLength(text) > 0
  {
    var n := IntegerLength(text);
    var negative := text[0] == MINUS;
    var digits := if negative then text[1..n] else text[..n];
    assert forall c :: c in digits ==> IsDigit(c);
    var m: int := Decimal(digits);
    if |text| > n then 0
    else if negative then (if m <= 0x8000_0000_0000_0000 then -m else 0)
    else if m < 0x8000_0000_0000_0000 then m
    else 0
  }

  /** VARIANT_NUMBER: a LongLong, narrowed to an Int when the bits from 31 up are clear. */
  function NumberVariant(n: int64): Value {
    if 0 <= n < 0x8000_0000 then Int(n) else LongLong(n)
  }

  function ScanNumber(dv: DoubleValue, b: Bytes): (s: Scan)
    requires IntegerLength(b) > 0
    ensures |s.rest| < |b|
  {
    var n := IntegerLength(b);
    var fraction := FractionLength(b[n..]);
    var end := n + fraction + ExponentLength(b[n + fraction..]);
    var text := b[..end];
    if fraction > 0 then Scan(TVariant(Double(dv(text))), b[end..])
    else
      IntegerLengthOfPrefix(b, end);
      Scan(TVariant(NumberVariant(ToLongLong(text))), b[end..])
  }

  lemma {:induction false} DigitCountOfPrefix(b: Bytes, k: nat)
    requires DigitCount(b) <= k <= |b|
    ensures DigitCount(b[..k]) == DigitCount(b)
  {
    if b != [] && IsDigit(b[0]) {
      DigitCountOfPrefix(b[1..], k - 1);
      assert b[..k][1..] == b[1..][..k - 1];
    }
  }

  lemma IntegerLengthOfPrefix(b: Bytes, k: nat)
    requires 0 < IntegerLength(b) <= k <= |b|
    ensures IntegerLength(b[..k]) == IntegerLength(b)
  {
    if b[0] == MINUS {
      DigitCountOfPrefix(b[1..], k - 1);
      assert b[..k][1..] == b[1..][..k - 1];
    } else {
      DigitCountOfPrefix(b, k);
      assert b[0..] == b && b[..k][0..] == b[..k];
    }
  }

  // ---------- Strings ----------

  datatype Condition = STRING | STRING_ESCAPE | STRING_ESCAPE_UNICODE

  predicate IsHex(c: byte) {
    IsDigit(c) || 0x61 <= Lower(c) <= 0x66
  }

  function HexValue(c: byte): (n: nat)
    requires IsHex(c)
    ensures n < 16
  {
    if IsDigit(c) then c - ZERO else Lower(c) - 0x61 + 10
  }

  function HexCode(b: Bytes): uint16
    requires |b| == 4 && forall c :: c in b ==> IsHex(c)
  {
    ((HexValue(b[0]) * 16 + HexValue(b[1])) * 16 + HexValue(b[2])) * 16 + HexValue(b[3])
  }

  predicate HexAhead(b: Bytes) {
    |b| >= 4 && forall c :: c in b[..4] ==> IsHex(c)
  }

  /** The character that an escape letter stands for; none for an invalid escape and for u. */
  function Unescape(c: byte): Bytes {
    var l := Lower(c);
    if c == BACKSLASH || c == QUOTE || c == 0x2F then [c]
    else if l == 0x62 then [BACKSPACE]
    else if l == 0x66 then [FORMFEED]
    else if l == 0x6E then [NEWLINE]
    else if l == 0x72 then [RETURN]
    else if l == 0x74 then [TAB]
    else []
  }

  /** A line break matches no rule inside a string and is skipped. */
  function ScanString(b: Bytes, state: Condition, str: Bytes): (s: Scan)
    ensures |s.rest| <= |b|
    decreases |b|
  {
    if b == [] then Scan(TEnd, [])
    else if b[0] == NEWLINE then ScanString(b[1..], state, str)
    else
      match state
      case STRING =>
        if b[0] == QUOTE then Scan(TString(str), b[1..])
        else if b[0] == BACKSLASH then ScanString(b[1..], STRING_ESCAPE, str)
        else ScanString(b[1..], STRING, str + Utf8(b[0]))
      case STRING_ESCAPE =>
        if Lower(b[0]) == 0x75 then ScanString(b[1..], STRING_ESCAPE_UNICODE, str)
        else if Unescape(b[0]) != [] then ScanString(b[1..], STRING, str + Unescape(b[0]))
        else Scan(TSynErrEsc, b[1..])
      case STRING_ESCAPE_UNICODE =>
        if HexAhead(b) then ScanString(b[4..], STRING, str + Utf8(HexCode(b[..4])))
        else Scan(TSynErrUni, b[1..])
  }

  // ---------- Tokens ----------

  predicate IsSpace(c: byte) {
    c == TAB || c == NEWLINE || c == RETURN || c == SPACE
  }

  function ScanKeyword(b: Bytes): (s: Scan)
    requires b != []
    ensures |s.rest| < |b|
  {
    if StartsWith(b, KW_NULL) then Scan(TVariant(Null), b[4..])
    else if StartsWith(b, KW_UNDEFINED) then Scan(TVariant(Null), b[9..])
    else if StartsWith(b, KW_TRUE) then Scan(TVariant(Bool(true)), b[4..])
    else if StartsWith(b, KW_FALSE) then Scan(TVariant(Bool(false)), b[5..])
    else if StartsWith(b, KW_NAN) then Scan(TVariant(Double(NAN_BITS)), b[3..])
    else if StartsWith(b, KW_INFINITY) then Scan(TVariant(Double(INFINITY_BITS)), b[8..])
    else if (b[0] == MINUS || b[0] == 0x2B) && StartsWith(b[1..], KW_INFINITY) then
      Scan(TVariant(Double(if b[0] == MINUS then MINUS_INFINITY_BITS else INFINITY_BITS)), b[9..])
    else Scan(TSynErr, b[1..])
  }

  function NextToken(dv: DoubleValue, b: Bytes): (s: Scan)
    ensures |s.rest| <= |b|
    ensures s.token != TEnd ==> |s.rest| < |b|
    decreases |b|
  {
    if b == [] then Scan(TEnd, [])
    else
      var c, rest := b[0], b[1..];
      if IsSpace(c) then NextToken(dv, rest)
      else if c == OPEN_BRACE then Scan(TObjBegin, rest)
      else if c == CLOSE_BRACE then Scan(TObjEnd, rest)
      else if c == OPEN_BRACKET then Scan(TArrBegin, rest)
      else if c == CLOSE_BRACKET then Scan(TArrEnd, rest)
      else if c == COLON then Scan(TMemberSep, rest)
      else if c == COMMA then Scan(TElementSep, rest)
      else if c == QUOTE then ScanString(rest, STRING, [])
      else if IntegerLength(b) > 0 then ScanNumber(dv, b)
      else ScanKeyword(b)
  }
}
