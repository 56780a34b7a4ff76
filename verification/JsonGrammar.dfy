/**
 The JSON scanner and parser against the grammar of their input: white space anywhere between the tokens,
 any escape, any number, members in any order. What the grammar derives is read with the meaning that it
 has, and whatever is read is derived by the grammar.
 */
module JsonGrammar {
  import opened Sequences
  import opened Words
  import opened Values
  import opened Text
  import opened JsonPrinter
  import opened JsonScanner
  import opened JsonParser
  import JsonRoundTrip

  // ---------- Derivations ----------

  /**
     A character of a string. A line break matches no rule inside a string and is skipped, also between a
     backslash and what it escapes.
   */
  datatype Character =
    | Plain(c: byte)
    | Escaped(breaks: nat, letter: byte)
    | Unicode(breaks: nat, letter: byte, more: nat, digits: Bytes)

  datatype Syntax =
    | Keyword(text: Bytes)
    | Number(negative: bool, digits: Bytes, fraction: Bytes, exponent: Bytes)
    | Quoted(chars: seq<Character>)
    | Array(blank: Bytes, elements: seq<Element>)
    | Object(blank: Bytes, members: seq<Member>)

  /** A value with the white space around it. */
  datatype Element = Element(before: Bytes, value: Syntax, after: Bytes)

  datatype Member = Member(before: Bytes, key: seq<Character>, middle: Bytes, element: Element)

  predicate Digit(c: byte) {
    0x30 <= c <= 0x39
  }

  predicate AllDigits(b: Bytes) {
    forall i :: 0 <= i < |b| ==> Digit(b[i])
  }

  predicate Hex(c: byte) {
    Digit(c) || 0x41 <= c <= 0x46 || 0x61 <= c <= 0x66
  }

  function HexDigit(c: byte): (n: nat)
    requires Hex(c)
    ensures n < 0x10
  {
    if c < 0x3A then c - 0x30 else if c < 0x61 then c - 0x41 + 10 else c - 0x61 + 10
  }

  predicate FourHex(d: Bytes) {
    |d| == 4 && forall i :: 0 <= i < 4 ==> Hex(d[i])
  }

  function CodeOf(d: Bytes): uint16
    requires FourHex(d)
  {
    HexDigit(d[0]) * 0x1000 + HexDigit(d[1]) * 0x100 + HexDigit(d[2]) * 0x10 + HexDigit(d[3])
  }

  predicate White(b: Bytes) {
    forall i :: 0 <= i < |b| ==> b[i] == 0x09 || b[i] == 0x0A || b[i] == 0x0D || b[i] == 0x20
  }

  /** The same letter, in upper or in lower case. */
  predicate IsLetter(c: byte, lower: byte) {
    c == lower || c == lower - 0x20
  }

  /** What a letter stands for behind a backslash. */
  function EscapeOf(c: byte): Bytes {
    if c == 0x22 || c == 0x2F || c == 0x5C then [c]
    else if c == 0x62 || c == 0x42 then [0x08]
    else if c == 0x66 || c == 0x46 then [0x0C]
    else if c == 0x6E || c == 0x4E then [0x0A]
    else if c == 0x72 || c == 0x52 then [0x0D]
    else if c == 0x74 || c == 0x54 then [0x09]
    else []
  }

  predicate GoodCharacter(x: Character) {
    match x
    case Plain(c) => c != 0x22 && c != 0x5C
    case Escaped(_, letter) => EscapeOf(letter) != []
    case Unicode(_, letter, _, digits) => (letter == 0x75 || letter == 0x55) && FourHex(digits)
  }

  predicate GoodString(chars: seq<Character>) {
    forall i :: 0 <= i < |chars| ==> GoodCharacter(chars[i])
  }

  function Breaks(n: nat): Bytes {
    seq(n, _ => 0x0A)
  }

  function RenderCharacter(x: Character): Bytes {
    match x
    case Plain(c) => [c]
    case Escaped(breaks, letter) => [0x5C] + Breaks(breaks) + [letter]
    case Unicode(breaks, letter, more, digits) => [0x5C] + Breaks(breaks) + [letter] + Breaks(more) + digits
  }

  function RenderString(chars: seq<Character>): Bytes {
    if chars == [] then [] else RenderCharacter(chars[0]) + RenderString(chars[1..])
  }

  /** Each byte and each code is a character of its own. */
  function MeaningOfCharacter(x: Character): Bytes
    requires GoodCharacter(x)
  {
    match x
    case Plain(c) => if c == 0x0A then [] else Utf8(c)
    case Escaped(_, letter) => EscapeOf(letter)
    case Unicode(_, _, _, digits) => Utf8(CodeOf(digits))
  }

  function MeaningOfString(chars: seq<Character>): Bytes
    requires GoodString(chars)
  {
    if chars == [] then [] else MeaningOfCharacter(chars[0]) + MeaningOfString(chars[1..])
  }

  // ---------- Strings ----------

  lemma {:induction false} SkipBreaks(n: nat, b: Bytes, state: Condition, str: Bytes)
    ensures ScanString(Breaks(n) + b, state, str) == ScanString(b, state, str)
  {
    if n == 0 {
      EmptyLeft(b);
    } else {
      assert (Breaks(n) + b)[1..] == Breaks(n - 1) + b;
      SkipBreaks(n - 1, b, state, str);
    }
  }

  lemma SameEscapes(c: byte)
    ensures EscapeOf(c) == Unescape(c)
    ensures Lower(c) == 0x75 <==> c == 0x75 || c == 0x55
    ensures IsHex(c) <==> Hex(c)
    ensures Hex(c) ==> HexValue(c) == HexDigit(c)
  {
  }

  lemma ReadEscape(letter: byte, rest: Bytes, str: Bytes)
    requires EscapeOf(letter) != []
    ensures ScanString([letter] + rest, STRING_ESCAPE, str) == ScanString(rest, STRING, str + EscapeOf(letter))
  {
    SameEscapes(letter);
    assert ([letter] + rest)[1..] == rest;
  }

  lemma ReadHex(d: Bytes, rest: Bytes, str: Bytes)
    requires FourHex(d)
    ensures ScanString(d + rest, STRING_ESCAPE_UNICODE, str) == ScanString(rest, STRING, str + Utf8(CodeOf(d)))
  {
    hide Utf8;
    var b := d + rest;
    assert b[..4] == d && b[4..] == rest && b[0] == d[0];
    SameEscapes(d[0]);
    SameEscapes(d[1]);
    SameEscapes(d[2]);
    SameEscapes(d[3]);
    hide HexValue, HexDigit, IsHex, Hex;
    assert forall c :: c in d ==> c == d[0] || c == d[1] || c == d[2] || c == d[3];
    assert HexAhead(b) && HexCode(d) == CodeOf(d);
  }

  lemma ReadCharacter(x: Character, rest: Bytes, str: Bytes)
    requires GoodCharacter(x)
    ensures ScanString(RenderCharacter(x) + rest, STRING, str) == ScanString(rest, STRING, str + MeaningOfCharacter(x))
  {
    hide Utf8, HexAhead, HexCode, CodeOf, Unescape, EscapeOf;
    match x
    case Plain(c) =>
      assert ([c] + rest)[1..] == rest && str + [] == str;
    case Escaped(breaks, letter) =>
      ReadBackslash(Breaks(breaks) + ([letter] + rest), str);
      SkipBreaks(breaks, [letter] + rest, STRING_ESCAPE, str);
      ReadEscape(letter, rest, str);
      Regroup([0x5C], Breaks(breaks), [letter], rest);
    case Unicode(breaks, letter, more, digits) =>
      var unicode := Breaks(more) + (digits + rest);
      ReadBackslash(Breaks(breaks) + ([letter] + unicode), str);
      SkipBreaks(breaks, [letter] + unicode, STRING_ESCAPE, str);
      ReadLetterU(letter, unicode, str);
      SkipBreaks(more, digits + rest, STRING_ESCAPE_UNICODE, str);
      ReadHex(digits, rest, str);
      RegroupSix([0x5C], Breaks(breaks), [letter], Breaks(more), digits, rest);
  }

  lemma ReadBackslash(b: Bytes, str: Bytes)
    ensures ScanString([0x5C] + b, STRING, str) == ScanString(b, STRING_ESCAPE, str)
  {
    assert ([0x5C] + b)[1..] == b;
  }

  lemma ReadLetterU(letter: byte, b: Bytes, str: Bytes)
    requires letter == 0x75 || letter == 0x55
    ensures ScanString([letter] + b, STRING_ESCAPE, str) == ScanString(b, STRING_ESCAPE_UNICODE, str)
  {
    assert ([letter] + b)[1..] == b;
  }

  lemma {:induction false} ReadString(chars: seq<Character>, t: Bytes, str: Bytes)
    requires GoodString(chars)
    ensures ScanString(RenderString(chars) + ([QUOTE] + t), STRING, str) == Scan(TString(str + MeaningOfString(chars)), t)
  {
    if chars == [] {
      EmptyLeft([QUOTE] + t);
      EmptyRight(str);
      assert ([QUOTE] + t)[1..] == t;
    } else {
      hide GoodCharacter, RenderCharacter, MeaningOfCharacter;
      var rest := RenderString(chars[1..]) + ([QUOTE] + t);
      Associative(RenderCharacter(chars[0]), RenderString(chars[1..]), [QUOTE] + t);
      ReadCharacter(chars[0], rest, str);
      ReadString(chars[1..], t, str + MeaningOfCharacter(chars[0]));
      Associative(str, MeaningOfCharacter(chars[0]), MeaningOfString(chars[1..]));
    }
  }

  lemma ReadQuoted(dv: DoubleValue, chars: seq<Character>, t: Bytes)
    requires GoodString(chars)
    ensures NextToken(dv, [QUOTE] + RenderString(chars) + [QUOTE] + t) == Scan(TString(MeaningOfString(chars)), t)
  {
    hide ScanString;
    Regroup([QUOTE], RenderString(chars), [QUOTE], t);
    Split([QUOTE], RenderString(chars) + ([QUOTE] + t));
    ReadString(chars, t, []);
    EmptyLeft(MeaningOfString(chars));
  }

  // ---------- Numbers ----------

  predicate GoodExponent(e: Bytes) {
    || e == []
    || (|e| >= 2 && IsLetter(e[0], 0x65) && AllDigits(e[1..]))
    || (|e| >= 3 && IsLetter(e[0], 0x65) && (e[1] == 0x2B || e[1] == 0x2D) && AllDigits(e[2..]))
  }

  predicate GoodNumber(digits: Bytes, fraction: Bytes, exponent: Bytes) {
    digits != [] && AllDigits(digits) && AllDigits(fraction) && GoodExponent(exponent)
  }

  function Signed(negative: bool, digits: Bytes): Bytes {
    (if negative then [0x2D] else []) + digits
  }

  function Point(fraction: Bytes): Bytes {
    if fraction == [] then [] else [0x2E] + fraction
  }

  function RenderNumber(negative: bool, digits: Bytes, fraction: Bytes, exponent: Bytes): Bytes {
    Signed(negative, digits) + Point(fraction) + exponent
  }

  predicate StartsDigit(t: Bytes) {
    t != [] && Digit(t[0])
  }

  predicate StartsFraction(t: Bytes) {
    |t| >= 2 && t[0] == 0x2E && Digit(t[1])
  }

  predicate StartsExponent(t: Bytes) {
    |t| >= 2 && IsLetter(t[0], 0x65) && (Digit(t[1]) || (|t| >= 3 && (t[1] == 0x2B || t[1] == 0x2D) && Digit(t[2])))
  }

  /** A number ends where nothing continues it. */
  predicate EndsBefore(fraction: Bytes, exponent: Bytes, t: Bytes) {
    && !StartsDigit(t)
    && (exponent == [] ==> !StartsExponent(t) && (fraction == [] ==> !StartsFraction(t)))
  }

  /** The number that digits stand for, read from the left. */
  function Horner(n: nat, digits: Bytes): nat
    requires AllDigits(digits)
    decreases digits
  {
    if digits == [] then n else Horner(10 * n + (digits[0] - 0x30), digits[1..])
  }

  /** Text with a fraction is a double; otherwise a number of at most 64 bits, or 0; an exponent alone gives 0. */
  function MeaningOfNumber(dv: DoubleValue, negative: bool, digits: Bytes, fraction: Bytes, exponent: Bytes): Value
    requires GoodNumber(digits, fraction, exponent)
  {
    var h: int := Horner(0, digits);
    var n := if negative then -h else h;
    if fraction != [] then Double(dv(RenderNumber(negative, digits, fraction, exponent)))
    else if exponent != [] || !(-0x8000_0000_0000_0000 <= n < 0x8000_0000_0000_0000) then Int(0)
    else if 0 <= n < 0x8000_0000 then Int(n)
    else LongLong(n)
  }

  lemma {:induction false} HornerLast(n: nat, digits: Bytes, c: byte)
    requires AllDigits(digits + [c]) && AllDigits(digits)
    ensures Horner(n, digits + [c]) == 10 * Horner(n, digits) + (c - 0x30)
    decreases digits
  {
    if digits == [] {
      assert [c][1..] == [] && digits + [c] == [c];
    } else {
      assert (digits + [c])[1..] == digits[1..] + [c];
      HornerLast(10 * n + (digits[0] - 0x30), digits[1..], c);
    }
  }

  lemma {:induction false} HornerIsDecimal(digits: Bytes)
    requires AllDigits(digits)
    ensures (forall c :: c in digits ==> IsDigit(c)) && Horner(0, digits) == Decimal(digits)
  {
    if digits != [] {
      var front, c := digits[..|digits| - 1], digits[|digits| - 1];
      assert digits == front + [c];
      HornerIsDecimal(front);
      HornerLast(0, front, c);
    }
  }

  lemma DigitsAhead(d: Bytes, t: Bytes)
    requires AllDigits(d) && !StartsDigit(t)
    ensures DigitCount(d + t) == |d|
  {
    JsonRoundTrip.DigitCountExact(d, t);
  }

  lemma IntegerPart(negative: bool, digits: Bytes, t: Bytes)
    requires digits != [] && AllDigits(digits) && !StartsDigit(t)
    ensures IntegerLength(Signed(negative, digits) + t) == |Signed(negative, digits)|
  {
    DigitsAhead(digits, t);
    var b := Signed(negative, digits) + t;
    if negative {
      assert b[1..] == digits + t;
    } else {
      EmptyLeft(digits);
      assert b[0..] == digits + t && Digit(digits[0]);
    }
  }

  lemma FractionPart(fraction: Bytes, t: Bytes)
    requires AllDigits(fraction) && !StartsDigit(t) && (fraction == [] ==> !StartsFraction(t))
    ensures FractionLength(Point(fraction) + t) == |Point(fraction)|
  {
    if fraction == [] {
      EmptyLeft(t);
      NoFraction(t);
    } else {
      DigitsAhead(fraction, t);
      hide AllDigits, StartsDigit, DigitCount;
      Associative([0x2E], fraction, t);
      Split([0x2E], fraction + t);
    }
  }

  lemma NoFraction(t: Bytes)
    requires !StartsFraction(t)
    ensures FractionLength(t) == 0
  {
    if |t| >= 2 {
      assert t[1..][0] == t[1];
    }
  }

  lemma ExponentPart(exponent: Bytes, t: Bytes)
    requires GoodExponent(exponent) && (exponent == [] ==> !StartsExponent(t)) && !StartsDigit(t)
    ensures ExponentLength(exponent + t) == |exponent|
  {
    var b := exponent + t;
    if exponent == [] {
      EmptyLeft(t);
      NoExponent(t);
    } else if |exponent| >= 3 && (exponent[1] == 0x2B || exponent[1] == 0x2D) {
      DigitsAhead(exponent[2..], t);
      assert b[2..] == exponent[2..] + t;
    } else {
      DigitsAhead(exponent[1..], t);
      assert b[1..] == exponent[1..] + t && Digit(exponent[1..][0]);
    }
  }

  lemma NoExponent(t: Bytes)
    requires !StartsExponent(t)
    ensures ExponentLength(t) == 0
  {
    if |t| >= 2 && Lower(t[0]) == 0x65 {
      var sign := if t[1] == MINUS || t[1] == 0x2B then 2 else 1;
      assert |t| > sign ==> t[sign..][0] == t[sign] && !IsDigit(t[sign]);
    }
  }

  lemma NumberParts(negative: bool, digits: Bytes, fraction: Bytes, exponent: Bytes, t: Bytes)
    requires GoodNumber(digits, fraction, exponent) && EndsBefore(fraction, exponent, t)
    ensures var b := RenderNumber(negative, digits, fraction, exponent) + t;
            var n := |Signed(negative, digits)|;
            && IntegerLength(b) == n && b[n..] == Point(fraction) + (exponent + t) &&
              FractionLength(b[n..]) == |Point(fraction)|
            && b[n + |Point(fraction)|..] == exponent + t && ExponentLength(exponent + t) == |exponent|
  {
    hide IntegerLength, FractionLength, ExponentLength;
    var sign, point := Signed(negative, digits), Point(fraction);
    var r := exponent + t;
    assert r != [] ==> r[0] == if exponent == [] then t[0] else exponent[0];
    ExponentPart(exponent, t);
    FractionPart(fraction, r);
    assert point + r != [] ==> (point + r)[0] == if point == [] then r[0] else 0x2E;
    IntegerPart(negative, digits, point + r);
    Regroup(sign, point, exponent, t);
    Split(sign, point + r);
    Split(point, r);
  }

  lemma WholeText(negative: bool, digits: Bytes, exponent: Bytes)
    requires GoodNumber(digits, [], exponent)
    ensures var text, n := RenderNumber(negative, digits, [], exponent), |Signed(negative, digits)|;
            && IntegerLength(text) == n > 0 && |text| == n + |exponent| && (text[0] == MINUS <==> negative)
            && (if negative then text[1..n] else text[..n]) == digits
  {
    hide IntegerLength, FractionLength, ExponentLength;
    var text := RenderNumber(negative, digits, [], exponent);
    NumberParts(negative, digits, [], exponent, []);
    EmptyRight(text);
    WholeSlice(negative, digits, exponent);
  }

  lemma WholeSlice(negative: bool, digits: Bytes, exponent: Bytes)
    requires digits != [] && AllDigits(digits)
    ensures var text, n := RenderNumber(negative, digits, [], exponent), |Signed(negative, digits)|;
            && n > 0 && |text| == n + |exponent| && (text[0] == MINUS <==> negative)
            && (if negative then text[1..n] else text[..n]) == digits
  {
    assert Digit(digits[0]);
  }

  lemma WholeNumber(dv: DoubleValue, negative: bool, digits: Bytes, exponent: Bytes)
    requires GoodNumber(digits, [], exponent)
    ensures var text := RenderNumber(negative, digits, [], exponent);
            IntegerLength(text) > 0 && NumberVariant(ToLongLong(text)) == MeaningOfNumber(dv, negative, digits, [], exponent)
  {
    WholeText(negative, digits, exponent);
    HornerIsDecimal(digits);
    hide IntegerLength, RenderNumber, Horner, Decimal, AllDigits, GoodExponent;
  }

  /** What the scanner makes of a number whose parts have these lengths. */
  lemma ScanByParts(dv: DoubleValue, b: Bytes, n: nat, f: nat, e: nat)
    requires 0 < n == IntegerLength(b) && n <= |b| && f == FractionLength(b[n..]) && n + f <= |b| &&
             e == ExponentLength(b[n + f..])
    ensures n + f + e <= |b| && IntegerLength(b[..n + f + e]) == n
    ensures ScanNumber(dv, b) ==
            Scan(TVariant(if f > 0 then Double(dv(b[..n + f + e])) else NumberVariant(ToLongLong(b[..n + f + e]))), b[n + f + e..])
  {
    hide IntegerLength, FractionLength, ExponentLength, ToLongLong, NumberVariant;
    IntegerLengthOfPrefix(b, n + f + e);
  }

  lemma NumberShape(negative: bool, digits: Bytes, fraction: Bytes, exponent: Bytes)
    requires GoodNumber(digits, fraction, exponent)
    ensures var text := RenderNumber(negative, digits, fraction, exponent);
            && |text| == |Signed(negative, digits)| + |Point(fraction)| + |exponent| && |Signed(negative, digits)| > 0
            && (fraction == [] <==> |Point(fraction)| == 0) && (text[0] == MINUS <==> negative) &&
              (text[0] == MINUS || Digit(text[0]))
  {
    assert Digit(digits[0]);
  }

  lemma NumberIsNext(dv: DoubleValue, b: Bytes)
    requires b != [] && (b[0] == MINUS || Digit(b[0])) && IntegerLength(b) > 0
    ensures NextToken(dv, b) == ScanNumber(dv, b)
  {
    hide IntegerLength, ScanNumber;
  }

  lemma ReadByParts(dv: DoubleValue, text: Bytes, t: Bytes, n: nat, f: nat, e: nat)
    requires |text| == n + f + e && 0 < n && (text[0] == MINUS || Digit(text[0]))
    requires var b := text + t; n == IntegerLength(b) && f == FractionLength(b[n..]) && e == ExponentLength(b[n + f..])
    ensures IntegerLength(text) == n
    ensures NextToken(dv, text + t) ==
            Scan(TVariant(if f > 0 then Double(dv(text)) else NumberVariant(ToLongLong(text))), t)
  {
    hide IntegerLength, FractionLength, ExponentLength, ToLongLong, NumberVariant, ScanNumber, NextToken;
    Split(text, t);
    NumberIsNext(dv, text + t);
    ScanByParts(dv, text + t, n, f, e);
  }

  lemma ReadNumber(dv: DoubleValue, negative: bool, digits: Bytes, fraction: Bytes, exponent: Bytes, t: Bytes)
    requires GoodNumber(digits, fraction, exponent) && EndsBefore(fraction, exponent, t)
    ensures NextToken(dv, RenderNumber(negative, digits, fraction, exponent) + t) ==
            Scan(TVariant(MeaningOfNumber(dv, negative, digits, fraction, exponent)), t)
  {
    hide IntegerLength, FractionLength, ExponentLength, ToLongLong, NumberVariant, ScanNumber, NextToken,
        EndsBefore, GoodNumber,
      Horner, RenderNumber, Signed, Point, Digit, AllDigits;
    NumberParts(negative, digits, fraction, exponent, t);
    NumberShape(negative, digits, fraction, exponent);
    ReadByParts(dv, RenderNumber(negative, digits, fraction, exponent), t,
                |Signed(negative, digits)|, |Point(fraction)|, |exponent|);
    if fraction == [] {
      WholeNumber(dv, negative, digits, exponent);
    }
  }

  // ---------- Keywords ----------

  const WORD_NULL: Bytes := [0x6E, 0x75, 0x6C, 0x6C]
  const WORD_UNDEFINED: Bytes := [0x75, 0x6E, 0x64, 0x65, 0x66, 0x69, 0x6E, 0x65, 0x64]
  const WORD_TRUE: Bytes := [0x74, 0x72, 0x75, 0x65]
  const WORD_FALSE: Bytes := [0x66, 0x61, 0x6C, 0x73, 0x65]
  const WORD_NAN: Bytes := [0x6E, 0x61, 0x6E]
  const WORD_INFINITY: Bytes := [0x69, 0x6E, 0x66, 0x69, 0x6E, 0x69, 0x74, 0x79]

  /** The word in upper or lower case letters. */
  predicate IsWord(text: Bytes, word: Bytes) {
    |text| == |word| && forall i :: 0 <= i < |word| ==> IsLetter(text[i], word[i])
  }

  predicate IsSignedInfinity(text: Bytes) {
    text != [] && (text[0] == 0x2B || text[0] == 0x2D) && IsWord(text[1..], WORD_INFINITY)
  }

  predicate GoodKeyword(text: Bytes) {
    || IsWord(text, WORD_NULL) || IsWord(text, WORD_UNDEFINED) || IsWord(text, WORD_TRUE) || IsWord(text, WORD_FALSE)
    || IsWord(text, WORD_NAN) || IsWord(text, WORD_INFINITY) || IsSignedInfinity(text)
  }

  function MeaningOfKeyword(text: Bytes): Value
    requires GoodKeyword(text)
  {
    if IsWord(text, WORD_NULL) || IsWord(text, WORD_UNDEFINED) then Null
    else if IsWord(text, WORD_TRUE) then Bool(true)
    else if IsWord(text, WORD_FALSE) then Bool(false)
    else if IsWord(text, WORD_NAN) then Double(NAN_BITS)
    else Double(if text[0] == 0x2D then MINUS_INFINITY_BITS else INFINITY_BITS)
  }

  predicate IsLowerWord(word: Bytes) {
    forall i :: 0 <= i < |word| ==> 0x61 <= word[i] <= 0x7A
  }

  /** Two letters tell the words apart. */
  predicate Begins(b: Bytes, word: Bytes) {
    |b| >= 2 && |word| >= 2 && Lower(b[0]) == word[0] && Lower(b[1]) == word[1]
  }

  lemma StartsWithWord(text: Bytes, t: Bytes, word: Bytes)
    requires IsLowerWord(word) && |word| >= 2
    ensures IsWord(text, word) ==> StartsWith(text + t, word) && (text + t)[|word|..] == t && Begins(text + t, word)
    ensures StartsWith(text + t, word) ==> Begins(text + t, word)
  {
    forall i | 0 <= i < |word| && i < |text|
      ensures Lower((text + t)[i]) == word[i] <==> IsLetter(text[i], word[i])
    {
      assert (text + t)[i] == text[i];
    }
    if IsWord(text, word) {
      Split(text, t);
    }
  }

  /** A text that starts with no digit, nor with a minus and a digit, is no number. */
  lemma NoNumber(b: Bytes)
    requires b != [] && !Digit(b[0]) && (b[0] == 0x2D ==> |b| >= 2 && !Digit(b[1]))
    ensures IntegerLength(b) == 0
  {
    assert b[0..] == b;
  }

  lemma ScanWord(text: Bytes, t: Bytes)
    requires GoodKeyword(text)
    ensures ScanKeyword(text + t) == Scan(TVariant(MeaningOfKeyword(text)), t)
  {
    hide IsWord, StartsWith, Lower;
    var b := text + t;
    SignIsNoLetter(0x2B);
    SignIsNoLetter(0x2D);
    StartsWithWord(text, t, WORD_NULL);
    StartsWithWord(text, t, WORD_UNDEFINED);
    StartsWithWord(text, t, WORD_TRUE);
    StartsWithWord(text, t, WORD_FALSE);
    StartsWithWord(text, t, WORD_NAN);
    StartsWithWord(text, t, WORD_INFINITY);
    if IsSignedInfinity(text) {
      StartsWithWord(text[1..], t, WORD_INFINITY);
      assert b[0] == text[0] && b[1..] == text[1..] + t && b[9..] == b[1..][8..];
    }
  }

  lemma SignIsNoLetter(c: byte)
    requires c == 0x2B || c == 0x2D
    ensures Lower(c) == c
  {
  }

  lemma ReadKeyword(dv: DoubleValue, text: Bytes, t: Bytes)
    requires GoodKeyword(text)
    ensures NextToken(dv, text + t) == Scan(TVariant(MeaningOfKeyword(text)), t)
  {
    KeywordShape(text);
    var b := text + t;
    assert b[0] == text[0] && b[1] == text[1];
    NoNumber(b);
    ScanWord(text, t);
    hide ScanKeyword, IntegerLength, MeaningOfKeyword, GoodKeyword, ScanString;
  }

  lemma KeywordShape(text: Bytes)
    requires GoodKeyword(text)
    ensures |text| >= 3
    ensures 0x41 <= text[0] <= 0x5A || 0x61 <= text[0] <= 0x7A || text[0] == 0x2B || text[0] == 0x2D
    ensures !Digit(text[1])
  {
    assert IsSignedInfinity(text) ==> IsLetter(text[1..][0], 0x69) && text[1..][0] == text[1];
  }

  // ---------- Values ----------

  predicate Good(s: Syntax)
    decreases s
  {
    match s
    case Keyword(text) => GoodKeyword(text)
    case Number(_, digits, fraction, exponent) => GoodNumber(digits, fraction, exponent)
    case Quoted(chars) => GoodString(chars)
    case Array(blank, elements) => White(blank) && GoodElements(elements)
    case Object(blank, members) => White(blank) && GoodMembers(members)
  }

  predicate GoodElements(es: seq<Element>)
    decreases es
  {
    es == [] || (White(es[0].before) && Good(es[0].value) && White(es[0].after) && GoodElements(es[1..]))
  }

  predicate GoodMembers(ms: seq<Member>)
    decreases ms
  {
    ms == [] ||
    (&& White(ms[0].before) && GoodString(ms[0].key) && White(ms[0].middle)
     && White(ms[0].element.before) && Good(ms[0].element.value) && White(ms[0].element.after)
     && GoodMembers(ms[1..]))
  }

  function Render(s: Syntax): Bytes
    decreases s
  {
    match s
    case Keyword(text) => text
    case Number(negative, digits, fraction, exponent) => RenderNumber(negative, digits, fraction, exponent)
    case Quoted(chars) => [0x22] + RenderString(chars) + [0x22]
    case Array(blank, elements) => [0x5B] + (if elements == [] then blank else RenderElements(elements)) + [0x5D]
    case Object(blank, members) => [0x7B] + (if members == [] then blank else RenderMembers(members)) + [0x7D]
  }

  function RenderElement(e: Element): Bytes
    decreases e
  {
    e.before + Render(e.value) + e.after
  }

  /** Separated by commas. */
  function RenderElements(es: seq<Element>): Bytes
    decreases es
  {
    if es == [] then [] else RenderElement(es[0]) + (if |es| == 1 then [] else [0x2C] + RenderElements(es[1..]))
  }

  function RenderMember(m: Member): Bytes
    decreases m
  {
    m.before + ([0x22] + RenderString(m.key) + [0x22]) + m.middle + [0x3A] + RenderElement(m.element)
  }

  function RenderMembers(ms: seq<Member>): Bytes
    decreases ms
  {
    if ms == [] then [] else RenderMember(ms[0]) + (if |ms| == 1 then [] else [0x2C] + RenderMembers(ms[1..]))
  }

  /** The members of an object are set one after the other. */
  function Meaning(dv: DoubleValue, s: Syntax): Value
    requires Good(s)
    decreases s
  {
    match s
    case Keyword(text) => MeaningOfKeyword(text)
    case Number(negative, digits, fraction, exponent) => MeaningOfNumber(dv, negative, digits, fraction, exponent)
    case Quoted(chars) => Str(MeaningOfString(chars))
    case Array(_, elements) => List(MeaningOfElements(dv, elements))
    case Object(_, members) => Map(InsertAll([], MeaningOfMembers(dv, members)))
  }

  function MeaningOfElements(dv: DoubleValue, es: seq<Element>): seq<Value>
    requires GoodElements(es)
    decreases es
  {
    if es == [] then [] else [Meaning(dv, es[0].value)] + MeaningOfElements(dv, es[1..])
  }

  function MeaningOfMembers(dv: DoubleValue, ms: seq<Member>): seq<Entry>
    requires GoodMembers(ms)
    decreases ms
  {
    if ms == [] then []
    else [Entry(MeaningOfString(ms[0].key), Meaning(dv, ms[0].element.value))] + MeaningOfMembers(dv, ms[1..])
  }

  /** What may follow a value: anything, unless it continues a number. */
  predicate MayFollow(s: Syntax, t: Bytes) {
    s.Number? ==> EndsBefore(s.fraction, s.exponent, t)
  }

  // ---------- What the grammar derives is read ----------

  lemma SkipWhite(dv: DoubleValue, w: Bytes, b: Bytes)
    requires White(w)
    ensures NextToken(dv, w + b) == NextToken(dv, b) && ParseVariant(dv, w + b) == ParseVariant(dv, b)
  {
    assert JsonRoundTrip.Blank(w);
    JsonRoundTrip.SkipBlank(dv, w, b);
    JsonRoundTrip.VariantAfterBlank(dv, w, b);
  }

  /** White space and punctuation end a number. */
  lemma Delimits(s: Syntax, w: Bytes, c: byte, t: Bytes)
    requires White(w) && (c == 0x2C || c == 0x5D || c == 0x7D)
    ensures MayFollow(s, w + ([c] + t))
  {
    assert (w + ([c] + t))[0] == if w == [] then c else w[0];
  }

  lemma ReadLeaf(dv: DoubleValue, s: Syntax, t: Bytes)
    requires Good(s) && MayFollow(s, t) && !s.Array? && !s.Object?
    ensures ParseVariant(dv, Render(s) + t) == Item(Meaning(dv, s), t)
  {
    hide NextToken, EndsBefore, GoodNumber, GoodKeyword, GoodString, MeaningOfKeyword, MeaningOfNumber,
        RenderNumber, RenderString;
    match s
    case Keyword(text) => ReadKeyword(dv, text, t);
    case Number(negative, digits, fraction, exponent) => ReadNumber(dv, negative, digits, fraction, exponent, t);
    case Quoted(chars) => ReadQuoted(dv, chars, t);
  }

  /** Every derivation is read with its meaning, and exactly what follows it is left. */
  lemma {:induction false} DerivedIsRead(dv: DoubleValue, s: Syntax, t: Bytes)
    requires Good(s) && MayFollow(s, t)
    ensures ParseVariant(dv, Render(s) + t) == Item(Meaning(dv, s), t)
    decreases s, 1
  {
    hide NextToken, ParseVariant, Render, Meaning, MayFollow;
    if s.Array? {
      ReadArray(dv, s.blank, s.elements, t);
    } else if s.Object? {
      ReadObject(dv, s.blank, s.members, t);
    } else {
      ReadLeaf(dv, s, t);
    }
  }

  lemma {:induction false} ReadArray(dv: DoubleValue, blank: Bytes, es: seq<Element>, t: Bytes)
    requires White(blank) && GoodElements(es)
    ensures ParseVariant(dv, Render(Array(blank, es)) + t) == Item(Meaning(dv, Array(blank, es)), t)
    decreases es, 1
  {
    hide NextToken, ParseVariant, ParseElement, RenderElements, MeaningOfElements, White;
    var inner := if es == [] then blank else RenderElements(es);
    Regroup([0x5B], inner, [0x5D], t);
    Associative(inner, [0x5D], t);
    JsonRoundTrip.OpenArray(dv, inner + ([0x5D] + t));
    if es == [] {
      SkipWhite(dv, blank, [0x5D] + t);
      JsonRoundTrip.Punctuation(dv, t);
      NoElements(dv);
    } else {
      ReadElements(dv, [], es, t);
      EmptyLeft(MeaningOfElements(dv, es));
      JsonRoundTrip.NotAClosingBracket(dv, inner + ([0x5D] + t));
    }
  }

  lemma NoElements(dv: DoubleValue)
    ensures MeaningOfElements(dv, []) == [] && MeaningOfMembers(dv, []) == [] && InsertAll([], []) == []
  {
  }

  lemma {:induction false} ReadElement(dv: DoubleValue, e: Element, c: byte, t: Bytes)
    requires White(e.before) && Good(e.value) && White(e.after) && (c == 0x2C || c == 0x5D || c == 0x7D)
    ensures ParseVariant(dv, RenderElement(e) + ([c] + t)) == Item(Meaning(dv, e.value), e.after + ([c] + t))
    decreases e, 0
  {
    hide NextToken, ParseVariant, Render, Meaning, White, MayFollow;
    Regroup(e.before, Render(e.value), e.after, [c] + t);
    SkipWhite(dv, e.before, Render(e.value) + (e.after + ([c] + t)));
    Delimits(e.value, e.after, c, t);
    DerivedIsRead(dv, e.value, e.after + ([c] + t));
  }

  lemma {:induction false} ReadElements(dv: DoubleValue, list: seq<Value>, es: seq<Element>, t: Bytes)
    requires es != [] && GoodElements(es)
    ensures ParseElement(dv, list, RenderElements(es) + ([0x5D] + t)) == Item(List(list + MeaningOfElements(dv, es)), t)
    decreases es, 0
  {
    hide NextToken, ParseVariant, RenderElement, Meaning, White;
    var e := es[0];
    var v := Meaning(dv, e.value);
    JsonRoundTrip.Punctuation(dv, t);
    if |es| == 1 {
      EmptyRight(RenderElement(e));
      ReadElement(dv, e, 0x5D, t);
      SkipWhite(dv, e.after, [0x5D] + t);
      assert MeaningOfElements(dv, es) == [v];
    } else {
      var more := RenderElements(es[1..]) + ([0x5D] + t);
      Associative([0x2C], RenderElements(es[1..]), [0x5D] + t);
      Associative(RenderElement(e), [0x2C] + RenderElements(es[1..]), [0x5D] + t);
      ReadElement(dv, e, 0x2C, more);
      SkipWhite(dv, e.after, [0x2C] + more);
      JsonRoundTrip.Punctuation(dv, more);
      ReadElements(dv, list + [v], es[1..], t);
      Associative(list, [v], MeaningOfElements(dv, es[1..]));
    }
  }

  lemma {:induction false} ReadObject(dv: DoubleValue, blank: Bytes, ms: seq<Member>, t: Bytes)
    requires White(blank) && GoodMembers(ms)
    ensures ParseVariant(dv, Render(Object(blank, ms)) + t) == Item(Meaning(dv, Object(blank, ms)), t)
    decreases ms, 1
  {
    hide NextToken, ParseVariant, ParseMember, RenderMembers, MeaningOfMembers, White, InsertAll;
    var inner := if ms == [] then blank else RenderMembers(ms);
    Regroup([0x7B], inner, [0x7D], t);
    Associative(inner, [0x7D], t);
    JsonRoundTrip.OpenObject(dv, inner + ([0x7D] + t));
    if ms == [] {
      SkipWhite(dv, blank, [0x7D] + t);
      JsonRoundTrip.Punctuation(dv, t);
      NoElements(dv);
    } else {
      ReadMembers(dv, [], ms, t);
      JsonRoundTrip.NotAClosingBrace(dv, inner + ([0x7D] + t));
    }
  }

  /** A member up to its value. */
  lemma ReadKey(dv: DoubleValue, m: seq<Entry>, member: Member, b: Bytes)
    requires White(member.before) && GoodString(member.key) && White(member.middle)
    requires ParseVariant(dv, RenderElement(member.element) + b).Item?
    ensures ParseMember(dv, m, RenderMember(member) + b) ==
            var p := ParseVariant(dv, RenderElement(member.element) + b);
            ParseMoreMembers(dv, Insert(m, MeaningOfString(member.key), p.value), p.rest)
  {
    hide NextToken, ParseVariant, ParseMoreMembers, RenderElement, White, GoodString, RenderString,
        MeaningOfString, Insert;
    var key, value := [0x22] + RenderString(member.key) + [0x22], RenderElement(member.element) + b;
    RegroupSix(member.before, key, member.middle, [0x3A], RenderElement(member.element), b);
    SkipWhite(dv, member.before, key + (member.middle + ([0x3A] + value)));
    ReadQuoted(dv, member.key, member.middle + ([0x3A] + value));
    SkipWhite(dv, member.middle, [0x3A] + value);
    JsonRoundTrip.Punctuation(dv, value);
  }

  lemma {:induction false} ReadMembers(dv: DoubleValue, m: seq<Entry>, ms: seq<Member>, t: Bytes)
    requires ms != [] && GoodMembers(ms)
    ensures ParseMember(dv, m, RenderMembers(ms) + ([0x7D] + t)) == Item(Map(InsertAll(m, MeaningOfMembers(dv, ms))), t)
    decreases ms, 0
  {
    hide NextToken, ParseVariant, ParseMember, RenderElement, RenderMember, Meaning, White, GoodString, MeaningOfString,
      Insert;
    var e := Entry(MeaningOfString(ms[0].key), Meaning(dv, ms[0].element.value));
    var after := ms[0].element.after;
    JsonRoundTrip.Punctuation(dv, t);
    if |ms| == 1 {
      EmptyRight(RenderMember(ms[0]));
      ReadElement(dv, ms[0].element, 0x7D, t);
      ReadKey(dv, m, ms[0], [0x7D] + t);
      SkipWhite(dv, after, [0x7D] + t);
      assert MeaningOfMembers(dv, ms) == [e];
      OneInserted(m, e);
    } else {
      var more := RenderMembers(ms[1..]) + ([0x7D] + t);
      Associative([0x2C], RenderMembers(ms[1..]), [0x7D] + t);
      Associative(RenderMember(ms[0]), [0x2C] + RenderMembers(ms[1..]), [0x7D] + t);
      ReadElement(dv, ms[0].element, 0x2C, more);
      ReadKey(dv, m, ms[0], [0x2C] + more);
      SkipWhite(dv, after, [0x2C] + more);
      JsonRoundTrip.Punctuation(dv, more);
      ReadMembers(dv, Insert(m, e.key, e.value), ms[1..], t);
      assert ([e] + MeaningOfMembers(dv, ms[1..]))[1..] == MeaningOfMembers(dv, ms[1..]);
    }
  }

  lemma OneInserted(m: seq<Entry>, e: Entry)
    ensures InsertAll(m, [e]) == Insert(m, e.key, e.value)
  {
    assert [e][1..] == [];
  }

  // ---------- What is read is derived by the grammar ----------

  lemma {:induction false} HexIsDerived(b: Bytes, str: Bytes) returns (more: nat, digits: Bytes, rest: Bytes)
    requires ScanString(b, STRING_ESCAPE_UNICODE, str).token.TString?
    ensures FourHex(digits) && b == Breaks(more) + (digits + rest)
    ensures ScanString(b, STRING_ESCAPE_UNICODE, str) == ScanString(rest, STRING, str + Utf8(CodeOf(digits)))
    decreases |b|
  {
    hide Utf8, CodeOf;
    if b[0] == NEWLINE {
      more, digits, rest := HexIsDerived(b[1..], str);
      assert b == [0x0A] + b[1..] && Breaks(more + 1) == [0x0A] + Breaks(more);
      Associative([0x0A], Breaks(more), digits + rest);
      more := more + 1;
    } else {
      more, digits, rest := 0, b[..4], b[4..];
      forall i | 0 <= i < 4
        ensures Hex(digits[i])
      {
        assert digits[i] in b[..4];
        SameEscapes(digits[i]);
      }
      assert b == digits + rest && Breaks(0) == [];
      EmptyLeft(digits + rest);
      ReadHex(digits, rest, str);
    }
  }

  /** What is behind a backslash. */
  lemma {:induction false} EscapeIsDerived(b: Bytes, str: Bytes) returns (x: Character, rest: Bytes)
    requires ScanString(b, STRING_ESCAPE, str).token.TString?
    ensures !x.Plain? && GoodCharacter(x) && [0x5C] + b == RenderCharacter(x) + rest
    ensures ScanString(b, STRING_ESCAPE, str) == ScanString(rest, STRING, str + MeaningOfCharacter(x))
    ensures |rest| < |b|
    decreases |b|
  {
    hide Utf8, CodeOf, EscapeOf;
    var c, after := b[0], b[1..];
    assert b == [c] + after;
    SameEscapes(c);
    if c == NEWLINE {
      x, rest := EscapeIsDerived(after, str);
      x := OneMoreBreak(x, after, rest);
    } else if Lower(c) == 0x75 {
      var more, digits;
      more, digits, rest := HexIsDerived(after, str);
      x := Unicode(0, c, more, digits);
      RegroupSix([0x5C], [], [c], Breaks(more), digits, rest);
      EmptyLeft([c] + (Breaks(more) + (digits + rest)));
    } else {
      x, rest := Escaped(0, c), after;
      Regroup([0x5C], [], [c], rest);
      EmptyLeft([c] + rest);
    }
  }

  /** What is behind the line breaks. */
  function BehindBreaks(x: Character): Bytes
    requires !x.Plain?
  {
    if x.Escaped? then [x.letter] else [x.letter] + (Breaks(x.more) + x.digits)
  }

  lemma CharacterText(x: Character)
    requires !x.Plain?
    ensures RenderCharacter(x) == [0x5C] + (Breaks(x.breaks) + BehindBreaks(x))
  {
    hide Breaks;
    if x.Escaped? {
      Associative([0x5C], Breaks(x.breaks), [x.letter]);
    } else {
      Regroup([0x5C], Breaks(x.breaks), [x.letter] + Breaks(x.more), x.digits);
      Associative([0x5C] + Breaks(x.breaks), [x.letter], Breaks(x.more));
      Associative([x.letter], Breaks(x.more), x.digits);
    }
  }

  lemma OneBreakMore(n: nat)
    ensures Breaks(n + 1) == [0x0A] + Breaks(n)
  {
  }

  lemma OneMoreBreak(x: Character, after: Bytes, rest: Bytes) returns (y: Character)
    requires !x.Plain? && GoodCharacter(x) && [0x5C] + after == RenderCharacter(x) + rest
    ensures !y.Plain? && GoodCharacter(y) && [0x5C] + ([0x0A] + after) == RenderCharacter(y) + rest
    ensures MeaningOfCharacter(y) == MeaningOfCharacter(x)
  {
    y := x.(breaks := x.breaks + 1);
    CharacterText(x);
    CharacterText(y);
    OneBreakMore(x.breaks);
    hide Utf8, CodeOf, EscapeOf, FourHex, Breaks, RenderCharacter, BehindBreaks;
    SameTail(x, y);
    BehindOneMore(Breaks(x.breaks), BehindBreaks(x), after, rest);
  }

  lemma BehindOneMore(n: Bytes, tail: Bytes, after: Bytes, rest: Bytes)
    requires [0x5C] + after == [0x5C] + (n + tail) + rest
    ensures [0x5C] + ([0x0A] + after) == [0x5C] + ([0x0A] + n + tail) + rest
  {
    Associative([0x5C], n + tail, rest);
    SameParts(0x5C, after, 0x5C, n + tail + rest);
    Associative([0x0A], n, tail);
    Associative([0x0A], n + tail, rest);
    Associative([0x5C], [0x0A] + (n + tail), rest);
  }

  lemma SameTail(x: Character, y: Character)
    requires !x.Plain? && y == x.(breaks := x.breaks + 1)
    ensures BehindBreaks(y) == BehindBreaks(x)
  {
  }

  lemma {:induction false} StringIsDerived(b: Bytes, str: Bytes) returns (chars: seq<Character>)
    requires ScanString(b, STRING, str).token.TString?
    ensures GoodString(chars) && b == RenderString(chars) + ([0x22] + ScanString(b, STRING, str).rest)
    decreases |b|
  {
    hide Utf8, RenderCharacter, MeaningOfCharacter;
    var c, after := b[0], b[1..];
    assert b == [c] + after;
    if c == QUOTE {
      chars := [];
      EmptyLeft([0x22] + after);
    } else {
      var x, rest, more;
      if c == BACKSLASH {
        x, rest := EscapeIsDerived(after, str);
        more := StringIsDerived(rest, str + MeaningOfCharacter(x));
      } else {
        x, rest := Plain(c), after;
        PlainText(c);
        more := StringIsDerived(rest, if c == NEWLINE then str else str + Utf8(c));
      }
      chars := [x] + more;
      assert chars[1..] == more && forall i :: 1 <= i < |chars| ==> chars[i] == more[i - 1];
      Associative(RenderCharacter(x), RenderString(more), [0x22] + ScanString(b, STRING, str).rest);
    }
  }

  lemma PlainText(c: byte)
    ensures RenderCharacter(Plain(c)) == [c]
  {
  }

  lemma CountedDigits(b: Bytes)
    ensures AllDigits(b[..DigitCount(b)]) && !StartsDigit(b[DigitCount(b)..])
  {
  }

  /** The number at the start of a text, and what it ends before. */
  lemma NumberIsDerived(b: Bytes) returns (negative: bool, digits: Bytes, fraction: Bytes, exponent: Bytes, rest: Bytes)
    requires IntegerLength(b) > 0
    ensures GoodNumber(digits, fraction, exponent) && EndsBefore(fraction, exponent, rest)
    ensures b == RenderNumber(negative, digits, fraction, exponent) + rest
  {
    var r0, r1;
    negative, digits, r0 := IntegerIsDerived(b);
    fraction, r1 := FractionIsDerived(r0);
    exponent, rest := ExponentIsDerived(r1);
    hide Digit, AllDigits, IsLetter, GoodExponent;
    Regroup(Signed(negative, digits), Point(fraction), exponent, rest);
    if exponent == [] {
      EmptyLeft(rest);
      if fraction == [] {
        EmptyLeft(r1);
      }
    }
  }

  /** Digits as long as they last. */
  lemma DigitsAreDerived(b: Bytes) returns (digits: Bytes, rest: Bytes)
    ensures AllDigits(digits) && !StartsDigit(rest) && b == digits + rest && |digits| == DigitCount(b)
  {
    CountedDigits(b);
    digits, rest := b[..DigitCount(b)], b[DigitCount(b)..];
  }

  lemma IntegerIsDerived(b: Bytes) returns (negative: bool, digits: Bytes, rest: Bytes)
    requires IntegerLength(b) > 0
    ensures digits != [] && AllDigits(digits) && !StartsDigit(rest) && b == Signed(negative, digits) + rest
  {
    hide AllDigits, StartsDigit, DigitCount;
    negative := b[0] == MINUS;
    if negative {
      digits, rest := DigitsAreDerived(b[1..]);
      assert b == [0x2D] + b[1..];
      Associative([0x2D], digits, rest);
    } else {
      assert b[0..] == b;
      digits, rest := DigitsAreDerived(b);
      EmptyLeft(digits);
    }
  }

  lemma FractionIsDerived(b: Bytes) returns (fraction: Bytes, rest: Bytes)
    requires !StartsDigit(b)
    ensures AllDigits(fraction) && !StartsDigit(rest) && b == Point(fraction) + rest
    ensures fraction == [] ==> !StartsFraction(rest)
  {
    if FractionLength(b) == 0 {
      fraction, rest := [], b;
      EmptyLeft(b);
      WithoutFraction(b);
    } else {
      hide AllDigits, StartsDigit, DigitCount;
      fraction, rest := DigitsAreDerived(b[1..]);
      assert b == [0x2E] + b[1..];
      Associative([0x2E], fraction, rest);
    }
  }

  lemma WithoutFraction(b: Bytes)
    requires FractionLength(b) == 0
    ensures !StartsFraction(b)
  {
    assert |b| >= 2 ==> b[1..][0] == b[1];
  }

  lemma ExponentIsDerived(b: Bytes) returns (exponent: Bytes, rest: Bytes)
    requires !StartsDigit(b)
    ensures GoodExponent(exponent) && !StartsDigit(rest) && b == exponent + rest
    ensures exponent == [] ==> !StartsExponent(rest)
  {
    var n := ExponentLength(b);
    exponent, rest := b[..n], b[n..];
    if n == 0 {
      WithoutExponent(b);
    } else {
      var sign := if |b| > 1 && (b[1] == MINUS || b[1] == 0x2B) then 2 else 1;
      CountedDigits(b[sign..]);
      assert exponent[sign..] == b[sign..][..DigitCount(b[sign..])] && rest == b[sign..][DigitCount(b[sign..])..];
    }
  }

  lemma WithoutExponent(b: Bytes)
    requires ExponentLength(b) == 0
    ensures !StartsExponent(b)
  {
    if |b| >= 2 && Digit(b[1]) {
      assert b[1..][0] == b[1];
    }
    if |b| >= 3 && Digit(b[2]) {
      assert b[2..][0] == b[2];
    }
  }

  /** The white space in front of a token. */
  lemma {:induction false} WhiteIsDerived(dv: DoubleValue, b: Bytes) returns (w: Bytes, rest: Bytes)
    ensures White(w) && b == w + rest && NextToken(dv, b) == NextToken(dv, rest)
    ensures rest != [] ==> !IsSpace(rest[0])
  {
    hide ScanString, ScanNumber, ScanKeyword, IntegerLength;
    if b == [] || !IsSpace(b[0]) {
      w, rest := [], b;
      EmptyLeft(b);
    } else {
      var more;
      more, rest := WhiteIsDerived(dv, b[1..]);
      w := [b[0]] + more;
      assert b == [b[0]] + b[1..];
      Associative([b[0]], more, rest);
    }
  }

  lemma PunctuationIsDerived(dv: DoubleValue, b: Bytes, c: byte) returns (w: Bytes)
    requires c in {OPEN_BRACE, CLOSE_BRACE, OPEN_BRACKET, CLOSE_BRACKET, COLON, COMMA}
    requires NextToken(dv, b).token == JsonRoundTrip.PunctuationToken(c)
    ensures White(w) && b == w + ([c] + NextToken(dv, b).rest)
  {
    var rest;
    w, rest := WhiteIsDerived(dv, b);
    hide NextToken;
    PunctuationByItself(dv, rest, c);
  }

  predicate IsPunctuation(c: byte) {
    c in {OPEN_BRACE, CLOSE_BRACE, OPEN_BRACKET, CLOSE_BRACKET, COLON, COMMA}
  }

  /** The first character decides. */
  lemma TokenByFirst(dv: DoubleValue, b: Bytes)
    requires b != [] && !IsSpace(b[0])
    ensures NextToken(dv, b) ==
            if IsPunctuation(b[0]) then Scan(JsonRoundTrip.PunctuationToken(b[0]), b[1..])
            else if b[0] == QUOTE then ScanString(b[1..], STRING, [])
            else if IntegerLength(b) > 0 then ScanNumber(dv, b)
            else ScanKeyword(b)
  {
    hide ScanString, ScanNumber, ScanKeyword, IntegerLength;
  }

  lemma PunctuationByItself(dv: DoubleValue, b: Bytes, c: byte)
    requires IsPunctuation(c) && (b != [] ==> !IsSpace(b[0])) &&
             NextToken(dv, b).token == JsonRoundTrip.PunctuationToken(c)
    ensures b == [c] + NextToken(dv, b).rest
  {
    if b != [] {
      TokenByFirst(dv, b);
      NoPunctuationInside(dv, b);
      hide NextToken, ScanString, ScanNumber, ScanKeyword, IntegerLength, IsSpace;
      assert b[0] == c;
      assert b == [b[0]] + b[1..];
    }
  }

  /** Strings, numbers and keywords are no punctuation. */
  lemma NoPunctuationInside(dv: DoubleValue, b: Bytes)
    requires b != []
    ensures var t := ScanString(b[1..], STRING, []).token; t.TString? || t.TEnd? || t.TSynErrEsc? || t.TSynErrUni?
    ensures IntegerLength(b) > 0 ==> ScanNumber(dv, b).token.TVariant?
    ensures var t := ScanKeyword(b).token; t.TVariant? || t.TSynErr?
  {
    StringToken(b[1..], STRING, []);
    hide StartsWith, IntegerLength;
  }

  lemma {:induction false} StringToken(b: Bytes, state: Condition, str: Bytes)
    ensures var t := ScanString(b, state, str).token; t.TString? || t.TEnd? || t.TSynErrEsc? || t.TSynErrUni?
    decreases |b|
  {
    hide Utf8;
    if b != [] && b[0] == NEWLINE {
      StringToken(b[1..], state, str);
    } else if b != [] {
      match state
      case STRING =>
        if b[0] == BACKSLASH {
          StringToken(b[1..], STRING_ESCAPE, str);
        } else if b[0] != QUOTE {
          StringToken(b[1..], STRING, str + Utf8(b[0]));
        }
      case STRING_ESCAPE =>
        if Lower(b[0]) == 0x75 {
          StringToken(b[1..], STRING_ESCAPE_UNICODE, str);
        } else if Unescape(b[0]) != [] {
          StringToken(b[1..], STRING, str + Unescape(b[0]));
        }
      case STRING_ESCAPE_UNICODE =>
        if HexAhead(b) {
          StringToken(b[4..], STRING, str + Utf8(HexCode(b[..4])));
        }
    }
  }

  lemma WordIsDerived(b: Bytes, word: Bytes)
    requires IsLowerWord(word) && StartsWith(b, word)
    ensures IsWord(b[..|word|], word) && b == b[..|word|] + b[|word|..]
  {
  }

  lemma KeywordIsDerived(b: Bytes) returns (text: Bytes)
    requires b != [] && ScanKeyword(b).token.TVariant?
    ensures GoodKeyword(text) && b == text + ScanKeyword(b).rest
  {
    hide IsWord, StartsWith;
    var rest := ScanKeyword(b).rest;
    text := b[..|b| - |rest|];
    if StartsWith(b, KW_NULL) {
      WordIsDerived(b, WORD_NULL);
    } else if StartsWith(b, KW_UNDEFINED) {
      WordIsDerived(b, WORD_UNDEFINED);
    } else if StartsWith(b, KW_TRUE) {
      WordIsDerived(b, WORD_TRUE);
    } else if StartsWith(b, KW_FALSE) {
      WordIsDerived(b, WORD_FALSE);
    } else if StartsWith(b, KW_NAN) {
      WordIsDerived(b, WORD_NAN);
    } else if StartsWith(b, KW_INFINITY) {
      WordIsDerived(b, WORD_INFINITY);
    } else {
      WordIsDerived(b[1..], WORD_INFINITY);
      assert text == b[..9] && text[1..] == b[1..][..8];
    }
  }

  lemma QuotedIsDerived(dv: DoubleValue, b: Bytes) returns (w: Bytes, chars: seq<Character>)
    requires NextToken(dv, b).token.TString?
    ensures White(w) && GoodString(chars) && b == w + ([0x22] + RenderString(chars) + [0x22] + NextToken(dv, b).rest)
  {
    var rest;
    w, rest := WhiteIsDerived(dv, b);
    QuoteByItself(dv, rest);
    hide ScanString, NextToken, White, GoodString, RenderString;
    chars := StringIsDerived(rest[1..], []);
    Regroup([0x22], RenderString(chars), [0x22], NextToken(dv, b).rest);
  }

  lemma QuoteByItself(dv: DoubleValue, b: Bytes)
    requires (b != [] ==> !IsSpace(b[0])) && NextToken(dv, b).token.TString?
    ensures b != [] && b == [0x22] + b[1..] && NextToken(dv, b) == ScanString(b[1..], STRING, [])
  {
    if b != [] {
      assert b == [b[0]] + b[1..];
      TokenByFirst(dv, b);
      NoPunctuationInside(dv, b);
      hide NextToken, ScanString, ScanNumber, ScanKeyword, IntegerLength, IsSpace;
      assert b[0] == QUOTE;
    }
  }

  lemma LeafByItself(dv: DoubleValue, b: Bytes) returns (s: Syntax)
    requires (b != [] ==> !IsSpace(b[0])) && NextToken(dv, b).token.TVariant?
    ensures (s.Keyword? || s.Number?) && Good(s) && b == Render(s) + NextToken(dv, b).rest &&
            MayFollow(s, NextToken(dv, b).rest)
  {
    if b != [] {
      TokenByFirst(dv, b);
      NoPunctuationInside(dv, b);
    }
    hide NextToken, ScanString, ScanNumber, ScanKeyword, IntegerLength, IsSpace, GoodKeyword, EndsBefore,
        GoodNumber, RenderNumber;
    if IntegerLength(b) > 0 {
      var negative, digits, fraction, exponent, rest := NumberIsDerived(b);
      s := Number(negative, digits, fraction, exponent);
      ReadNumber(dv, negative, digits, fraction, exponent, rest);
    } else {
      var text := KeywordIsDerived(b);
      s := Keyword(text);
    }
  }

  lemma LeafIsDerived(dv: DoubleValue, b: Bytes) returns (w: Bytes, s: Syntax)
    requires NextToken(dv, b).token.TVariant?
    ensures White(w) && (s.Keyword? || s.Number?) && Good(s)
    ensures b == w + (Render(s) + NextToken(dv, b).rest) && MayFollow(s, NextToken(dv, b).rest)
  {
    var rest;
    w, rest := WhiteIsDerived(dv, b);
    hide NextToken, White, Render, Good, MayFollow;
    s := LeafByItself(dv, rest);
  }

  /** Whatever is read as a value, the grammar derives behind some white space. */
  ghost predicate Derives(w: Bytes, s: Syntax, b: Bytes, rest: Bytes) {
    White(w) && Good(s) && MayFollow(s, rest) && b == w + (Render(s) + rest)
  }

  lemma {:induction false} ReadIsDerived(dv: DoubleValue, b: Bytes) returns (w: Bytes, s: Syntax)
    requires ParseVariant(dv, b).Item?
    ensures Derives(w, s, b, ParseVariant(dv, b).rest)
    decreases |b|, 1
  {
    hide NextToken, White, ParseMember, ParseElement, RenderString, RenderElements, RenderMembers, GoodElements,
        GoodMembers, GoodString;
    var token, rest := NextToken(dv, b).token, ParseVariant(dv, b).rest;
    var inner := NextToken(dv, b).rest;
    match token {
      case TVariant(_) =>
        w, s := LeafIsDerived(dv, b);
      case TString(_) =>
        var chars;
        w, chars := QuotedIsDerived(dv, b);
        s := Quoted(chars);
      case TArrBegin =>
        w := PunctuationIsDerived(dv, b, OPEN_BRACKET);
        s := ArrayIsDerived(dv, inner);
      case TObjBegin =>
        w := PunctuationIsDerived(dv, b, OPEN_BRACE);
        s := ObjectIsDerived(dv, inner);
      case _ => assert false;
    }
  }

  lemma {:induction false} ArrayIsDerived(dv: DoubleValue, b: Bytes) returns (s: Syntax)
    requires NextToken(dv, b).token == TArrEnd || ParseElement(dv, [], b).Item?
    ensures s.Array? && Good(s)
    ensures [0x5B] + b == Render(s) + if NextToken(dv, b).token == TArrEnd then NextToken(dv, b).rest else ParseElement(dv, [], b).rest
    decreases |b|, 3
  {
    hide NextToken, White, ParseElement, RenderElements, GoodElements;
    if NextToken(dv, b).token == TArrEnd {
      var blank := PunctuationIsDerived(dv, b, CLOSE_BRACKET);
      s := Array(blank, []);
      NothingInside();
      Regroup([0x5B], blank, [0x5D], NextToken(dv, b).rest);
      Associative(blank, [0x5D], NextToken(dv, b).rest);
    } else {
      var es := ElementsAreDerived(dv, [], b);
      s := Array([], es);
      NothingInside();
      var rest := ParseElement(dv, [], b).rest;
      Regroup([0x5B], RenderElements(es), [0x5D], rest);
      Associative(RenderElements(es), [0x5D], rest);
    }
  }

  lemma NothingInside()
    ensures White([]) && GoodElements([]) && GoodMembers([])
  {
  }

  lemma {:induction false} ElementsAreDerived(dv: DoubleValue, list: seq<Value>, b: Bytes) returns (es: seq<Element>)
    requires ParseElement(dv, list, b).Item?
    ensures es != [] && GoodElements(es) && b == RenderElements(es) + ([0x5D] + ParseElement(dv, list, b).rest)
    decreases |b|, 2
  {
    var p := ParseVariant(dv, b);
    var before, v := ReadIsDerived(dv, b);
    var rest := ParseElement(dv, list, b).rest;
    hide NextToken, White, Render, Good, MayFollow, ParseVariant;
    if NextToken(dv, p.rest).token == TArrEnd {
      var after := PunctuationIsDerived(dv, p.rest, CLOSE_BRACKET);
      es := [Element(before, v, after)];
      NothingInside();
      EmptyRight(RenderElement(es[0]));
      Regroup(before, Render(v), after, [0x5D] + rest);
    } else {
      var after := PunctuationIsDerived(dv, p.rest, COMMA);
      var next := NextToken(dv, p.rest).rest;
      var more := ElementsAreDerived(dv, list + [p.value], next);
      var e := Element(before, v, after);
      es := [e] + more;
      assert es[1..] == more;
      Regroup(before, Render(v), after, [0x2C] + next);
      Associative([0x2C], RenderElements(more), [0x5D] + rest);
      Associative(RenderElement(e), [0x2C] + RenderElements(more), [0x5D] + rest);
    }
  }

  lemma {:induction false} ObjectIsDerived(dv: DoubleValue, b: Bytes) returns (s: Syntax)
    requires NextToken(dv, b).token == TObjEnd || ParseMember(dv, [], b).Item?
    ensures s.Object? && Good(s)
    ensures [0x7B] + b == Render(s) + if NextToken(dv, b).token == TObjEnd then NextToken(dv, b).rest else ParseMember(dv, [], b).rest
    decreases |b|, 3
  {
    hide NextToken, White, ParseMember, RenderMembers, GoodMembers;
    if NextToken(dv, b).token == TObjEnd {
      var blank := PunctuationIsDerived(dv, b, CLOSE_BRACE);
      s := Object(blank, []);
      NothingInside();
      Regroup([0x7B], blank, [0x7D], NextToken(dv, b).rest);
      Associative(blank, [0x7D], NextToken(dv, b).rest);
    } else {
      var ms := MembersAreDerived(dv, [], b);
      s := Object([], ms);
      NothingInside();
      var rest := ParseMember(dv, [], b).rest;
      Regroup([0x7B], RenderMembers(ms), [0x7D], rest);
      Associative(RenderMembers(ms), [0x7D], rest);
    }
  }

  lemma {:induction false} MembersAreDerived(dv: DoubleValue, m: seq<Entry>, b: Bytes) returns (ms: seq<Member>)
    requires ParseMember(dv, m, b).Item?
    ensures ms != [] && GoodMembers(ms) && b == RenderMembers(ms) + ([0x7D] + ParseMember(dv, m, b).rest)
    decreases |b|, 2
  {
    var rest := ParseMember(dv, m, b).rest;
    var key := NextToken(dv, b);
    var before, chars := QuotedIsDerived(dv, b);
    var middle := PunctuationIsDerived(dv, key.rest, COLON);
    var sep := NextToken(dv, key.rest);
    var p := ParseVariant(dv, sep.rest);
    var inside, v := ReadIsDerived(dv, sep.rest);
    hide NextToken, White, Render, Good, MayFollow, ParseVariant, GoodString, RenderString;
    if NextToken(dv, p.rest).token == TObjEnd {
      var after := PunctuationIsDerived(dv, p.rest, CLOSE_BRACE);
      ms := [Member(before, chars, middle, Element(inside, v, after))];
      NothingInside();
      EmptyRight(RenderMember(ms[0]));
      MemberBehind(ms[0], [0x7D] + rest);
    } else {
      var after := PunctuationIsDerived(dv, p.rest, COMMA);
      var next := NextToken(dv, p.rest).rest;
      var more := MembersAreDerived(dv, Insert(m, key.token.text, p.value), next);
      var member := Member(before, chars, middle, Element(inside, v, after));
      ms := [member] + more;
      assert ms[1..] == more;
      MemberBehind(member, [0x2C] + next);
      Associative([0x2C], RenderMembers(more), [0x7D] + rest);
      Associative(RenderMember(member), [0x2C] + RenderMembers(more), [0x7D] + rest);
    }
  }

  lemma MemberBehind(m: Member, t: Bytes)
    ensures RenderMember(m) + t ==
            m.before + ([0x22] + RenderString(m.key) + [0x22]
              + (m.middle + ([0x3A] + (m.element.before + (Render(m.element.value) + (m.element.after + t))))))
  {
    hide RenderString, Render;
    var key := [0x22] + RenderString(m.key) + [0x22];
    RegroupSix(m.before, key, m.middle, [0x3A], RenderElement(m.element), t);
    Regroup(m.element.before, Render(m.element.value), m.element.after, t);
  }

  /**
     The parser and the grammar agree: a value is read from a text, and something is left, exactly if the grammar
     derives the text in front of it, behind white space, with that value as the meaning.
   */
  lemma ParserIsGrammar(dv: DoubleValue, b: Bytes, v: Value, rest: Bytes)
    ensures ParseVariant(dv, b) == Item(v, rest) <==> exists w, s :: Derives(w, s, b, rest) && v == Meaning(dv, s)
  {
    hide ParseVariant, White, Good, Render, Meaning, MayFollow;
    if ParseVariant(dv, b) == Item(v, rest) {
      var w, s := ReadIsDerived(dv, b);
      SkipWhite(dv, w, Render(s) + rest);
      DerivedIsRead(dv, s, rest);
      assert Derives(w, s, b, rest) && v == Meaning(dv, s);
    }
    if w, s :| Derives(w, s, b, rest) && v == Meaning(dv, s) {
      SkipWhite(dv, w, Render(s) + rest);
      DerivedIsRead(dv, s, rest);
    }
  }

  /** The document is the first value of the text; what follows it is never looked at. */
  lemma DocumentIsGrammar(dv: DoubleValue, b: Bytes, v: Value)
    ensures ParseRoot(dv, b) == Result(v) <==> exists w, s, rest :: Derives(w, s, b, rest) && v == Meaning(dv, s)
  {
    hide ParseVariant, NextToken, Meaning;
    if ParseRoot(dv, b) == Result(v) {
      ParserIsGrammar(dv, b, v, ParseVariant(dv, b).rest);
    }
    if w, s, rest :| Derives(w, s, b, rest) && v == Meaning(dv, s) {
      ParserIsGrammar(dv, b, v, rest);
      SomeToken(dv, b);
    }
  }

  lemma SomeToken(dv: DoubleValue, b: Bytes)
    requires ParseVariant(dv, b).Item?
    ensures NextToken(dv, b).token != TEnd
  {
    hide NextToken;
  }

  /** Members in any order, keys repeated or not: the map is in key order and holds the last value of each key. */
  lemma ObjectsHoldTheLast(dv: DoubleValue, blank: Bytes, ms: seq<Member>, t: Bytes)
    requires Good(Object(blank, ms))
    ensures var p := ParseVariant(dv, Render(Object(blank, ms)) + t);
            && p.Item? && p.rest == t && p.value.Map? && Sorted(p.value.entries)
            && AsMap(p.value.entries) == SetAll(map[], MeaningOfMembers(dv, ms))
  {
    hide ParseVariant, Render;
    DerivedIsRead(dv, Object(blank, ms), t);
    InsertAllSets([], MeaningOfMembers(dv, ms));
  }
}
