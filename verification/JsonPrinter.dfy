/**
 The JSON writer: text as bytes, with the indentation step, the compact bit and the running offset packed
 into one 32-bit word.
 */
module JsonPrinter {
  import opened Sequences
  import opened Words
  import opened Values
  import opened Text

  const BACKSPACE: byte := 0x08
  const TAB: byte := 0x09
  const NEWLINE: byte := 0x0A
  const FORMFEED: byte := 0x0C
  const RETURN: byte := 0x0D
  const SPACE: byte := 0x20
  const QUOTE: byte := 0x22
  const COMMA: byte := 0x2C
  const MINUS: byte := 0x2D
  const ZERO: byte := 0x30
  const COLON: byte := 0x3A
  const OPEN_BRACKET: byte := 0x5B
  const BACKSLASH: byte := 0x5C
  const CLOSE_BRACKET: byte := 0x5D
  const OPEN_BRACE: byte := 0x7B
  const CLOSE_BRACE: byte := 0x7D

  const TEXT_NULL: Bytes := [0x6E, 0x75, 0x6C, 0x6C]
  const TEXT_TRUE: Bytes := [0x74, 0x72, 0x75, 0x65]
  const TEXT_FALSE: Bytes := [0x66, 0x61, 0x6C, 0x73, 0x65]

  /** How doubles are printed is Qt's business; the writer only forwards the text. */
  type DoubleText = uint64 -> Bytes

  // ---------- Strings ----------

  /** QString::replace of one character. */
  function ReplaceAll(s: Bytes, c: byte, text: Bytes): Bytes {
    if s == [] then []
    else (if s[0] == c then text else [s[0]]) + ReplaceAll(s[1..], c, text)
  }

  /** The seven replacements, one after the other over the whole string. */
  function SevenPasses(s: Bytes): Bytes {
    var s1 := ReplaceAll(s, BACKSLASH, [BACKSLASH, BACKSLASH]);
    var s2 := ReplaceAll(s1, QUOTE, [BACKSLASH, QUOTE]);
    var s3 := ReplaceAll(s2, BACKSPACE, [BACKSLASH, 0x62]);
    var s4 := ReplaceAll(s3, FORMFEED, [BACKSLASH, 0x66]);
    var s5 := ReplaceAll(s4, NEWLINE, [BACKSLASH, 0x6E]);
    var s6 := ReplaceAll(s5, RETURN, [BACKSLASH, 0x72]);
    ReplaceAll(s6, TAB, [BACKSLASH, 0x74])
  }

  function Sanitize(s: Bytes): Bytes {
    [QUOTE] + SevenPasses(s) + [QUOTE]
  }

  /** The escape of one character. */
  function Escape(c: byte): Bytes {
    if c == BACKSLASH || c == QUOTE then [BACKSLASH, c]
    else if c == BACKSPACE then [BACKSLASH, 0x62]
    else if c == FORMFEED then [BACKSLASH, 0x66]
    else if c == NEWLINE then [BACKSLASH, 0x6E]
    else if c == RETURN then [BACKSLASH, 0x72]
    else if c == TAB then [BACKSLASH, 0x74]
    else [c]
  }

  function EscapeAll(s: Bytes): Bytes {
    if s == [] then [] else Escape(s[0]) + EscapeAll(s[1..])
  }

  lemma {:induction false} ReplaceConcat(x: Bytes, y: Bytes, c: byte, text: Bytes)
    ensures ReplaceAll(x + y, c, text) == ReplaceAll(x, c, text) + ReplaceAll(y, c, text)
  {
    if x == [] {
      assert x + y == y;
    } else {
      assert (x + y)[1..] == x[1..] + y;
      ReplaceConcat(x[1..], y, c, text);
    }
  }

  lemma ReplaceOne(c: byte, d: byte, text: Bytes)
    ensures ReplaceAll([d], c, text) == if d == c then text else [d]
  {
    assert ReplaceAll([d][1..], c, text) == [];
  }

  lemma ReplaceTwo(a: byte, b: byte, c: byte, text: Bytes)
    requires a != c && b != c
    ensures ReplaceAll([a, b], c, text) == [a, b]
  {
    assert [a, b][1..] == [b];
    ReplaceOne(c, b, text);
  }

  lemma SevenPassesConcat(x: Bytes, y: Bytes)
    ensures SevenPasses(x + y) == SevenPasses(x) + SevenPasses(y)
  {
    var x1, y1 := ReplaceAll(x, BACKSLASH, [BACKSLASH, BACKSLASH]), ReplaceAll(y, BACKSLASH, [BACKSLASH, BACKSLASH]);
    ReplaceConcat(x, y, BACKSLASH, [BACKSLASH, BACKSLASH]);
    var x2, y2 := ReplaceAll(x1, QUOTE, [BACKSLASH, QUOTE]), ReplaceAll(y1, QUOTE, [BACKSLASH, QUOTE]);
    ReplaceConcat(x1, y1, QUOTE, [BACKSLASH, QUOTE]);
    var x3, y3 := ReplaceAll(x2, BACKSPACE, [BACKSLASH, 0x62]), ReplaceAll(y2, BACKSPACE, [BACKSLASH, 0x62]);
    ReplaceConcat(x2, y2, BACKSPACE, [BACKSLASH, 0x62]);
    var x4, y4 := ReplaceAll(x3, FORMFEED, [BACKSLASH, 0x66]), ReplaceAll(y3, FORMFEED, [BACKSLASH, 0x66]);
    ReplaceConcat(x3, y3, FORMFEED, [BACKSLASH, 0x66]);
    var x5, y5 := ReplaceAll(x4, NEWLINE, [BACKSLASH, 0x6E]), ReplaceAll(y4, NEWLINE, [BACKSLASH, 0x6E]);
    ReplaceConcat(x4, y4, NEWLINE, [BACKSLASH, 0x6E]);
    var x6, y6 := ReplaceAll(x5, RETURN, [BACKSLASH, 0x72]), ReplaceAll(y5, RETURN, [BACKSLASH, 0x72]);
    ReplaceConcat(x5, y5, RETURN, [BACKSLASH, 0x72]);
    ReplaceConcat(x6, y6, TAB, [BACKSLASH, 0x74]);
  }

  /** A pair left alone by a pass is left alone by all the later ones. */
  lemma SevenPassesOne(c: byte)
    ensures SevenPasses([c]) == Escape(c)
  {
    ReplaceOne(BACKSLASH, c, [BACKSLASH, BACKSLASH]);
    forall d, text | d != BACKSLASH
      ensures ReplaceAll([c], d, text) == if c == d then text else [c]
      ensures c != d ==> ReplaceAll([BACKSLASH, c], d, text) == [BACKSLASH, c]
    {
      ReplaceOne(d, c, text);
      if c != d {
        ReplaceTwo(BACKSLASH, c, d, text);
      }
    }
    forall d, e, text | d != BACKSLASH && e != d
      ensures ReplaceAll([BACKSLASH, e], d, text) == [BACKSLASH, e]
    {
      ReplaceTwo(BACKSLASH, e, d, text);
    }
  }

  /** Seven successive passes are one pass that escapes each character by itself. */
  lemma {:induction false} PassesAreOne(s: Bytes)
    ensures SevenPasses(s) == EscapeAll(s)
  {
    if s != [] {
      assert s == [s[0]] + s[1..];
      SevenPassesConcat([s[0]], s[1..]);
      SevenPassesOne(s[0]);
      PassesAreOne(s[1..]);
    }
  }

  predicate IsControl(c: byte) {
    c == 0x08 || c == 0x09 || c == 0x0A || c == 0x0C || c == 0x0D
  }

  predicate NothingSpecial(s: Bytes) {
    forall c :: c in s ==> !IsControl(c) && c != 0x22 && c != 0x5C
  }

  /** None of the five control characters is left, and a text without special characters is printed as it is. */
  lemma NothingRawIsLeft(s: Bytes)
    ensures forall c :: c in SevenPasses(s) ==> !IsControl(c)
    ensures NothingSpecial(s) <==> SevenPasses(s) == s
  {
    PassesAreOne(s);
    EscapedText(s);
  }

  lemma {:induction false} EscapedText(s: Bytes)
    ensures |EscapeAll(s)| >= |s| && forall c :: c in EscapeAll(s) ==> !IsControl(c)
    ensures if NothingSpecial(s) then EscapeAll(s) == s else |EscapeAll(s)| > |s|
  {
    if s != [] {
      EscapedText(s[1..]);
      assert s == [s[0]] + s[1..];
      assert NothingSpecial(s) <==> NothingSpecial([s[0]]) && NothingSpecial(s[1..]);
      assert s[0] in [s[0]];
      assert forall c :: c in EscapeAll(s) <==> c in Escape(s[0]) || c in EscapeAll(s[1..]);
    }
  }

  // ---------- Numbers ----------

  function Digits(n: nat): (r: Bytes)
    ensures r != [] && forall c :: c in r ==> ZERO <= c < ZERO + 10
  {
    if n < 10 then [ZERO + n] else Digits(n / 10) + [ZERO + n % 10]
  }

  function NumberText(n: int): Bytes {
    if n < 0 then [MINUS] + Digits(-n) else Digits(n)
  }

  // ---------- Values ----------

  /** The flags word: step in bits 0 to 4, compact in bit 5, running offset in bits 16 to 31. */
  function IndentStep(flags: uint32): nat {
    flags % 0x20
  }

  predicate Compact(flags: uint32) {
    flags / 0x20 % 2 == 1
  }

  /** The offset of the members of a container; it may exceed 16 bits by the step. */
  function IndentOff(flags: uint32): nat {
    flags / 0x1_0000 + IndentStep(flags)
  }

  /** The flags passed down; the offset wraps around at 16 bits. */
  function InnerFlags(flags: uint32): uint32 {
    flags % 0x1_0000 + IndentOff(flags) % 0x1_0000 * 0x1_0000
  }

  /** The fields of the word, as the masks and shifts of the writer take and set them. */
  lemma FlagsWord(flags: bv32, off: bv32)
    ensures flags & 0x1F == flags % 0x20
    ensures flags & 0x20 != 0 <==> flags / 0x20 % 2 == 1
    ensures flags >> 16 == flags / 0x1_0000
    ensures (flags & 0xFFFF) | (off << 16) == flags % 0x1_0000 + off % 0x1_0000 * 0x1_0000
  {
  }

  /** The word that reaches a value nested d containers deep. */
  function FlagsAt(flags: uint32, d: nat): uint32 {
    if d == 0 then flags else InnerFlags(FlagsAt(flags, d - 1))
  }

  /** Step and compact bit stay; the offset is the depth times the step, modulo 2^16. */
  lemma {:induction false} OffsetAtDepth(flags: uint32, d: nat)
    ensures IndentStep(FlagsAt(flags, d)) == IndentStep(flags) && (Compact(FlagsAt(flags, d)) <==> Compact(flags))
    ensures FlagsAt(flags, d) / 0x1_0000 == (flags / 0x1_0000 + d * IndentStep(flags)) % 0x1_0000
    ensures FlagsAt(flags, d) % 0x1_0000 == flags % 0x1_0000
  {
    hide InnerFlags, IndentStep, Compact, IndentOff;
    if d > 0 {
      OffsetAtDepth(flags, d - 1);
      InnerWord(FlagsAt(flags, d - 1));
      NextOffset(flags / 0x1_0000, d, IndentStep(flags));
    } else {
      Within16Bits(flags / 0x1_0000);
    }
  }

  lemma InnerWord(flags: uint32)
    ensures IndentStep(InnerFlags(flags)) == IndentStep(flags) && (Compact(InnerFlags(flags)) <==> Compact(flags))
    ensures InnerFlags(flags) / 0x1_0000 == (flags / 0x1_0000 + IndentStep(flags)) % 0x1_0000
    ensures InnerFlags(flags) % 0x1_0000 == flags % 0x1_0000
  {
    var f := InnerFlags(flags);
    assert f % 0x1_0000 == flags % 0x1_0000;
    LowBits(f);
    LowBits(flags);
  }

  lemma LowBits(n: nat)
    ensures n % 0x20 == n % 0x1_0000 % 0x20
    ensures n / 0x20 % 2 == n % 0x1_0000 / 0x20 % 2
  {
  }

  lemma Within16Bits(n: nat)
    requires n < 0x1_0000
    ensures n % 0x1_0000 == n
  {
  }

  lemma NextOffset(off: nat, d: nat, step: nat)
    requires d > 0
    ensures ((off + (d - 1) * step) % 0x1_0000 + step) % 0x1_0000 == (off + d * step) % 0x1_0000
  {
    var n := off + (d - 1) * step;
    assert off + d * step == n + step;
    WrapOnce(n, step);
  }

  lemma WrapOnce(n: nat, step: nat)
    ensures (n % 0x1_0000 + step) % 0x1_0000 == (n + step) % 0x1_0000
  {
  }

  function Spaces(n: nat): Bytes {
    seq(n, _ => SPACE)
  }

  function LineBreak(n: nat): Bytes {
    [NEWLINE] + Spaces(n)
  }

  /** What precedes an element or a member. */
  function Lead(flags: uint32, first: bool): Bytes {
    (if first then [] else [COMMA])
    + if IndentOff(flags) != 0 then LineBreak(IndentOff(flags))
      else if !first && !Compact(flags) then [SPACE]
      else []
  }

  /** What precedes the closing bracket of a container that is not empty. */
  function Tail(flags: uint32): Bytes {
    if IndentOff(flags) != 0 then LineBreak(IndentOff(flags) - IndentStep(flags)) else []
  }

  function MemberSeparator(flags: uint32): Bytes {
    [COLON] + if Compact(flags) then [] else [SPACE]
  }

  /** The text of a value, a byte array as a string; empty where the writer throws, that is for date-times. */
  function Print(dt: DoubleText, v: Value, flags: uint32): Bytes
    decreases v
  {
    match v
    case Null => TEXT_NULL
    case Bool(b) => if b then TEXT_TRUE else TEXT_FALSE
    case Char(c) => NumberText(c)
    case Int(n) => NumberText(n)
    case UInt(n) => NumberText(n)
    case LongLong(n) => NumberText(n)
    case ULongLong(n) => NumberText(n)
    case Double(bits) => dt(bits)
    case DateTime(_) => []
    case Str(s) => Sanitize(s)
    case ByteArray(a) => Sanitize(TextOf(a))
    case List(vs) =>
      [OPEN_BRACKET] + (if vs == [] then [] else PrintElements(dt, vs, flags, true) + Tail(flags)) + [CLOSE_BRACKET]
    case Map(es) =>
      [OPEN_BRACE] + (if es == [] then [] else PrintMembers(dt, es, flags, true) + Tail(flags)) + [CLOSE_BRACE]
  }

  function PrintElements(dt: DoubleText, vs: seq<Value>, flags: uint32, first: bool): Bytes
    decreases vs
  {
    if vs == [] then []
    else Lead(flags, first) + Print(dt, vs[0], InnerFlags(flags)) + PrintElements(dt, vs[1..], flags, false)
  }

  function PrintMembers(dt: DoubleText, es: seq<Entry>, flags: uint32, first: bool): Bytes
    decreases es
  {
    if es == [] then []
    else
      Lead(flags, first) + Sanitize(es[0].key) + MemberSeparator(flags) + Print(dt, es[0].value, InnerFlags(flags))
      + PrintMembers(dt, es[1..], flags, false)
  }

  /** The writer throws on no part of the value. */
  predicate Printable(v: Value)
    decreases v
  {
    match v
    case DateTime(_) => false
    case List(vs) => PrintableAll(vs)
    case Map(es) => PrintableEntries(es)
    case _ => true
  }

  predicate PrintableAll(vs: seq<Value>)
    decreases vs
  {
    vs == [] || (Printable(vs[0]) && PrintableAll(vs[1..]))
  }

  predicate PrintableEntries(es: seq<Entry>)
    decreases es
  {
    es == [] || (Printable(es[0].value) && PrintableEntries(es[1..]))
  }
}
