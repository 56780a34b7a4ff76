/**
 JSON round trips: what scanning and parsing make of the printed text, for every flags word.
 */
module JsonRoundTrip {
  import opened Sequences
  import opened Words
  import opened Values
  import opened Text
  import opened JsonPrinter
  import opened JsonScanner
  import opened JsonParser

  // ---------- Strings ----------

  lemma ScanEscaped(c: byte, rest: Bytes, str: Bytes)
    ensures ScanString(Escape(c) + rest, STRING, str) == ScanString(rest, STRING, str + Utf8(c))
  {
    var e := Escape(c);
    var b := e + rest;
    if |e| == 1 {
      assert b[1..] == rest;
    } else {
      assert b[1..] == [e[1]] + rest && b[1..][1..] == rest;
      assert Unescape(e[1]) == [c] == Utf8(c);
    }
  }

  /** The scanner undoes the escapes and stops exactly at the closing quote. */
  lemma {:induction false} ScanEscapedString(s: Bytes, t: Bytes, str: Bytes)
    ensures ScanString(EscapeAll(s) + [QUOTE] + t, STRING, str) == Scan(TString(str + Widened(s)), t)
  {
    if s == [] {
      assert EscapeAll(s) + [QUOTE] + t == [QUOTE] + t;
      assert ([QUOTE] + t)[1..] == t && str + [] == str;
    } else {
      var rest := EscapeAll(s[1..]) + [QUOTE] + t;
      assert EscapeAll(s) + [QUOTE] + t == Escape(s[0]) + rest;
      ScanEscaped(s[0], rest, str);
      ScanEscapedString(s[1..], t, str + Utf8(s[0]));
      Associative(str, Utf8(s[0]), Widened(s[1..]));
    }
  }

  lemma StringRoundTrip(dv: DoubleValue, s: Bytes, t: Bytes)
    ensures NextToken(dv, Sanitize(s) + t) == Scan(TString(Widened(s)), t)
  {
    PassesAreOne(s);
    var b := Sanitize(s) + t;
    assert b[1..] == EscapeAll(s) + [QUOTE] + t;
    ScanEscapedString(s, t, []);
    EmptyLeft(Widened(s));
  }

  /** A string comes back unchanged exactly when it is ASCII. */
  lemma StringExact(dv: DoubleValue, s: Bytes, t: Bytes)
    ensures NextToken(dv, Sanitize(s) + t) == Scan(TString(s), t) <==> Ascii(s)
  {
    StringRoundTrip(dv, s, t);
    UnchangedIffAscii(s);
  }

  // ---------- Numbers ----------

  /** What may follow a number: anything that does not continue it. */
  predicate Delimited(t: Bytes) {
    t == [] || !(IsDigit(t[0]) || t[0] == 0x2E || Lower(t[0]) == 0x65)
  }

  lemma {:induction false} DigitCountExact(d: Bytes, t: Bytes)
    requires (forall c :: c in d ==> IsDigit(c)) && (t == [] || !IsDigit(t[0]))
    ensures DigitCount(d + t) == |d|
  {
    if d == [] {
      assert d + t == t;
    } else {
      DigitCountExact(d[1..], t);
      assert (d + t)[1..] == d[1..] + t && (d + t)[0] in d;
    }
  }

  lemma {:induction false} DecimalOfDigits(n: nat)
    ensures Decimal(Digits(n)) == n
  {
    var d := Digits(n);
    if n < 10 {
      assert d[..0] == [];
    } else {
      DecimalOfDigits(n / 10);
      assert d[..|d| - 1] == Digits(n / 10);
    }
  }

  /** The value that a printed integer scans to; what does not fit 64 signed bits becomes 0. */
  function Number(n: int): Value {
    if -0x8000_0000_0000_0000 <= n < 0x8000_0000_0000_0000 then NumberVariant(n) else Int(0)
  }

  lemma NumberLength(n: int, t: Bytes)
    requires t == [] || !IsDigit(t[0])
    ensures IntegerLength(NumberText(n) + t) == |NumberText(n)|
  {
    var b := NumberText(n) + t;
    if n < 0 {
      assert b[1..] == Digits(-n) + t;
      DigitCountExact(Digits(-n), t);
    } else {
      assert b[0] in Digits(n);
      assert b[0..] == Digits(n) + t;
      DigitCountExact(Digits(n), t);
    }
  }

  lemma NumberValue(n: int)
    requires n < 0x1_0000_0000_0000_0000
    ensures IntegerLength(NumberText(n)) == |NumberText(n)|
    ensures NumberVariant(ToLongLong(NumberText(n))) == Number(n)
  {
    var text := NumberText(n);
    NumberLength(n, []);
    EmptyRight(text);
    if n < 0 {
      DecimalOfDigits(-n);
      assert text[1..|text|] == Digits(-n);
    } else {
      DecimalOfDigits(n);
      assert text[0] in Digits(n);
      assert text[..|text|] == text;
    }
  }

  lemma ScanNumberText(dv: DoubleValue, n: int, t: Bytes)
    requires n < 0x1_0000_0000_0000_0000 && Delimited(t)
    ensures IntegerLength(NumberText(n) + t) > 0
    ensures ScanNumber(dv, NumberText(n) + t) == Scan(TVariant(Number(n)), t)
  {
    hide NumberText, ToLongLong, NumberVariant, Number;
    var text := NumberText(n);
    NumberLength(n, t);
    NumberValue(n);
    NumberTextNotEmpty(n);
    Split(text, t);
    assert FractionLength(t) == 0 && ExponentLength(t) == 0;
  }

  lemma NumberTextNotEmpty(n: int)
    ensures NumberText(n) != [] && (NumberText(n)[0] == MINUS || IsDigit(NumberText(n)[0]))
  {
    if n >= 0 {
      assert NumberText(n)[0] in Digits(n);
    }
  }

  lemma NumberRoundTrip(dv: DoubleValue, n: int, t: Bytes)
    requires n < 0x1_0000_0000_0000_0000 && Delimited(t)
    ensures NextToken(dv, NumberText(n) + t) == Scan(TVariant(Number(n)), t)
  {
    hide ScanNumber, NumberText, IntegerLength, Number;
    ScanNumberText(dv, n, t);
    NumberTextNotEmpty(n);
  }

  /** The number that an integer value stands for. */
  function Denoted(v: Value): int
    requires v.Int? || v.LongLong?
  {
    if v.Int? then v.i else v.l
  }

  /** A printed integer keeps its number exactly when it fits 64 signed bits. */
  lemma NumberExact(dv: DoubleValue, n: int, t: Bytes)
    requires -0x8000_0000_0000_0000 <= n < 0x1_0000_0000_0000_0000 && Delimited(t)
    ensures var s := NextToken(dv, NumberText(n) + t);
            && s.rest == t && s.token.TVariant? && (s.token.value.Int? || s.token.value.LongLong?)
            && (Denoted(s.token.value) == n <==> n < 0x8000_0000_0000_0000)
  {
    NumberRoundTrip(dv, n, t);
  }

  // ---------- Values ----------

  /** What scanning and parsing a printed value yields. The members of an object are set one after the other. */
  function Norm(v: Value): Value
    decreases v
  {
    match v
    case Char(c) => Number(c)
    case Int(n) => Number(n)
    case UInt(n) => Number(n)
    case LongLong(n) => Number(n)
    case ULongLong(n) => Number(n)
    case Str(s) => Str(Widened(s))
    case ByteArray(a) => Str(Widened(TextOf(a)))
    case List(vs) => List(NormAll(vs))
    case Map(es) => Map(InsertAll([], NormEntries(es)))
    case _ => v
  }

  function NormAll(vs: seq<Value>): seq<Value>
    decreases vs
  {
    if vs == [] then [] else [Norm(vs[0])] + NormAll(vs[1..])
  }

  function NormEntries(es: seq<Entry>): seq<Entry>
    decreases es
  {
    if es == [] then [] else [Entry(Widened(es[0].key), Norm(es[0].value))] + NormEntries(es[1..])
  }

  lemma {:induction false} NormEntriesSorted(es: seq<Entry>)
    requires Sorted(es)
    ensures Sorted(NormEntries(es))
    ensures forall e :: e in NormEntries(es) ==> exists x :: x in es && e.key == Widened(x.key)
  {
    if es != [] {
      SortedTail(es);
      NormEntriesSorted(es[1..]);
      var e := Entry(Widened(es[0].key), Norm(es[0].value));
      forall y | y in NormEntries(es[1..])
        ensures Less(e.key, y.key)
      {
        var x :| x in es[1..] && y.key == Widened(x.key);
        WidenedLess(es[0].key, x.key);
      }
      SortedCons(e, NormEntries(es[1..]));
    }
  }

  /** The entries of a map in key order, as any QMap is, stay in order under their widened keys. */
  lemma NormOfSorted(es: seq<Entry>)
    requires Sorted(es)
    ensures Norm(Map(es)) == Map(NormEntries(es))
  {
    hide NormEntries, Less, InsertAll;
    NormEntriesSorted(es);
    InsertAllLast([], NormEntries(es));
    EmptyLeft(NormEntries(es));
  }

  /** Neither doubles, whose text is Qt's, nor date-times, on which the writer throws. */
  predicate Textual(v: Value)
    decreases v
  {
    match v
    case Double(_) => false
    case DateTime(_) => false
    case List(vs) => TextualAll(vs)
    case Map(es) => TextualEntries(es)
    case _ => true
  }

  predicate TextualAll(vs: seq<Value>)
    decreases vs
  {
    vs == [] || (Textual(vs[0]) && TextualAll(vs[1..]))
  }

  predicate TextualEntries(es: seq<Entry>)
    decreases es
  {
    es == [] || (Textual(es[0].value) && TextualEntries(es[1..]))
  }

  // ---------- White space ----------

  predicate Blank(w: Bytes) {
    forall i :: 0 <= i < |w| ==> IsSpace(w[i])
  }

  lemma {:induction false} SkipBlank(dv: DoubleValue, w: Bytes, b: Bytes)
    requires Blank(w)
    ensures NextToken(dv, w + b) == NextToken(dv, b)
  {
    hide ScanString, ScanNumber, ScanKeyword, IntegerLength;
    if w == [] {
      EmptyLeft(b);
    } else {
      SkipBlank(dv, w[1..], b);
      assert (w + b)[1..] == w[1..] + b;
    }
  }

  lemma VariantAfterBlank(dv: DoubleValue, w: Bytes, b: Bytes)
    requires Blank(w)
    ensures ParseVariant(dv, w + b) == ParseVariant(dv, b)
  {
    SkipBlank(dv, w, b);
  }

  /** The layout in front of an element, without the comma. */
  function Gap(flags: uint32, first: bool): Bytes {
    if IndentOff(flags) != 0 then LineBreak(IndentOff(flags))
    else if !first && !Compact(flags) then [SPACE]
    else []
  }

  lemma LayoutIsBlank(flags: uint32, first: bool)
    ensures Blank(Gap(flags, first)) && Blank(Tail(flags)) && Blank([]) && Blank([SPACE])
    ensures Lead(flags, first) == (if first then [] else [COMMA]) + Gap(flags, first)
  {
  }

  lemma Punctuation(dv: DoubleValue, t: Bytes)
    ensures NextToken(dv, [COMMA] + t) == Scan(TElementSep, t)
    ensures NextToken(dv, [COLON] + t) == Scan(TMemberSep, t)
    ensures NextToken(dv, [OPEN_BRACKET] + t) == Scan(TArrBegin, t)
    ensures NextToken(dv, [CLOSE_BRACKET] + t) == Scan(TArrEnd, t)
    ensures NextToken(dv, [OPEN_BRACE] + t) == Scan(TObjBegin, t)
    ensures NextToken(dv, [CLOSE_BRACE] + t) == Scan(TObjEnd, t)
  {
    OneCharacter(dv, COMMA, t);
    OneCharacter(dv, COLON, t);
    OneCharacter(dv, OPEN_BRACKET, t);
    OneCharacter(dv, CLOSE_BRACKET, t);
    OneCharacter(dv, OPEN_BRACE, t);
    OneCharacter(dv, CLOSE_BRACE, t);
    hide NextToken;
  }

  function PunctuationToken(c: byte): Token {
    if c == OPEN_BRACE then TObjBegin
    else if c == CLOSE_BRACE then TObjEnd
    else if c == OPEN_BRACKET then TArrBegin
    else if c == CLOSE_BRACKET then TArrEnd
    else if c == COLON then TMemberSep
    else TElementSep
  }

  lemma OneCharacter(dv: DoubleValue, c: byte, t: Bytes)
    requires c in {OPEN_BRACE, CLOSE_BRACE, OPEN_BRACKET, CLOSE_BRACKET, COLON, COMMA}
    ensures NextToken(dv, [c] + t) == Scan(PunctuationToken(c), t)
  {
    hide ScanString, ScanNumber, ScanKeyword, IntegerLength;
    assert ([c] + t)[1..] == t;
  }

  // ---------- Leaves ----------

  lemma KeywordRoundTrip(dv: DoubleValue, v: Value, t: Bytes)
    requires v.Null? || v.Bool?
    ensures NextToken(dv, (if v.Null? then TEXT_NULL else if v.b then TEXT_TRUE else TEXT_FALSE) + t) == Scan(TVariant(v), t)
  {
    var text := if v.Null? then TEXT_NULL else if v.b then TEXT_TRUE else TEXT_FALSE;
    Split(text, t);
    var b := text + t;
    assert b[0..] == b && DigitCount(b) == 0;
  }

  lemma LeafRoundTrip(dt: DoubleText, dv: DoubleValue, v: Value, flags: uint32, t: Bytes)
    requires !v.List? && !v.Map? && Textual(v) && Delimited(t)
    ensures ParseVariant(dv, Print(dt, v, flags) + t) == Item(Norm(v), t)
  {
    hide NextToken, NumberText, Number, Sanitize, Widened, TextOf;
    if v.Null? || v.Bool? {
      KeywordRoundTrip(dv, v, t);
    } else if v.Str? {
      StringRoundTrip(dv, v.s, t);
    } else if v.ByteArray? {
      StringRoundTrip(dv, TextOf(v.a), t);
    } else {
      var n := if v.Char? then v.c as int else if v.Int? then v.i as int else if v.UInt? then v.u as int
               else if v.LongLong? then v.l as int else v.ul as int;
      NumberRoundTrip(dv, n, t);
    }
  }

  // ---------- Containers ----------

  /** What follows an element: a comma, a line break or a closing bracket. */
  lemma FollowsDelimited(flags: uint32, more: Bytes, close: byte, t: Bytes)
    requires close == CLOSE_BRACKET || close == CLOSE_BRACE
    requires more == [] || more[0] == COMMA
    ensures Delimited(more + (Tail(flags) + [close] + t))
  {
    var after := Tail(flags) + [close] + t;
    assert after[0] == NEWLINE || after[0] == close;
    assert (more + after)[0] == if more == [] then after[0] else more[0];
  }

  /** The root case and every nested one, for every flags word and every text that follows. */
  lemma {:induction false} RoundTrip(dt: DoubleText, dv: DoubleValue, v: Value, flags: uint32, t: Bytes)
    requires Textual(v) && Delimited(t)
    ensures ParseVariant(dv, Print(dt, v, flags) + t) == Item(Norm(v), t)
    decreases v, 2
  {
    if v.List? {
      ListRoundTrip(dt, dv, v.elements, flags, t);
    } else if v.Map? {
      MapRoundTrip(dt, dv, v.entries, flags, t);
    } else {
      LeafRoundTrip(dt, dv, v, flags, t);
    }
  }

  lemma OpenArray(dv: DoubleValue, b: Bytes)
    ensures NextToken(dv, b).token == TArrEnd ==> ParseVariant(dv, [OPEN_BRACKET] + b) == Item(List([]), NextToken(dv, b).rest)
    ensures NextToken(dv, b).token != TArrEnd ==> ParseVariant(dv, [OPEN_BRACKET] + b) == ParseElement(dv, [], b)
  {
    hide NextToken;
    Punctuation(dv, b);
  }

  lemma ArrayText(dt: DoubleText, vs: seq<Value>, flags: uint32, t: Bytes)
    ensures Print(dt, List(vs), flags) + t ==
            [OPEN_BRACKET] + if vs == [] then [CLOSE_BRACKET] + t
                             else PrintElements(dt, vs, flags, true) + (Tail(flags) + [CLOSE_BRACKET] + t)
  {
    hide PrintElements, Tail;
    var inner := if vs == [] then [] else PrintElements(dt, vs, flags, true) + Tail(flags);
    Regroup([OPEN_BRACKET], inner, [CLOSE_BRACKET], t);
    if vs == [] {
      EmptyLeft([CLOSE_BRACKET] + t);
    } else {
      Regroup(PrintElements(dt, vs, flags, true), Tail(flags), [CLOSE_BRACKET], t);
      Associative(inner, [CLOSE_BRACKET], t);
    }
  }

  lemma {:induction false} ListRoundTrip(dt: DoubleText, dv: DoubleValue, vs: seq<Value>, flags: uint32, t: Bytes)
    requires TextualAll(vs)
    ensures ParseVariant(dv, Print(dt, List(vs), flags) + t) == Item(List(NormAll(vs)), t)
    decreases vs, 1
  {
    hide NextToken, Norm, Lead, Tail, Gap, Print, PrintElements, ParseVariant, ParseElement;
    ArrayText(dt, vs, flags, t);
    if vs == [] {
      OpenArray(dv, [CLOSE_BRACKET] + t);
      Punctuation(dv, t);
    } else {
      var rest := Tail(flags) + [CLOSE_BRACKET] + t;
      var inner := PrintElements(dt, vs, flags, true) + rest;
      ElementRoundTrip(dt, dv, [], vs, flags, true, t);
      EmptyLeft(NormAll(vs));
      LayoutIsBlank(flags, true);
      EmptyLeft(Gap(flags, true));
      ElementsSplit(dt, vs, flags, true, rest);
      NotAClosingBracket(dv, inner);
      OpenArray(dv, inner);
    }
  }

  /** A text that parses as an element does not start with a closing bracket. */
  lemma NotAClosingBracket(dv: DoubleValue, b: Bytes)
    requires ParseElement(dv, [], b).Item?
    ensures NextToken(dv, b).token != TArrEnd
  {
  }

  lemma ElementsSplit(dt: DoubleText, vs: seq<Value>, flags: uint32, first: bool, rest: Bytes)
    requires vs != []
    ensures PrintElements(dt, vs, flags, first) + rest ==
            Lead(flags, first) + (Print(dt, vs[0], InnerFlags(flags)) + (PrintElements(dt, vs[1..], flags, false) + rest))
  {
    hide Lead, Print;
    Regroup(Lead(flags, first), Print(dt, vs[0], InnerFlags(flags)), PrintElements(dt, vs[1..], flags, false), rest);
  }

  /** An element behind its lead, then the rest of the list. */
  lemma {:induction false} ElementRoundTrip(dt: DoubleText, dv: DoubleValue, list: seq<Value>, vs: seq<Value>,
                                            flags: uint32, first: bool, t: Bytes)
    requires vs != [] && TextualAll(vs)
    ensures ParseElement(dv, list, Gap(flags, first) + (Print(dt, vs[0], InnerFlags(flags)) +
              (PrintElements(dt, vs[1..], flags, false) + (Tail(flags) + [CLOSE_BRACKET] + t)))) ==
            Item(List(list + NormAll(vs)), t)
    decreases vs, 0
  {
    hide NextToken, Norm, Print, Gap, Tail, Lead, ParseVariant, ParseMoreElements;
    var more := PrintElements(dt, vs[1..], flags, false);
    var after := more + (Tail(flags) + [CLOSE_BRACKET] + t);
    LayoutIsBlank(flags, first);
    MoreStartsWithComma(dt, vs[1..], flags);
    FollowsDelimited(flags, more, CLOSE_BRACKET, t);
    VariantAfterBlank(dv, Gap(flags, first), Print(dt, vs[0], InnerFlags(flags)) + after);
    RoundTrip(dt, dv, vs[0], InnerFlags(flags), after);
    MoreElementsRoundTrip(dt, dv, list + [Norm(vs[0])], vs[1..], flags, t);
    Associative(list, [Norm(vs[0])], NormAll(vs[1..]));
  }

  lemma MoreStartsWithComma(dt: DoubleText, vs: seq<Value>, flags: uint32)
    ensures PrintElements(dt, vs, flags, false) == [] || PrintElements(dt, vs, flags, false)[0] == COMMA
  {
  }

  lemma {:induction false} MoreElementsRoundTrip(dt: DoubleText, dv: DoubleValue, list: seq<Value>, vs: seq<Value>,
                                                 flags: uint32, t: Bytes)
    requires TextualAll(vs)
    ensures ParseMoreElements(dv, list, PrintElements(dt, vs, flags, false) + (Tail(flags) + [CLOSE_BRACKET] + t)) ==
            Item(List(list + NormAll(vs)), t)
    decreases vs, 1
  {
    hide NextToken, Norm, Print, Gap, Tail, Lead;
    var rest := Tail(flags) + [CLOSE_BRACKET] + t;
    LayoutIsBlank(flags, false);
    if vs == [] {
      EmptyLeft(rest);
      Associative(Tail(flags), [CLOSE_BRACKET], t);
      SkipBlank(dv, Tail(flags), [CLOSE_BRACKET] + t);
      Punctuation(dv, t);
      EmptyRight(list);
    } else {
      var e := Print(dt, vs[0], InnerFlags(flags)) + (PrintElements(dt, vs[1..], flags, false) + rest);
      ElementsSplit(dt, vs, flags, false, rest);
      Associative([COMMA], Gap(flags, false), e);
      Punctuation(dv, Gap(flags, false) + e);
      ElementRoundTrip(dt, dv, list, vs, flags, false, t);
    }
  }

  lemma OpenObject(dv: DoubleValue, b: Bytes)
    ensures NextToken(dv, b).token == TObjEnd ==> ParseVariant(dv, [OPEN_BRACE] + b) == Item(Map([]), NextToken(dv, b).rest)
    ensures NextToken(dv, b).token != TObjEnd ==> ParseVariant(dv, [OPEN_BRACE] + b) == ParseMember(dv, [], b)
  {
    hide NextToken;
    Punctuation(dv, b);
  }

  lemma ObjectText(dt: DoubleText, es: seq<Entry>, flags: uint32, t: Bytes)
    ensures Print(dt, Map(es), flags) + t ==
            [OPEN_BRACE] + if es == [] then [CLOSE_BRACE] + t
                           else PrintMembers(dt, es, flags, true) + (Tail(flags) + [CLOSE_BRACE] + t)
  {
    hide PrintMembers, Tail;
    var inner := if es == [] then [] else PrintMembers(dt, es, flags, true) + Tail(flags);
    Regroup([OPEN_BRACE], inner, [CLOSE_BRACE], t);
    if es == [] {
      EmptyLeft([CLOSE_BRACE] + t);
    } else {
      Regroup(PrintMembers(dt, es, flags, true), Tail(flags), [CLOSE_BRACE], t);
      Associative(inner, [CLOSE_BRACE], t);
    }
  }

  lemma {:induction false} MapRoundTrip(dt: DoubleText, dv: DoubleValue, es: seq<Entry>, flags: uint32, t: Bytes)
    requires TextualEntries(es)
    ensures ParseVariant(dv, Print(dt, Map(es), flags) + t) == Item(Map(InsertAll([], NormEntries(es))), t)
    decreases es, 1
  {
    hide NextToken, Norm, Lead, Tail, Gap, Print, PrintMembers, ParseVariant, ParseMember, MemberText;
    ObjectText(dt, es, flags, t);
    if es == [] {
      OpenObject(dv, [CLOSE_BRACE] + t);
      Punctuation(dv, t);
    } else {
      var rest := Tail(flags) + [CLOSE_BRACE] + t;
      var inner := PrintMembers(dt, es, flags, true) + rest;
      MemberRoundTrip(dt, dv, [], es, flags, true, t);
      LayoutIsBlank(flags, true);
      EmptyLeft(Gap(flags, true));
      MembersSplit(dt, es, flags, true, rest);
      NotAClosingBrace(dv, inner);
      OpenObject(dv, inner);
    }
  }

  lemma NotAClosingBrace(dv: DoubleValue, b: Bytes)
    requires ParseMember(dv, [], b).Item?
    ensures NextToken(dv, b).token != TObjEnd
  {
  }

  /** A member behind its layout. */
  function MemberText(dt: DoubleText, e: Entry, flags: uint32, after: Bytes): Bytes {
    Sanitize(e.key) + ([COLON] + ((if Compact(flags) then [] else [SPACE]) + (Print(dt, e.value, InnerFlags(flags)) + after)))
  }

  lemma MembersSplit(dt: DoubleText, es: seq<Entry>, flags: uint32, first: bool, rest: Bytes)
    requires es != []
    ensures PrintMembers(dt, es, flags, first) + rest ==
            Lead(flags, first) + MemberText(dt, es[0], flags, PrintMembers(dt, es[1..], flags, false) + rest)
  {
    hide Lead, Sanitize, Print;
    var lead, key, sep := Lead(flags, first), Sanitize(es[0].key), MemberSeparator(flags);
    var value, more := Print(dt, es[0].value, InnerFlags(flags)), PrintMembers(dt, es[1..], flags, false);
    RegroupSix(lead, key, sep, value, more, rest);
    Associative([COLON], if Compact(flags) then [] else [SPACE], value + (more + rest));
  }

  lemma {:induction false} MemberRoundTrip(dt: DoubleText, dv: DoubleValue, m: seq<Entry>, es: seq<Entry>,
                                           flags: uint32, first: bool, t: Bytes)
    requires es != [] && TextualEntries(es)
    ensures ParseMember(dv, m, Gap(flags, first) + MemberText(dt, es[0], flags,
              PrintMembers(dt, es[1..], flags, false) + (Tail(flags) + [CLOSE_BRACE] + t))) ==
            Item(Map(InsertAll(m, NormEntries(es))), t)
    decreases es, 0
  {
    hide NextToken, Norm, Print, Gap, Tail, Lead, Blank, ParseVariant, ParseMoreMembers, Widened, Sanitize, Insert;
    var more := PrintMembers(dt, es[1..], flags, false);
    var after := more + (Tail(flags) + [CLOSE_BRACE] + t);
    var space: Bytes := if Compact(flags) then [] else [SPACE];
    var value := Print(dt, es[0].value, InnerFlags(flags)) + after;
    LayoutIsBlank(flags, first);
    SkipBlank(dv, Gap(flags, first), MemberText(dt, es[0], flags, after));
    StringRoundTrip(dv, es[0].key, [COLON] + (space + value));
    Punctuation(dv, space + value);
    MoreMembersStartWithComma(dt, es[1..], flags);
    FollowsDelimited(flags, more, CLOSE_BRACE, t);
    VariantAfterBlank(dv, space, value);
    RoundTrip(dt, dv, es[0].value, InnerFlags(flags), after);
    var e := Entry(Widened(es[0].key), Norm(es[0].value));
    MoreMembersRoundTrip(dt, dv, Insert(m, e.key, e.value), es[1..], flags, t);
    assert ([e] + NormEntries(es[1..]))[1..] == NormEntries(es[1..]);
  }

  lemma MoreMembersStartWithComma(dt: DoubleText, es: seq<Entry>, flags: uint32)
    ensures PrintMembers(dt, es, flags, false) == [] || PrintMembers(dt, es, flags, false)[0] == COMMA
  {
  }

  lemma {:induction false} MoreMembersRoundTrip(dt: DoubleText, dv: DoubleValue, m: seq<Entry>, es: seq<Entry>,
                                                flags: uint32, t: Bytes)
    requires TextualEntries(es)
    ensures ParseMoreMembers(dv, m, PrintMembers(dt, es, flags, false) + (Tail(flags) + [CLOSE_BRACE] + t)) ==
            Item(Map(InsertAll(m, NormEntries(es))), t)
    decreases es, 1
  {
    hide NextToken, Norm, Print, Gap, Tail, Lead, Widened, MemberText, ParseMember;
    var rest := Tail(flags) + [CLOSE_BRACE] + t;
    LayoutIsBlank(flags, false);
    if es == [] {
      EmptyLeft(rest);
      Associative(Tail(flags), [CLOSE_BRACE], t);
      SkipBlank(dv, Tail(flags), [CLOSE_BRACE] + t);
      Punctuation(dv, t);
    } else {
      var text := MemberText(dt, es[0], flags, PrintMembers(dt, es[1..], flags, false) + rest);
      MembersSplit(dt, es, flags, false, rest);
      Associative([COMMA], Gap(flags, false), text);
      Punctuation(dv, Gap(flags, false) + text);
      MemberRoundTrip(dt, dv, m, es, flags, false, t);
    }
  }

  /**
     Members in any order, keys repeated or not: the map that is read is in key order and holds for each key the
     value of its last member.
   */
  lemma MembersInAnyOrder(dt: DoubleText, dv: DoubleValue, es: seq<Entry>, flags: uint32, t: Bytes)
    requires TextualEntries(es)
    ensures var p := ParseVariant(dv, Print(dt, Map(es), flags) + t);
            && p.Item? && p.rest == t && p.value.Map? && Sorted(p.value.entries)
            && AsMap(p.value.entries) == SetAll(map[], NormEntries(es))
  {
    hide Print, ParseVariant, NormEntries;
    MapRoundTrip(dt, dv, es, flags, t);
    InsertAllSets([], NormEntries(es));
  }

  /** The whole document: every flags word gives the same value back. */
  lemma DocumentRoundTrip(dt: DoubleText, dv: DoubleValue, v: Value, flags: uint32)
    requires Textual(v)
    ensures ParseRoot(dv, Print(dt, v, flags)) == Result(Norm(v))
  {
    hide Print, Norm;
    RoundTrip(dt, dv, v, flags, []);
    EmptyRight(Print(dt, v, flags));
  }
}
