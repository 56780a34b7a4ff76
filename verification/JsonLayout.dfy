/**
 How the JSON writer sets out a value: the line breaks and spaces follow from the depth of each element alone,
 though the writer only hands a packed flags word from one container down to the next.
 */
module JsonLayout {
  import opened Words
  import opened Values
  import opened JsonPrinter

  /** Where the outermost brackets stand, how far each level moves in, and whether blanks are saved. */
  datatype Style = Style(margin: nat, step: nat, compact: bool)

  function StyleOf(flags: uint32): Style {
    Style(flags / 0x1_0000, flags % 0x20, flags / 0x20 % 2 == 1)
  }

  /** The column of the brackets of a container d levels deep; columns are counted with 16 bits. */
  function Column(s: Style, d: nat): nat {
    (s.margin + d * s.step) % 0x1_0000
  }

  function Code(c: char): byte
    requires c < 128 as char
  {
    c as int
  }

  function Ascii(text: string): Bytes
    requires forall i :: 0 <= i < |text| ==> text[i] < 128 as char
  {
    seq(|text|, i requires 0 <= i < |text| => Code(text[i]))
  }

  /** All on one line: nothing moves the elements away from the margin. */
  predicate OneLine(s: Style, d: nat) {
    Column(s, d) == 0 && s.step == 0
  }

  /** The elements of a container stand one step further in than its brackets. */
  function BeforeElement(s: Style, d: nat, first: bool): Bytes {
    (if first then [] else Ascii(","))
    + if !OneLine(s, d) then Ascii("\n") + Spaces(Column(s, d) + s.step)
      else if first || s.compact then []
      else Ascii(" ")
  }

  /** The closing bracket stands at the column of the container. */
  function BeforeClosing(s: Style, d: nat): Bytes {
    if OneLine(s, d) then [] else Ascii("\n") + Spaces(Column(s, d))
  }

  function LaidOut(dt: DoubleText, s: Style, v: Value, d: nat): Bytes
    decreases v
  {
    match v
    case List(vs) =>
      Ascii("[") + (if vs == [] then [] else LaidOutElements(dt, s, vs, d, true) + BeforeClosing(s, d)) + Ascii("]")
    case Map(es) =>
      Ascii("{") + (if es == [] then [] else LaidOutMembers(dt, s, es, d, true) + BeforeClosing(s, d)) + Ascii("}")
    case _ => Print(dt, v, 0)
  }

  function LaidOutElements(dt: DoubleText, s: Style, vs: seq<Value>, d: nat, first: bool): Bytes
    decreases vs
  {
    if vs == [] then []
    else BeforeElement(s, d, first) + LaidOut(dt, s, vs[0], d + 1) + LaidOutElements(dt, s, vs[1..], d, false)
  }

  function LaidOutMembers(dt: DoubleText, s: Style, es: seq<Entry>, d: nat, first: bool): Bytes
    decreases es
  {
    if es == [] then []
    else
      BeforeElement(s, d, first) + Sanitize(es[0].key) + Ascii(if s.compact then ":" else ": ")
      + LaidOut(dt, s, es[0].value, d + 1) + LaidOutMembers(dt, s, es[1..], d, false)
  }

  lemma Characters()
    ensures Ascii("[") == [OPEN_BRACKET] && Ascii("]") == [CLOSE_BRACKET]
    ensures Ascii("{") == [OPEN_BRACE] && Ascii("}") == [CLOSE_BRACE]
    ensures Ascii(",") == [COMMA] && Ascii("\n") == [NEWLINE] && Ascii(" ") == [SPACE]
    ensures Ascii(":") == [COLON] + [] && Ascii(": ") == [COLON] + [SPACE]
  {
    assert Ascii("[") == [0x5B] && Ascii("{") == [0x7B];
  }

  /** The pieces between the elements, from the word that reaches a container d levels deep. */
  lemma PiecesAtDepth(flags: uint32, d: nat, first: bool)
    ensures Lead(FlagsAt(flags, d), first) == BeforeElement(StyleOf(flags), d, first)
    ensures Tail(FlagsAt(flags, d)) == BeforeClosing(StyleOf(flags), d)
    ensures MemberSeparator(FlagsAt(flags, d)) == Ascii(if StyleOf(flags).compact then ":" else ": ")
  {
    OffsetAtDepth(flags, d);
    Characters();
    hide FlagsAt, Spaces, Ascii;
    assert Column(StyleOf(flags), d) == FlagsAt(flags, d) / 0x1_0000;
  }

  /** Whatever the flags word and the depth, the text printed is the one set out by columns. */
  lemma {:induction false} PrintedByColumns(dt: DoubleText, v: Value, flags: uint32, d: nat)
    ensures Print(dt, v, FlagsAt(flags, d)) == LaidOut(dt, StyleOf(flags), v, d)
    decreases v, 1
  {
    hide Lead, Tail, FlagsAt, StyleOf, BeforeClosing, BeforeElement;
    PiecesAtDepth(flags, d, true);
    Characters();
    match v
    case List(vs) => ElementsByColumns(dt, vs, flags, d, true);
    case Map(es) => MembersByColumns(dt, es, flags, d, true);
    case _ =>
  }

  lemma {:induction false} ElementsByColumns(dt: DoubleText, vs: seq<Value>, flags: uint32, d: nat, first: bool)
    ensures PrintElements(dt, vs, FlagsAt(flags, d), first) == LaidOutElements(dt, StyleOf(flags), vs, d, first)
    decreases vs, 0
  {
    hide Lead, FlagsAt, StyleOf, BeforeElement, Print, LaidOut, InnerFlags;
    if vs != [] {
      OneDeeper(flags, d);
      PiecesAtDepth(flags, d, first);
      PrintedByColumns(dt, vs[0], flags, d + 1);
      ElementsByColumns(dt, vs[1..], flags, d, false);
    }
  }

  lemma {:induction false} MembersByColumns(dt: DoubleText, es: seq<Entry>, flags: uint32, d: nat, first: bool)
    ensures PrintMembers(dt, es, FlagsAt(flags, d), first) == LaidOutMembers(dt, StyleOf(flags), es, d, first)
    decreases es, 0
  {
    hide Lead, FlagsAt, StyleOf, BeforeElement, Print, LaidOut, InnerFlags, Sanitize, MemberSeparator, Ascii;
    if es != [] {
      OneDeeper(flags, d);
      PiecesAtDepth(flags, d, first);
      PrintedByColumns(dt, es[0].value, flags, d + 1);
      MembersByColumns(dt, es[1..], flags, d, false);
    }
  }

  lemma OneDeeper(flags: uint32, d: nat)
    ensures InnerFlags(FlagsAt(flags, d)) == FlagsAt(flags, d + 1)
  {
  }

  /** The whole text of a value. */
  lemma DocumentByColumns(dt: DoubleText, v: Value, flags: uint32)
    ensures Print(dt, v, flags) == LaidOut(dt, StyleOf(flags), v, 0)
  {
    PrintedByColumns(dt, v, flags, 0);
  }

  /** Within 16 bits, a container closes at the column at which its own line was started. */
  lemma ClosesWhereItsLineStarts(s: Style, d: nat, first: bool)
    requires s.margin + (d + 1) * s.step < 0x1_0000 && s.step > 0
    ensures |BeforeElement(s, d, first)| == (if first then 0 else 1) + |BeforeClosing(s, d + 1)|
  {
    OneStepIn(s.margin, s.step, d);
    Within16Bits(s.margin + d * s.step);
    Within16Bits(s.margin + (d + 1) * s.step);
  }

  lemma OneStepIn(margin: nat, step: nat, d: nat)
    ensures margin + (d + 1) * step == (margin + d * step) + step
  {
  }
}
