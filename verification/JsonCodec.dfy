/**
 The JSON writer and scanner as they run: the writer over a stream, the scanner with its start condition
 and the string under construction as state.
 */
module JsonCodec {
  import opened Sequences
  import opened Words
  import opened Values
  import opened Text
  import opened DataStream
  import opened JsonPrinter
  import opened JsonScanner

  // ---------- The writer ----------

  lemma {:induction false} ElementsAppend(dt: DoubleText, vs: seq<Value>, v: Value, flags: uint32, first: bool)
    ensures PrintElements(dt, vs + [v], flags, first) ==
            PrintElements(dt, vs, flags, first) + (Lead(flags, first && vs == []) + Print(dt, v, InnerFlags(flags)))
  {
    var last := Lead(flags, first && vs == []) + Print(dt, v, InnerFlags(flags));
    if vs == [] {
      assert ([v])[1..] == [] && vs + [v] == [v];
      EmptyRight(last);
      EmptyLeft(last);
    } else {
      assert (vs + [v])[1..] == vs[1..] + [v];
      ElementsAppend(dt, vs[1..], v, flags, false);
      Associative(Lead(flags, first) + Print(dt, vs[0], InnerFlags(flags)), PrintElements(dt, vs[1..], flags, false), last);
    }
  }

  function OneMember(dt: DoubleText, e: Entry, flags: uint32, first: bool): Bytes {
    Lead(flags, first) + Sanitize(e.key) + MemberSeparator(flags) + Print(dt, e.value, InnerFlags(flags))
  }

  lemma {:induction false} MembersAppend(dt: DoubleText, es: seq<Entry>, e: Entry, flags: uint32, first: bool)
    ensures PrintMembers(dt, es + [e], flags, first) ==
            PrintMembers(dt, es, flags, first) + OneMember(dt, e, flags, first && es == [])
  {
    var last := OneMember(dt, e, flags, first && es == []);
    if es == [] {
      assert ([e])[1..] == [] && es + [e] == [e];
      EmptyRight(last);
      EmptyLeft(last);
    } else {
      assert (es + [e])[1..] == es[1..] + [e];
      MembersAppend(dt, es[1..], e, flags, false);
      Associative(OneMember(dt, es[0], flags, first), PrintMembers(dt, es[1..], flags, false), last);
    }
  }

  lemma {:induction false} PrintableIndexed(vs: seq<Value>)
    ensures PrintableAll(vs) <==> forall i :: 0 <= i < |vs| ==> Printable(vs[i])
  {
    if vs != [] {
      PrintableIndexed(vs[1..]);
      assert (forall i :: 0 <= i < |vs| ==> Printable(vs[i])) <==>
             Printable(vs[0]) && (forall i :: 0 <= i < |vs[1..]| ==> Printable(vs[1..][i])) by {
        assert forall i :: 1 <= i < |vs| ==> vs[i] == vs[1..][i - 1];
      }
    }
  }

  lemma {:induction false} PrintableEntriesIndexed(es: seq<Entry>)
    ensures PrintableEntries(es) <==> forall i :: 0 <= i < |es| ==> Printable(es[i].value)
  {
    if es != [] {
      PrintableEntriesIndexed(es[1..]);
      assert (forall i :: 0 <= i < |es| ==> Printable(es[i].value)) <==>
             Printable(es[0].value) && (forall i :: 0 <= i < |es[1..]| ==> Printable(es[1..][i].value)) by {
        assert forall i :: 1 <= i < |es| ==> es[i] == es[1..][i - 1];
      }
    }
  }

  class Writer {
    const stream: Stream
    const doubleText: DoubleText

    constructor (stream: Stream, doubleText: DoubleText)
      ensures this.stream == stream && this.doubleText == doubleText
    {
      this.stream, this.doubleText := stream, doubleText;
    }

    method WriteString(s: Bytes)
      modifies stream`written
      ensures stream.written == old(stream.written) + Sanitize(s)
    {
      var str := s;
      str := ReplaceAll(str, BACKSLASH, [BACKSLASH, BACKSLASH]);
      str := ReplaceAll(str, QUOTE, [BACKSLASH, QUOTE]);
      str := ReplaceAll(str, BACKSPACE, [BACKSLASH, 0x62]);
      str := ReplaceAll(str, FORMFEED, [BACKSLASH, 0x66]);
      str := ReplaceAll(str, NEWLINE, [BACKSLASH, 0x6E]);
      str := ReplaceAll(str, RETURN, [BACKSLASH, 0x72]);
      str := ReplaceAll(str, TAB, [BACKSLASH, 0x74]);
      stream.WriteBytes([QUOTE] + str + [QUOTE]);
    }

    /** The comma and the layout in front of an element. */
    method WriteLead(flags: uint32, first: bool)
      modifies stream`written
      ensures stream.written == old(stream.written) + Lead(flags, first)
    {
      var compact := flags / 0x20 % 2 == 1;
      var indentOff := flags / 0x1_0000 + IndentStep(flags);
      if !first {
        stream.WriteByte(COMMA);
      }
      if indentOff != 0 {
        stream.WriteByte(NEWLINE);
        stream.WriteBytes(Spaces(indentOff));
      } else if !first && !compact {
        stream.WriteByte(SPACE);
      }
    }

    method WriteTail(flags: uint32)
      modifies stream`written
      ensures stream.written == old(stream.written) + Tail(flags)
    {
      var indentOff := flags / 0x1_0000 + IndentStep(flags);
      if indentOff != 0 {
        stream.WriteByte(NEWLINE);
        stream.WriteBytes(Spaces(indentOff - IndentStep(flags)));
      }
    }

    /** False where the original throws. */
    method SerializeJSON(v: Value, flags: uint32) returns (ok: bool)
      modifies stream`written
      ensures ok <==> Printable(v)
      ensures ok ==> stream.written == old(stream.written) + Print(doubleText, v, flags)
      decreases v, 1
    {
      if v.List? {
        ok := SerializeArray(v.elements, flags);
      } else if v.Map? {
        ok := SerializeObject(v.entries, flags);
      } else if v.DateTime? {
        ok := false;
      } else {
        ok := true;
        if v.Str? {
          WriteString(v.s);
        } else if v.ByteArray? {
          WriteString(TextOf(v.a));
        } else {
          stream.WriteBytes(
            if v.Null? then TEXT_NULL
            else if v.Bool? then (if v.b then TEXT_TRUE else TEXT_FALSE)
            else if v.Double? then doubleText(v.bits)
            else NumberText(if v.Char? then v.c as int else if v.Int? then v.i as int else if v.UInt? then v.u as int
                            else if v.LongLong? then v.l as int else v.ul as int));
        }
      }
    }

    method SerializeArray(elements: seq<Value>, flags: uint32) returns (ok: bool)
      modifies stream`written
      ensures ok <==> PrintableAll(elements)
      ensures ok ==> stream.written == old(stream.written) + Print(doubleText, List(elements), flags)
      decreases elements, 0
    {
      hide Print, PrintElements, Printable, PrintableAll, Lead, Tail, InnerFlags;
      ghost var start := stream.written + [OPEN_BRACKET];
      PrintableIndexed(elements);
      NoElements(doubleText, elements, flags);
      stream.WriteByte(OPEN_BRACKET);
      var i := 0;
      while i < |elements|
        invariant 0 <= i <= |elements|
        invariant forall j :: 0 <= j < i ==> Printable(elements[j])
        invariant stream.written == start + PrintElements(doubleText, elements[..i], flags, true)
      {
        WriteLead(flags, i == 0);
        ok := SerializeJSON(elements[i], InnerFlags(flags));
        if !ok {
          return;
        }
        ElementsAppend(doubleText, elements[..i], elements[i], flags, true);
        TakeOneMore(elements, i);
        Regroup(start, PrintElements(doubleText, elements[..i], flags, true), Lead(flags, i == 0),
                Print(doubleText, elements[i], InnerFlags(flags)));
        i := i + 1;
      }
      TakeAll(elements);
      if |elements| > 0 {
        WriteTail(flags);
      }
      stream.WriteByte(CLOSE_BRACKET);
      WholeArray(doubleText, old(stream.written), elements, flags);
      ok := true;
    }

    method SerializeObject(entries: seq<Entry>, flags: uint32) returns (ok: bool)
      modifies stream`written
      ensures ok <==> PrintableEntries(entries)
      ensures ok ==> stream.written == old(stream.written) + Print(doubleText, Map(entries), flags)
      decreases entries, 0
    {
      hide Print, PrintMembers, Printable, PrintableEntries, Lead, Tail, InnerFlags, Sanitize;
      ghost var start := stream.written + [OPEN_BRACE];
      PrintableEntriesIndexed(entries);
      NoMembers(doubleText, entries, flags);
      stream.WriteByte(OPEN_BRACE);
      var i := 0;
      while i < |entries|
        invariant 0 <= i <= |entries|
        invariant forall j :: 0 <= j < i ==> Printable(entries[j].value)
        invariant stream.written == start + PrintMembers(doubleText, entries[..i], flags, true)
      {
        ghost var before := stream.written;
        WriteLead(flags, i == 0);
        WriteString(entries[i].key);
        stream.WriteByte(COLON);
        if !Compact(flags) {
          stream.WriteByte(SPACE);
        }
        ok := SerializeJSON(entries[i].value, InnerFlags(flags));
        if !ok {
          return;
        }
        WholeMember(doubleText, before, entries[i], flags, i == 0);
        MembersAppend(doubleText, entries[..i], entries[i], flags, true);
        TakeOneMore(entries, i);
        Associative(start, PrintMembers(doubleText, entries[..i], flags, true), OneMember(doubleText, entries[i], flags, i == 0));
        i := i + 1;
      }
      TakeAll(entries);
      if |entries| > 0 {
        WriteTail(flags);
      }
      stream.WriteByte(CLOSE_BRACE);
      WholeObject(doubleText, old(stream.written), entries, flags);
      ok := true;
    }
  }

  lemma NoElements(dt: DoubleText, vs: seq<Value>, flags: uint32)
    ensures PrintElements(dt, vs[..0], flags, true) == []
  {
  }

  lemma NoMembers(dt: DoubleText, es: seq<Entry>, flags: uint32)
    ensures PrintMembers(dt, es[..0], flags, true) == []
  {
  }

  lemma WholeArray(dt: DoubleText, start: Bytes, vs: seq<Value>, flags: uint32)
    ensures start + Print(dt, List(vs), flags) ==
            start + [OPEN_BRACKET] + PrintElements(dt, vs, flags, true) + (if vs == [] then [] else Tail(flags)) + [CLOSE_BRACKET]
  {
    hide Tail;
  }

  lemma WholeObject(dt: DoubleText, start: Bytes, es: seq<Entry>, flags: uint32)
    ensures start + Print(dt, Map(es), flags) ==
            start + [OPEN_BRACE] + PrintMembers(dt, es, flags, true) + (if es == [] then [] else Tail(flags)) + [CLOSE_BRACE]
  {
    hide Tail;
  }

  lemma WholeMember(dt: DoubleText, start: Bytes, e: Entry, flags: uint32, first: bool)
    ensures start + OneMember(dt, e, flags, first) ==
            start + Lead(flags, first) + Sanitize(e.key) + [COLON] + (if Compact(flags) then [] else [SPACE])
            + Print(dt, e.value, InnerFlags(flags))
  {
    hide Lead, Sanitize, Print;
  }

  // ---------- The scanner ----------

  datatype StartCondition = INITIAL | Inside(condition: Condition)

  class Scanner {
    const doubleValue: DoubleValue
    /** The text not yet scanned, the start condition, and the string under construction. */
    var text: Bytes
    var state: StartCondition
    var str: Bytes

    constructor (text: Bytes, doubleValue: DoubleValue)
      ensures this.text == text && state == INITIAL && this.doubleValue == doubleValue
    {
      this.text, this.doubleValue, state, str := text, doubleValue, INITIAL, [];
    }

    /** What remains to be matched for the token that started at `start`. */
    ghost predicate Matching(start: Bytes)
      reads this
    {
      match state
      case INITIAL => NextToken(doubleValue, text) == NextToken(doubleValue, start)
      case Inside(c) => ScanString(text, c, str) == NextToken(doubleValue, start)
    }

    /** Matches rules until one of them returns a token. */
    method Yylex() returns (token: Token)
      requires state == INITIAL
      modifies this
      ensures Scan(token, text) == NextToken(doubleValue, old(text))
      ensures state == INITIAL
    {
      ghost var start := text;
      var done := false;
      token := TEnd;
      while !done
        invariant if done then Scan(token, text) == NextToken(doubleValue, start) && state == INITIAL else Matching(start)
        decreases !done, |text|
      {
        if text == [] {
          state, token, done := INITIAL, TEnd, true;
        } else {
          match state {
            case INITIAL => token, done := MatchInitial();
            case Inside(_) => token, done := MatchInString();
          }
        }
      }
    }

    /** One rule of the initial condition. */
    method MatchInitial() returns (token: Token, done: bool)
      requires state == INITIAL && text != []
      modifies this
      ensures done ==> Scan(token, text) == NextToken(doubleValue, old(text)) && state == INITIAL
      ensures !done ==> Matching(old(text)) && |text| < |old(text)|
    {
      hide ScanNumber, ScanKeyword, IntegerLength, ScanString;
      var c := text[0];
      token, done := TEnd, true;
      if IsSpace(c) {
        text, done := text[1..], false;
      } else if c == QUOTE {
        state, str, text, done := Inside(STRING), [], text[1..], false;
      } else if c == OPEN_BRACE {
        token, text := TObjBegin, text[1..];
      } else if c == CLOSE_BRACE {
        token, text := TObjEnd, text[1..];
      } else if c == OPEN_BRACKET {
        token, text := TArrBegin, text[1..];
      } else if c == CLOSE_BRACKET {
        token, text := TArrEnd, text[1..];
      } else if c == COLON {
        token, text := TMemberSep, text[1..];
      } else if c == COMMA {
        token, text := TElementSep, text[1..];
      } else {
        var s := if IntegerLength(text) > 0 then ScanNumber(doubleValue, text) else ScanKeyword(text);
        token, text := s.token, s.rest;
      }
    }

    /** One rule of the string conditions. */
    method MatchInString() returns (token: Token, done: bool)
      requires state.Inside? && text != []
      modifies this
      ensures var s := old(ScanString(text, state.condition, str));
              if done then Scan(token, text) == s && state == INITIAL
              else state.Inside? && ScanString(text, state.condition, str) == s && |text| < |old(text)|
    {
      var c := text[0];
      token, done := TEnd, false;
      if c == NEWLINE {
        text := text[1..];
      } else {
        match state.condition {
          case STRING =>
            if c == QUOTE {
              state, token, done := INITIAL, TString(str), true;
            } else if c == BACKSLASH {
              state := Inside(STRING_ESCAPE);
            } else {
              state, str := Inside(STRING), str + Utf8(c);
            }
            text := text[1..];
          case STRING_ESCAPE =>
            if Lower(c) == 0x75 {
              state := Inside(STRING_ESCAPE_UNICODE);
            } else if Unescape(c) != [] {
              state, str := Inside(STRING), str + Unescape(c);
            } else {
              state, token, done := INITIAL, TSynErrEsc, true;
            }
            text := text[1..];
          case STRING_ESCAPE_UNICODE =>
            if HexAhead(text) {
              state, str, text := Inside(STRING), str + Utf8(HexCode(text[..4])), text[4..];
            } else {
              state, token, done, text := INITIAL, TSynErrUni, true, text[1..];
            }
        }
      }
    }
  }
}
