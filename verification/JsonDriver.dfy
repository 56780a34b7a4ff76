/**
 The JSON parser as it runs: it asks the scanner for one token after the other, builds maps and lists in
 place, and accepts as soon as the root value is complete.
 */
module JsonDriver {
  import opened Sequences
  import opened Words
  import opened Values
  import opened DataStream
  import opened JsonPrinter
  import opened JsonScanner
  import opened JsonParser
  import opened JsonCodec
  import JsonRoundTrip

  class Driver {
    const scanner: Scanner

    constructor (scanner: Scanner)
      ensures this.scanner == scanner
    {
      this.scanner := scanner;
    }

    /** ROOT. */
    method Parse() returns (d: Document)
      requires scanner.state == INITIAL
      modifies scanner
      ensures d == ParseRoot(scanner.doubleValue, old(scanner.text))
    {
      hide NextToken;
      ghost var start := scanner.text;
      var token := scanner.Yylex();
      if token == TEnd {
        return NoInput;
      }
      var ok, value := ParseValue(token, start);
      d := if ok then Result(value) else Malformed;
    }

    /** VARIANT, whose first token has just been scanned from `start`. */
    method ParseValue(token: Token, ghost start: Bytes) returns (ok: bool, value: Value)
      requires scanner.state == INITIAL && Scan(token, scanner.text) == NextToken(scanner.doubleValue, start)
      modifies scanner
      ensures scanner.state == INITIAL
      ensures var p := ParseVariant(scanner.doubleValue, start);
              if ok then p == Item(value, scanner.text) else p.SyntaxError?
      decreases |start|, 0
    {
      hide NextToken;
      ok, value := true, Null;
      match token {
        case TObjBegin => ok, value := ParseMembers();
        case TArrBegin => ok, value := ParseElements();
        case TString(str) => value := Str(str);
        case TVariant(v) => value := v;
        case TEnd => ok := false;
        case TObjEnd => ok := false;
        case TArrEnd => ok := false;
        case TMemberSep => ok := false;
        case TElementSep => ok := false;
        case TSynErr => ok := false;
        case TSynErrEsc => ok := false;
        case TSynErrUni => ok := false;
      }
    }

    /** The rest of an object behind its opening brace. */
    method ParseMembers() returns (ok: bool, value: Value)
      requires scanner.state == INITIAL
      modifies scanner
      ensures scanner.state == INITIAL
      ensures var s := NextToken(scanner.doubleValue, old(scanner.text));
              var p := if s.token == TObjEnd then Item(Map([]), s.rest)
                       else ParseMember(scanner.doubleValue, [], old(scanner.text));
              if ok then p == Item(value, scanner.text) else p.SyntaxError?
      decreases |scanner.text|, 1
    {
      hide NextToken, ParseVariant;
      var m: seq<Entry> := [];
      ghost var here := scanner.text;
      var token := scanner.Yylex();
      if token == TObjEnd {
        return true, Map([]);
      }
      while true
        invariant scanner.state == INITIAL && |here| <= |old(scanner.text)|
        invariant Scan(token, scanner.text) == NextToken(scanner.doubleValue, here)
        invariant ParseMember(scanner.doubleValue, m, here) == ParseMember(scanner.doubleValue, [], old(scanner.text))
        decreases |here|
      {
        if !token.TString? {
          return false, Null;
        }
        var separator := scanner.Yylex();
        if separator != TMemberSep {
          return false, Null;
        }
        ghost var valueStart := scanner.text;
        var first := scanner.Yylex();
        ok, value := ParseValue(first, valueStart);
        if !ok {
          return;
        }
        m := Insert(m, token.text, value);
        token := scanner.Yylex();
        if token == TObjEnd {
          return true, Map(m);
        } else if token != TElementSep {
          return false, Null;
        }
        here := scanner.text;
        token := scanner.Yylex();
      }
    }

    /** The rest of an array behind its opening bracket. */
    method ParseElements() returns (ok: bool, value: Value)
      requires scanner.state == INITIAL
      modifies scanner
      ensures scanner.state == INITIAL
      ensures var s := NextToken(scanner.doubleValue, old(scanner.text));
              var p := if s.token == TArrEnd then Item(List([]), s.rest)
                       else ParseElement(scanner.doubleValue, [], old(scanner.text));
              if ok then p == Item(value, scanner.text) else p.SyntaxError?
      decreases |scanner.text|, 1
    {
      hide NextToken, ParseVariant;
      var list: seq<Value> := [];
      ghost var here := scanner.text;
      var token := scanner.Yylex();
      if token == TArrEnd {
        return true, List([]);
      }
      while true
        invariant scanner.state == INITIAL && |here| <= |old(scanner.text)|
        invariant Scan(token, scanner.text) == NextToken(scanner.doubleValue, here)
        invariant ParseElement(scanner.doubleValue, list, here) == ParseElement(scanner.doubleValue, [], old(scanner.text))
        decreases |here|
      {
        ok, value := ParseValue(token, here);
        if !ok {
          return;
        }
        list := list + [value];
        token := scanner.Yylex();
        if token == TArrEnd {
          return true, List(list);
        } else if token != TElementSep {
          return false, Null;
        }
        here := scanner.text;
        token := scanner.Yylex();
      }
    }
  }

  lemma {:induction false} TextualIsPrintable(v: Value)
    requires JsonRoundTrip.Textual(v)
    ensures Printable(v)
    decreases v, 1
  {
    if v.List? {
      TextualAllIsPrintable(v.elements);
    } else if v.Map? {
      TextualEntriesIsPrintable(v.entries);
    }
  }

  lemma {:induction false} TextualAllIsPrintable(vs: seq<Value>)
    requires JsonRoundTrip.TextualAll(vs)
    ensures PrintableAll(vs)
    decreases vs, 0
  {
    if vs != [] {
      TextualIsPrintable(vs[0]);
      TextualAllIsPrintable(vs[1..]);
    }
  }

  lemma {:induction false} TextualEntriesIsPrintable(es: seq<Entry>)
    requires JsonRoundTrip.TextualEntries(es)
    ensures PrintableEntries(es)
    decreases es, 0
  {
    if es != [] {
      TextualIsPrintable(es[0].value);
      TextualEntriesIsPrintable(es[1..]);
    }
  }

  /** Printing a value under any flags word, then scanning and parsing the text. */
  method WriteThenRead(dt: DoubleText, dv: DoubleValue, v: Value, flags: uint32, littleEndianHost: bool)
    returns (d: Document)
    requires JsonRoundTrip.Textual(v)
    ensures d == Result(JsonRoundTrip.Norm(v))
  {
    hide Print, Printable, JsonRoundTrip.Textual, JsonRoundTrip.Norm, ParseRoot;
    var output := new Stream(littleEndianHost, []);
    var writer := new Writer(output, dt);
    TextualIsPrintable(v);
    var ok := writer.SerializeJSON(v, flags);
    EmptyLeft(Print(dt, v, flags));
    JsonRoundTrip.DocumentRoundTrip(dt, dv, v, flags);
    var scanner := new Scanner(output.written, dv);
    var driver := new Driver(scanner);
    d := driver.Parse();
  }
}
