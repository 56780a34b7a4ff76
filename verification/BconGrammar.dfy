/**
 The BCON reader against the grammar of the format: the reader accepts exactly the bytes that the grammar
 derives, with the meaning that it gives them. Entries may come in any order, with keys repeated.
 */
module BconGrammar {
  import opened Sequences
  import opened Words
  import opened Values
  import opened Text
  import opened Bcon
  import BconRoundTrip
  import BconExact

  type int16 = x: int | -0x8000 <= x < 0x8000

  /** A derivation of the grammar. The form of a text is the number of bytes that continue its length. */
  datatype Wire =
    | WNull
    | WTrue
    | WFalse
    | WByte(b: byte)
    | WInt16(i: int16)
    | WUInt16(u: uint16)
    | WInt32(n: int32)
    | WUInt32(w: uint32)
    | WInt64(l: int64)
    | WUInt64(ul: uint64)
    | WDouble(bits: uint64)
    | WDateTime(msecs: int64)
    | WText(isString: bool, form: nat, body: Bytes)
    | WList(elements: seq<Wire>)
    | WMap(entries: seq<WireEntry>)

  datatype WireEntry = WireEntry(value: Wire, key: Bytes)

  /** The lengths that a form can carry. */
  function Capacity(form: nat): nat {
    if form == 0 then 0x40 else if form == 1 then 0x1000 else if form == 2 then 0x10_0000 else if form == 3 then 0x1000_0000 else 0
  }

  predicate WellFormed(w: Wire)
    decreases w
  {
    match w
    case WText(_, form, body) => |body| < Capacity(form)
    case WList(ws) => AllWellFormed(ws)
    case WMap(es) => EntriesWellFormed(es)
    case _ => true
  }

  predicate AllWellFormed(ws: seq<Wire>)
    decreases ws
  {
    ws == [] || (WellFormed(ws[0]) && AllWellFormed(ws[1..]))
  }

  predicate EntriesWellFormed(es: seq<WireEntry>)
    decreases es
  {
    es == [] || (WellFormed(es[0].value) && 0 !in es[0].key && EntriesWellFormed(es[1..]))
  }

  /** A negative number is sent as the word of its two's complement. */
  function Word(n: int, size: nat, modulus: nat): Bytes
    requires n + modulus >= 0
  {
    LittleEndian(if n < 0 then n + modulus else n, size)
  }

  function TextHeader(isString: bool, form: nat, len: nat): Bytes
    requires len < Capacity(form)
  {
    if form == 0 then [if isString then 0xC0 + len else 0x80 + len]
    else [(if isString then 0x40 else 0x00) + 0x10 * form + len % 0x10] + LittleEndian(len / 0x10, form)
  }

  function Render(w: Wire): Bytes
    requires WellFormed(w)
    decreases w
  {
    match w
    case WNull => [0x01]
    case WTrue => [0x02]
    case WFalse => [0x03]
    case WByte(b) => [0x04, b]
    case WInt16(n) => [0x05] + Word(n, 2, 0x1_0000)
    case WUInt16(n) => [0x06] + LittleEndian(n, 2)
    case WInt32(n) => [0x07] + Word(n, 4, 0x1_0000_0000)
    case WUInt32(n) => [0x08] + LittleEndian(n, 4)
    case WInt64(n) => [0x09] + Word(n, 8, 0x1_0000_0000_0000_0000)
    case WUInt64(n) => [0x0A] + LittleEndian(n, 8)
    case WDouble(bits) => [0x0B] + LittleEndian(bits, 8)
    case WDateTime(n) => [0x0C] + Word(n, 8, 0x1_0000_0000_0000_0000)
    case WText(isString, form, body) => TextHeader(isString, form, |body|) + body
    case WList(ws) => [0x0E] + RenderAll(ws) + [0x00]
    case WMap(es) => [0x0F] + RenderEntries(es) + [0x00]
  }

  function RenderAll(ws: seq<Wire>): Bytes
    requires AllWellFormed(ws)
    decreases ws
  {
    if ws == [] then [] else Render(ws[0]) + RenderAll(ws[1..])
  }

  function RenderEntries(es: seq<WireEntry>): Bytes
    requires EntriesWellFormed(es)
    decreases es
  {
    if es == [] then [] else Render(es[0].value) + (es[0].key + [0x00] + RenderEntries(es[1..]))
  }

  function Meaning(w: Wire): Value
    decreases w
  {
    match w
    case WNull => Null
    case WTrue => Bool(true)
    case WFalse => Bool(false)
    case WByte(b) => Int(b)
    case WInt16(n) => Int(n)
    case WUInt16(n) => Int(n)
    case WInt32(n) => Int(n)
    case WUInt32(n) => UInt(n)
    case WInt64(n) => LongLong(n)
    case WUInt64(n) => ULongLong(n)
    case WDouble(bits) => Double(bits)
    case WDateTime(n) => DateTime(n)
    case WText(isString, _, body) => Str(if isString then body else TextOf(body))
    case WList(ws) => List(MeaningOfAll(ws))
    case WMap(es) => Map(InsertAll([], MeaningOfEntries(es)))
  }

  function MeaningOfAll(ws: seq<Wire>): seq<Value>
    decreases ws
  {
    if ws == [] then [] else [Meaning(ws[0])] + MeaningOfAll(ws[1..])
  }

  function MeaningOfEntries(es: seq<WireEntry>): seq<Entry>
    decreases es
  {
    if es == [] then [] else [Entry(Widened(es[0].key), Meaning(es[0].value))] + MeaningOfEntries(es[1..])
  }

  // ---------- What the grammar derives is read ----------

  lemma Shorts(w: Wire, t: Bytes)
    requires w.WNull? || w.WTrue? || w.WFalse? || w.WByte?
    ensures Parse(Render(w) + t) == Item(Meaning(w), t)
  {
    assert (Render(w) + t)[1..] == if w.WByte? then [w.b] + t else t;
  }

  lemma Words16(w: Wire, t: Bytes)
    requires w.WInt16? || w.WUInt16?
    ensures Parse(Render(w) + t) == Item(Meaning(w), t)
  {
    var n: uint16 := if w.WUInt16? then w.u else if w.i < 0 then w.i + 0x1_0000 else w.i;
    Word16(n);
    Decode16Encode(n, t);
    hide LittleEndian, Encode16, Decode16;
    assert (Render(w) + t)[1..] == Encode16(n) + t;
  }

  lemma Words32(w: Wire, t: Bytes)
    requires w.WInt32? || w.WUInt32?
    ensures Parse(Render(w) + t) == Item(Meaning(w), t)
  {
    var n: uint32 := if w.WUInt32? then w.w else if w.n < 0 then w.n + 0x1_0000_0000 else w.n;
    Word32(n);
    Decode32Encode(n, t);
    hide LittleEndian, Encode32, Decode32;
    assert (Render(w) + t)[1..] == Encode32(n) + t;
  }

  lemma Words64(w: Wire, t: Bytes)
    requires w.WInt64? || w.WUInt64? || w.WDouble? || w.WDateTime?
    ensures Parse(Render(w) + t) == Item(Meaning(w), t)
  {
    hide LittleEndian, Encode64, Decode64, Parse;
    match w {
      case WInt64(n) => Word64(Unsigned64(n)); BconRoundTrip.WordRoundTrip(0x09, Unsigned64(n), t);
      case WUInt64(n) => Word64(n); BconRoundTrip.WordRoundTrip(0x0A, n, t);
      case WDouble(bits) => Word64(bits); BconRoundTrip.WordRoundTrip(0x0B, bits, t);
      case WDateTime(n) => Word64(Unsigned64(n)); BconRoundTrip.WordRoundTrip(0x0C, Unsigned64(n), t);
    }
  }

  lemma ShortText(isString: bool, body: Bytes, t: Bytes)
    requires |body| < 0x40
    ensures Parse(Render(WText(isString, 0, body)) + t) == Item(Meaning(WText(isString, 0, body)), t)
  {
    hide TextOf;
    var h: byte := if isString then 0xC0 + |body| else 0x80 + |body|;
    assert (Render(WText(isString, 0, body)) + t)[1..] == body + t;
    Split(body, t);
    assert h as int % 0x40 == |body|;
  }

  function Continuations(form: nat, x: byte, y: byte, z: byte): Bytes {
    if form == 1 then [x] else if form == 2 then [x, y] else [x, y, z]
  }

  /** The continuation bytes of a length. */
  lemma LengthBytes(n: nat, form: nat) returns (x: byte, y: byte, z: byte)
    requires 1 <= form <= 3 && n < Capacity(form) / 0x10
    ensures n == x as int + 0x100 * y as int + 0x1_0000 * z as int && (form == 1 ==> y == 0) && (form < 3 ==> z == 0)
    ensures LittleEndian(n, form) == Continuations(form, x, y, z)
    ensures x == n % 0x100 && (form >= 2 ==> y == n / 0x100 % 0x100) && (form == 3 ==> z == n / 0x100 / 0x100)
  {
    x, y, z := n % 0x100, n / 0x100 % 0x100, n / 0x100 / 0x100;
    assert LittleEndian(z, 1) == [z];
    assert form >= 2 ==> LittleEndian(n / 0x100, form - 1) == [y] + LittleEndian(z, form - 2);
  }

  lemma HeaderByte(isString: bool, form: nat, lo: nat)
    requires 1 <= form <= 3 && lo < 0x10
    ensures var c := (if isString then 0x40 else 0x00) + 0x10 * form + lo;
            0x10 <= c < 0x80 && (c >= 0x40 <==> isString) && c % 0x10 == lo && c / 0x10 % 4 == form
  {
  }

  /** A header byte of a long form, and the bytes that continue the length. */
  predicate IsLongForm(c: byte, form: nat, x: byte, y: byte, z: byte) {
    && 0x10 <= c < 0x80 && 1 <= form <= 3 && c as int / 0x10 % 4 == form
    && (form == 1 ==> y == 0) && (form < 3 ==> z == 0)
  }

  function LengthOf(c: byte, x: byte, y: byte, z: byte): nat {
    c as int % 0x10 + 0x10 * x as int + 0x1000 * y as int + 0x10_0000 * z as int
  }

  lemma ReadForm(c: byte, form: nat, x: byte, y: byte, z: byte, b: Bytes)
    requires IsLongForm(c, form, x, y, z)
    ensures ReadLongBlob(c, Continuations(form, x, y, z) + b) == ReadBlob(c >= 0x40, LengthOf(c, x, y, z), b)
  {
    hide ReadBlob;
    if form == 1 {
      assert ([x] + b)[1..] == b;
    } else if form == 2 {
      assert ([x, y] + b)[2..] == b;
    } else {
      assert ([x, y, z] + b)[3..] == b;
    }
  }

  lemma ReadLength(c: byte, isString: bool, form: nat, len: nat, b: Bytes)
    requires 1 <= form <= 3 && len < Capacity(form)
    requires 0x10 <= c < 0x80 && (c >= 0x40 <==> isString) && c as int % 0x10 == len % 0x10 && c as int / 0x10 % 4 == form
    ensures ReadLongBlob(c, LittleEndian(len / 0x10, form) + b) == ReadBlob(isString, len, b)
  {
    hide LittleEndian, ReadBlob, ReadLongBlob;
    var x, y, z := LengthBytes(len / 0x10, form);
    ReadForm(c, form, x, y, z, b);
    assert len == len % 0x10 + 0x10 * (len / 0x10);
  }

  lemma LongText(isString: bool, form: nat, body: Bytes, t: Bytes)
    requires 1 <= form <= 3 && |body| < Capacity(form)
    ensures Parse(Render(WText(isString, form, body)) + t) == Item(Meaning(WText(isString, form, body)), t)
  {
    hide TextOf, LittleEndian, Parse, ReadLongBlob;
    var len := |body|;
    var c: byte := (if isString then 0x40 else 0x00) + 0x10 * form + len % 0x10;
    var more := LittleEndian(len / 0x10, form);
    HeaderByte(isString, form, len % 0x10);
    Regroup([c], more, body, t);
    BconExact.LongFormRead(c, more + (body + t));
    ReadLength(c, isString, form, len, body + t);
    Split(body, t);
  }

  /** Every derivation is read with its meaning, and exactly what follows it is left. */
  lemma {:induction false} DerivedIsRead(w: Wire, t: Bytes)
    requires WellFormed(w)
    ensures Parse(Render(w) + t) == Item(Meaning(w), t)
    decreases w, 1
  {
    hide Parse, Render, Meaning, ParseList, ParseMap;
    match w
    case WList(ws) =>
      OpenList(ws, t);
      ElementsAreRead([], ws, t);
      ListMeaning(ws);
    case WMap(es) =>
      OpenMap(es, t);
      EntriesAreRead([], es, t);
      MapMeaning(es);
    case WText(isString, form, body) =>
      FormInRange(form, |body|);
      if form == 0 {
        ShortText(isString, body, t);
      } else {
        LongText(isString, form, body, t);
      }
    case WInt16(_) => Words16(w, t);
    case WUInt16(_) => Words16(w, t);
    case WInt32(_) => Words32(w, t);
    case WUInt32(_) => Words32(w, t);
    case WInt64(_) => Words64(w, t);
    case WUInt64(_) => Words64(w, t);
    case WDouble(_) => Words64(w, t);
    case WDateTime(_) => Words64(w, t);
    case WNull => Shorts(w, t);
    case WTrue => Shorts(w, t);
    case WFalse => Shorts(w, t);
    case WByte(_) => Shorts(w, t);
  }

  lemma FormInRange(form: nat, len: nat)
    requires len < Capacity(form)
    ensures form <= 3 && (form == 0 ==> len < 0x40)
  {
  }

  lemma ListMeaning(ws: seq<Wire>)
    ensures Meaning(WList(ws)) == List([] + MeaningOfAll(ws))
  {
    EmptyLeft(MeaningOfAll(ws));
  }

  lemma MapMeaning(es: seq<WireEntry>)
    ensures Meaning(WMap(es)) == Map(InsertAll([], MeaningOfEntries(es)))
  {
  }

  lemma OpenList(ws: seq<Wire>, t: Bytes)
    requires AllWellFormed(ws)
    ensures Parse(Render(WList(ws)) + t) == ParseList([], RenderAll(ws) + [0x00] + t)
  {
    hide RenderAll, ParseList;
    Regroup([0x0E], RenderAll(ws), [0x00], t);
    Split([0x0E], RenderAll(ws) + [0x00] + t);
  }

  lemma OpenMap(es: seq<WireEntry>, t: Bytes)
    requires EntriesWellFormed(es)
    ensures Parse(Render(WMap(es)) + t) == ParseMap([], RenderEntries(es) + [0x00] + t)
  {
    hide RenderEntries, ParseMap;
    Regroup([0x0F], RenderEntries(es), [0x00], t);
    Split([0x0F], RenderEntries(es) + [0x00] + t);
  }

  lemma {:induction false} ElementsAreRead(list: seq<Value>, ws: seq<Wire>, t: Bytes)
    requires AllWellFormed(ws)
    ensures ParseList(list, RenderAll(ws) + [0x00] + t) == Item(List(list + MeaningOfAll(ws)), t)
    decreases ws, 0
  {
    hide Parse, Render, Meaning, WellFormed;
    if ws == [] {
      BconRoundTrip.CloseList(list, t);
      EmptyLeft([0x00]);
      EmptyRight(list);
    } else {
      var rest := RenderAll(ws[1..]) + [0x00] + t;
      Regroup(Render(ws[0]), RenderAll(ws[1..]), [0x00], t);
      DerivedIsRead(ws[0], rest);
      ElementsAreRead(list + [Meaning(ws[0])], ws[1..], t);
      Associative(list, [Meaning(ws[0])], MeaningOfAll(ws[1..]));
    }
  }

  lemma {:induction false} EntriesAreRead(m: seq<Entry>, es: seq<WireEntry>, t: Bytes)
    requires EntriesWellFormed(es)
    ensures ParseMap(m, RenderEntries(es) + [0x00] + t) == Item(Map(InsertAll(m, MeaningOfEntries(es))), t)
    decreases es, 0
  {
    hide Parse, Render, Meaning, WellFormed, ReadKey, Widened, Insert;
    if es == [] {
      BconRoundTrip.CloseMap(m, t);
      EmptyLeft([0x00]);
    } else {
      var rest := RenderEntries(es[1..]) + [0x00] + t;
      EntriesText(es, t);
      DerivedIsRead(es[0].value, es[0].key + [0x00] + rest);
      BconRoundTrip.ReadKeyBack(es[0].key, rest);
      var e := Entry(Widened(es[0].key), Meaning(es[0].value));
      EntriesAreRead(Insert(m, e.key, e.value), es[1..], t);
      InsertAllStep(m, e, MeaningOfEntries(es[1..]));
    }
  }

  lemma EntriesText(es: seq<WireEntry>, t: Bytes)
    requires EntriesWellFormed(es) && es != []
    ensures RenderEntries(es) + [0x00] + t ==
            Render(es[0].value) + (es[0].key + [0x00] + (RenderEntries(es[1..]) + [0x00] + t))
  {
    hide Render, WellFormed;
    Regroup(Render(es[0].value), es[0].key + [0x00] + RenderEntries(es[1..]), [0x00], t);
    Regroup(es[0].key + [0x00], RenderEntries(es[1..]), [0x00], t);
  }

  lemma InsertAllStep(m: seq<Entry>, e: Entry, more: seq<Entry>)
    ensures InsertAll(m, [e] + more) == InsertAll(Insert(m, e.key, e.value), more)
  {
    assert ([e] + more)[1..] == more;
  }

  // ---------- What is read is derived by the grammar ----------

  ghost predicate Derives(w: Wire, b: Bytes, v: Value, rest: Bytes) {
    WellFormed(w) && b == Render(w) + rest && v == Meaning(w)
  }

  lemma ShortIsDerived(b: Bytes) returns (w: Wire)
    requires b != [] && 0x01 <= b[0] <= 0x04 && Parse(b).Item?
    ensures Derives(w, b, Parse(b).value, Parse(b).rest)
  {
    w := if b[0] == 1 then WNull else if b[0] == 2 then WTrue else if b[0] == 3 then WFalse else WByte(b[1]);
    assert b == [b[0]] + b[1..];
    if b[0] == 4 {
      assert b == [b[0], b[1]] + b[1..][1..];
    }
  }

  lemma Word16IsDerived(b: Bytes) returns (w: Wire)
    requires b != [] && 0x05 <= b[0] <= 0x06 && Parse(b).Item?
    ensures Derives(w, b, Parse(b).value, Parse(b).rest)
  {
    var word := b[1..][..2];
    var n := Decode16(word);
    Encode16Decode(word);
    Word16(n);
    hide LittleEndian, Encode16, Decode16;
    w := if b[0] == 5 then WInt16(Signed16(n)) else WUInt16(n);
    assert b == [b[0]] + word + b[1..][2..];
  }

  lemma Word32IsDerived(b: Bytes) returns (w: Wire)
    requires b != [] && 0x07 <= b[0] <= 0x08 && Parse(b).Item?
    ensures Derives(w, b, Parse(b).value, Parse(b).rest)
  {
    var word := b[1..][..4];
    var n := Decode32(word);
    Encode32Decode(word);
    Word32(n);
    hide LittleEndian, Encode32, Decode32;
    w := if b[0] == 7 then WInt32(Signed32(n)) else WUInt32(n);
    assert b == [b[0]] + word + b[1..][4..];
  }

  lemma Word64IsDerived(b: Bytes) returns (w: Wire)
    requires b != [] && 0x09 <= b[0] <= 0x0C && Parse(b).Item?
    ensures Derives(w, b, Parse(b).value, Parse(b).rest)
  {
    var word := b[1..][..8];
    var n := Decode64(word);
    Encode64Decode(word);
    Word64(n);
    hide LittleEndian, Encode64, Decode64;
    w := if b[0] == 0x09 then WInt64(Signed64(n)) else if b[0] == 0x0A then WUInt64(n)
         else if b[0] == 0x0B then WDouble(n) else WDateTime(Signed64(n));
    assert b == [b[0]] + word + b[1..][8..];
  }

  lemma ShortTextIsDerived(b: Bytes) returns (w: Wire)
    requires b != [] && b[0] >= 0x80 && Parse(b).Item?
    ensures Derives(w, b, Parse(b).value, Parse(b).rest)
  {
    hide TextOf;
    var len, rest := b[0] as int % 0x40, b[1..];
    w := WText(b[0] >= 0xC0, 0, rest[..len]);
    assert b == [b[0]] + rest && rest == rest[..len] + rest[len..];
  }

  /** The bytes that a long form has taken. */
  lemma TakenByForm(c: byte, rest: Bytes) returns (form: nat, x: byte, y: byte, z: byte, b: Bytes)
    requires 0x10 <= c < 0x80 && ReadLongBlob(c, rest).Item?
    ensures IsLongForm(c, form, x, y, z) && rest == Continuations(form, x, y, z) + b
  {
    hide ReadBlob;
    form := c as int / 0x10 % 4;
    x := rest[0];
    y := if form >= 2 then rest[1] else 0;
    z := if form == 3 then rest[2] else 0;
    b := rest[form..];
  }

  lemma LongTextIsDerived(b: Bytes) returns (w: Wire)
    requires b != [] && 0x10 <= b[0] < 0x80 && Parse(b).Item?
    ensures Derives(w, b, Parse(b).value, Parse(b).rest)
  {
    var c, rest := b[0], b[1..];
    assert b == [c] + rest;
    BconExact.LongFormRead(c, rest);
    var form, x, y, z, after := TakenByForm(c, rest);
    ReadForm(c, form, x, y, z, after);
    LengthIsThere(c, form, x, y, z);
    hide Parse, ReadLongBlob, IsLongForm, LengthOf, Continuations;
    w := BlobIsDerived(c >= 0x40, form, LengthOf(c, x, y, z), after);
    Associative([c], Continuations(form, x, y, z), after);
  }

  /** The bytes of a text behind its header. */
  lemma BlobIsDerived(isString: bool, form: nat, len: nat, b: Bytes) returns (w: Wire)
    requires len < Capacity(form) && ReadBlob(isString, len, b).Item?
    ensures Derives(w, TextHeader(isString, form, len) + b, ReadBlob(isString, len, b).value, ReadBlob(isString, len, b).rest)
  {
    hide TextOf, TextHeader, Capacity;
    var body := b[..len];
    w := WText(isString, form, body);
    assert b == body + b[len..];
    Associative(TextHeader(isString, form, len), body, b[len..]);
  }

  lemma LengthIsThere(c: byte, form: nat, x: byte, y: byte, z: byte)
    requires IsLongForm(c, form, x, y, z)
    ensures var len := LengthOf(c, x, y, z);
            && len < Capacity(form)
            && TextHeader(c >= 0x40, form, len) == [c] + Continuations(form, x, y, z)
  {
    var len := LengthOf(c, x, y, z);
    LengthParts(c, x, y, z);
    HeaderBack(c, form);
    var x', y', z' := LengthBytes(len / 0x10, form);
    SameDigits(x, y, z, x', y', z');
    hide LittleEndian, LengthOf;
  }

  lemma LengthParts(c: byte, x: byte, y: byte, z: byte)
    ensures LengthOf(c, x, y, z) / 0x10 == x as int + 0x100 * y as int + 0x1_0000 * z as int
    ensures LengthOf(c, x, y, z) % 0x10 == c as int % 0x10
  {
  }

  lemma HeaderBack(c: byte, form: nat)
    requires 0x10 <= c < 0x80 && 1 <= form <= 3 && c as int / 0x10 % 4 == form
    ensures (if c >= 0x40 then 0x40 else 0x00) + 0x10 * form + c as int % 0x10 == c as int
  {
  }

  lemma SameDigits(x: byte, y: byte, z: byte, x': byte, y': byte, z': byte)
    requires x as int + 0x100 * y as int + 0x1_0000 * z as int == x' as int + 0x100 * y' as int + 0x1_0000 * z' as int
    ensures x' == x && y' == y && z' == z
  {
  }

  lemma {:induction false} KeyIsDerived(b: Bytes) returns (key: Bytes)
    requires ReadKey(b).Key?
    ensures 0 !in key && b == key + [0x00] + ReadKey(b).rest && ReadKey(b).key == Widened(key)
  {
    hide Utf8, Widened, ReadKey;
    KeyStep(b);
    assert b == [b[0]] + b[1..];
    if b[0] == 0 {
      key := [];
    } else {
      var more := KeyIsDerived(b[1..]);
      key := [b[0]] + more;
      WidenedStep(b[0], more);
      Associative([b[0]], more, [0x00] + ReadKey(b[1..]).rest);
    }
  }

  lemma KeyStep(b: Bytes)
    requires ReadKey(b).Key?
    ensures b != [] && if b[0] == 0 then ReadKey(b) == Key(Widened([]), b[1..])
                       else ReadKey(b[1..]).Key? && ReadKey(b) == Key(Utf8(b[0]) + ReadKey(b[1..]).key, ReadKey(b[1..]).rest)
  {
  }

  lemma WidenedStep(c: byte, more: Bytes)
    ensures Widened([c] + more) == Utf8(c) + Widened(more)
  {
    assert ([c] + more)[1..] == more;
  }

  /** Whatever bytes are read as a value, the grammar derives them with that meaning. */
  lemma {:induction false} ReadIsDerived(b: Bytes) returns (w: Wire)
    requires Parse(b).Item?
    ensures Derives(w, b, Parse(b).value, Parse(b).rest)
    decreases |b|, 0
  {
    hide TextOf, ReadBlob, ReadWord, ReadLongBlob, ReadKey, ParseList, ParseMap;
    var c := b[0];
    assert b == [c] + b[1..];
    if c == 0x0E {
      var ws := ListIsDerived([], b[1..]);
      w := WList(ws);
      EmptyLeft(MeaningOfAll(ws));
      Regroup([0x0E], RenderAll(ws), [0x00], Parse(b).rest);
    } else if c == 0x0F {
      var es := MapIsDerived([], b[1..]);
      w := WMap(es);
      Regroup([0x0F], RenderEntries(es), [0x00], Parse(b).rest);
    } else if c >= 0x80 {
      w := ShortTextIsDerived(b);
    } else if c >= 0x10 {
      w := LongTextIsDerived(b);
    } else if c <= 0x04 {
      w := ShortIsDerived(b);
    } else if c <= 0x06 {
      w := Word16IsDerived(b);
    } else if c <= 0x08 {
      w := Word32IsDerived(b);
    } else {
      w := Word64IsDerived(b);
    }
  }

  lemma {:induction false} ListIsDerived(list: seq<Value>, b: Bytes) returns (ws: seq<Wire>)
    requires ParseList(list, b).Item?
    ensures AllWellFormed(ws) && b == RenderAll(ws) + [0x00] + ParseList(list, b).rest
    ensures ParseList(list, b).value == List(list + MeaningOfAll(ws))
    decreases |b|, 1
  {
    hide Parse, Render, Meaning, WellFormed;
    var p := Parse(b);
    if p.End? {
      EndIsZero(b);
      ws := [];
      EmptyLeft([0x00]);
      EmptyRight(list);
    } else {
      var w := ReadIsDerived(b);
      var more := ListIsDerived(list + [p.value], p.rest);
      ws := [w] + more;
      assert ws[1..] == more;
      Regroup(Render(w), RenderAll(more), [0x00], ParseList(list, b).rest);
      Associative(list, [p.value], MeaningOfAll(more));
    }
  }

  lemma EndIsZero(b: Bytes)
    requires Parse(b).End?
    ensures b == [0x00] + Parse(b).rest
  {
  }

  lemma {:induction false} MapIsDerived(m: seq<Entry>, b: Bytes) returns (es: seq<WireEntry>)
    requires ParseMap(m, b).Item?
    ensures EntriesWellFormed(es) && b == RenderEntries(es) + [0x00] + ParseMap(m, b).rest
    ensures ParseMap(m, b).value == Map(InsertAll(m, MeaningOfEntries(es)))
    decreases |b|, 1
  {
    hide Parse, Render, Meaning, WellFormed, ReadKey, Insert, Widened;
    var p := Parse(b);
    if p.End? {
      EndIsZero(b);
      es := [];
      EmptyLeft([0x00]);
    } else {
      var w := ReadIsDerived(b);
      var key := KeyIsDerived(p.rest);
      var k := ReadKey(p.rest);
      var more := MapIsDerived(Insert(m, k.key, p.value), k.rest);
      es := [WireEntry(w, key)] + more;
      assert es[1..] == more;
      EntriesText(es, ParseMap(m, b).rest);
      InsertAllStep(m, Entry(k.key, p.value), MeaningOfEntries(more));
    }
  }

  /**
     The reader and the grammar agree: a value is read from some bytes, and some bytes are left, exactly if the
     grammar derives the bytes in front of them with that value as the meaning.
   */
  lemma ReaderIsGrammar(b: Bytes, v: Value, rest: Bytes)
    ensures Parse(b) == Item(v, rest) <==> exists w :: Derives(w, b, v, rest)
  {
    hide Parse, Render, Meaning, WellFormed;
    if Parse(b) == Item(v, rest) {
      var w := ReadIsDerived(b);
    }
    if w :| Derives(w, b, v, rest) {
      DerivedIsRead(w, rest);
    }
  }

  /** The map that is read from any bytes is in key order, and holds the last value that was sent for each key. */
  lemma MapsHoldTheLast(es: seq<WireEntry>, t: Bytes)
    requires EntriesWellFormed(es)
    ensures var p := Parse(Render(WMap(es)) + t);
            && p.Item? && p.rest == t && p.value.Map? && Sorted(p.value.entries)
            && AsMap(p.value.entries) == SetAll(map[], MeaningOfEntries(es))
  {
    hide Parse, Render;
    DerivedIsRead(WMap(es), t);
    InsertAllSets([], MeaningOfEntries(es));
  }

  // ---------- The derivations of the writer ----------

  /** The smallest form that carries a length. */
  function SmallestForm(len: nat): (form: nat)
    ensures form <= 3 && (len < 0x1000_0000 ==> len < Capacity(form)) && (form > 0 ==> len >= Capacity(form - 1))
  {
    if len < 0x40 then 0 else if len < 0x1000 then 1 else if len < 0x10_0000 then 2 else 3
  }

  /** The narrowest token that holds the number; for an Int, the sign bit is left out of what is narrowed. */
  function Chosen(v: Value): Wire
    decreases v
  {
    match v
    case Null => WNull
    case Bool(b) => if b then WTrue else WFalse
    case Char(c) => WByte(c)
    case Int(n) =>
      var low := n % 0x8000_0000;
      if low < 0x80 then WByte(low) else if low < 0x8000 then WInt16(low) else WInt32(n)
    case UInt(u) => if u < 0x1_0000 then WUInt16(u) else WUInt32(u)
    case LongLong(l) => WInt64(l)
    case ULongLong(u) => WUInt64(u)
    case Double(bits) => WDouble(bits)
    case DateTime(ms) => WDateTime(ms)
    case Str(s) => WText(true, SmallestForm(|s|), s)
    case ByteArray(a) => WText(false, SmallestForm(|a|), a)
    case List(vs) => WList(ChosenAll(vs))
    case Map(es) => WMap(ChosenEntries(es))
  }

  function ChosenAll(vs: seq<Value>): seq<Wire>
    decreases vs
  {
    if vs == [] then [] else [Chosen(vs[0])] + ChosenAll(vs[1..])
  }

  function ChosenEntries(es: seq<Entry>): seq<WireEntry>
    decreases es
  {
    if es == [] then [] else [WireEntry(Chosen(es[0].value), es[0].key)] + ChosenEntries(es[1..])
  }

  predicate IsScalar(v: Value) {
    !v.Str? && !v.ByteArray? && !v.List? && !v.Map?
  }

  /** Every scalar is sent as the derivation that is chosen for it, in the writer's layout as in the documented one. */
  lemma ScalarIsSent(layout: Layout, v: Value)
    requires IsScalar(v)
    ensures WellFormed(Chosen(v)) && Encode(layout, v) == Render(Chosen(v))
  {
    hide LittleEndian, Encode64;
    match v
    case Int(n) => IntIsSent(n);
    case UInt(u) => UIntIsSent(u);
    case LongLong(l) => Word64(Unsigned64(l));
    case ULongLong(u) => Word64(u);
    case Double(bits) => Word64(bits);
    case DateTime(ms) => Word64(Unsigned64(ms));
    case _ =>
  }

  lemma IntIsSent(n: int32)
    ensures EncodeInt(n) == Render(Chosen(Int(n)))
  {
    hide LittleEndian, Encode16, Encode32;
    if 0x80 <= n % 0x8000_0000 < 0x8000 {
      Word16(n % 0x8000_0000);
    }
    Word32(Unsigned32(n));
  }

  lemma UIntIsSent(u: uint32)
    ensures Encode(Documented, UInt(u)) == Render(Chosen(UInt(u)))
  {
    hide LittleEndian, Encode16, Encode32;
    if u < 0x1_0000 {
      Word16(u);
    }
    Word32(u);
  }

  lemma SentHeader(layout: Layout, isString: bool, len: nat)
    requires BconRoundTrip.SafeLength(layout, isString, len)
    ensures len < 0x1000_0000 && Header(layout, isString, len) == TextHeader(isString, SmallestForm(len), len)
  {
    DocumentedHeader(isString, len);
  }

  /** A whole value of carried lengths is sent as the derivation chosen for it. */
  lemma {:induction false} IsSent(layout: Layout, v: Value)
    requires BconRoundTrip.SafeLengths(layout, v) && BconRoundTrip.NulFree(v)
    ensures WellFormed(Chosen(v)) && Encode(layout, v) == Render(Chosen(v))
    decreases v, 1
  {
    hide Header, TextHeader, EncodeInt;
    match v
    case Str(s) => SentHeader(layout, true, |s|);
    case ByteArray(a) => SentHeader(layout, false, |a|);
    case List(vs) => AllAreSent(layout, vs);
    case Map(es) => EntriesAreSent(layout, es);
    case _ => ScalarIsSent(layout, v);
  }

  lemma {:induction false} AllAreSent(layout: Layout, vs: seq<Value>)
    requires BconRoundTrip.SafeLengthsAll(layout, vs) && BconRoundTrip.NulFreeAll(vs)
    ensures AllWellFormed(ChosenAll(vs)) && EncodeAll(layout, vs) == RenderAll(ChosenAll(vs))
    decreases vs, 0
  {
    hide Encode, Render, Chosen, WellFormed;
    if vs != [] {
      IsSent(layout, vs[0]);
      AllAreSent(layout, vs[1..]);
      assert ChosenAll(vs)[1..] == ChosenAll(vs[1..]);
    }
  }

  lemma {:induction false} EntriesAreSent(layout: Layout, es: seq<Entry>)
    requires BconRoundTrip.SafeLengthsEntries(layout, es) && BconRoundTrip.NulFreeEntries(es)
    ensures EntriesWellFormed(ChosenEntries(es)) && EncodeEntries(layout, es) == RenderEntries(ChosenEntries(es))
    decreases es, 0
  {
    hide Encode, Render, Chosen, WellFormed;
    if es != [] {
      IsSent(layout, es[0].value);
      EntriesAreSent(layout, es[1..]);
      assert ChosenEntries(es)[1..] == ChosenEntries(es[1..]);
      KeyBehindValue(Encode(layout, es[0].value), es[0].key, EncodeEntries(layout, es[1..]));
    }
  }

  lemma KeyBehindValue(value: Bytes, key: Bytes, more: Bytes)
    ensures value + key + [0] + more == value + (key + [0x00] + more)
  {
  }

  // ---------- The headers of the writer ----------

  /** The documented header is that of the smallest form that carries the length. */
  lemma DocumentedHeader(isString: bool, len: nat)
    requires len < LENGTH2P28
    ensures Header(Documented, isString, len) == TextHeader(isString, SmallestForm(len), len)
  {
    var form := SmallestForm(len);
    if form > 0 {
      DocumentedBytes(isString, form, len);
    }
  }

  lemma Shift(len: nat)
    ensures len / 0x10 / 0x100 == len / 0x1000 && len / 0x10 / 0x100 / 0x100 == len / 0x10_0000
  {
  }

  lemma HeaderBytes(layout: Layout, isString: bool, form: nat, len: nat)
    requires 1 <= form <= 3 && len < Capacity(form) && len >= Capacity(form - 1)
    ensures var c: byte := (if isString then 0x40 else 0x00) + 0x10 * form + len % 0x10;
            var x, y, z := len / 0x10 % 0x100, len / 0x1000 % 0x100, len / 0x10_0000;
            Header(layout, isString, len) ==
              [c] + Continuation(layout, x)
              + (if form >= 2 then Continuation(layout, y) else []) + if form == 3 then Continuation(layout, z) else []
  {
    hide Continuation;
    var x, y, z := len / 0x10 % 0x100, len / 0x1000 % 0x100, len / 0x10_0000;
    EmptyRight(Header(layout, isString, len));
  }

  lemma DocumentedBytes(isString: bool, form: nat, len: nat)
    requires 1 <= form <= 3 && len < Capacity(form) && len >= Capacity(form - 1)
    ensures Header(Documented, isString, len) == TextHeader(isString, form, len)
  {
    HeaderBytes(Documented, isString, form, len);
    Shift(len);
    var x, y, z := LengthBytes(len / 0x10, form);
    hide Header, LittleEndian;
  }

  /** Every byte followed by three zeros. */
  function Padded(b: Bytes): Bytes {
    if b == [] then [] else [b[0], 0, 0, 0] + Padded(b[1..])
  }

  /** As written, each continuation byte of a length is followed by three zeros. */
  lemma WrittenHeader(isString: bool, len: nat)
    requires LENGTH2P6 <= len < LENGTH2P28
    ensures var h := Header(Documented, isString, len);
            Header(AsWritten, isString, len) == [h[0]] + Padded(h[1..])
  {
    var form := if len < 0x1000 then 1 else if len < 0x10_0000 then 2 else 3;
    HeaderBytes(Documented, isString, form, len);
    HeaderBytes(AsWritten, isString, form, len);
    var c: byte := (if isString then 0x40 else 0x00) + 0x10 * form + len % 0x10;
    var x: byte, y: byte := len / 0x10 % 0x100, len / 0x1000 % 0x100;
    var z: byte := if form == 3 then len / 0x10_0000 else 0;
    hide Header, Continuation;
    PadsUp(c, form, x, y, z);
  }

  lemma PadsUp(c: byte, form: nat, x: byte, y: byte, z: byte)
    requires 1 <= form <= 3
    ensures var documented := [c] + Continuation(Documented, x)
              + (if form >= 2 then Continuation(Documented, y) else []) + if form == 3 then Continuation(Documented, z) else [];
            [c] + Continuation(AsWritten, x)
              + (if form >= 2 then Continuation(AsWritten, y) else []) + (if form == 3 then Continuation(AsWritten, z) else []) ==
            [c] + Padded(documented[1..])
  {
    PaddedBytes(x, y, z);
    hide Encode32, Padded;
    assert ([c] + [x] + [] + [])[1..] == [x] && ([c] + [x] + [y] + [])[1..] == [x, y];
    assert ([c] + [x] + [y] + [z])[1..] == [x, y, z];
  }

  lemma PaddedBytes(x: byte, y: byte, z: byte)
    ensures Encode32(x) == [x, 0, 0, 0] && Encode32(y) == [y, 0, 0, 0] && Encode32(z) == [z, 0, 0, 0]
    ensures Padded([x]) == [x, 0, 0, 0] && Padded([x, y]) == [x, 0, 0, 0, y, 0, 0, 0]
    ensures Padded([x, y, z]) == [x, 0, 0, 0, y, 0, 0, 0, z, 0, 0, 0]
  {
    assert [x][1..] == [] && [x, y][1..] == [y] && [y][1..] == [] && [x, y, z][1..] == [y, z] && [y, z][1..] == [z];
    assert [z][1..] == [] && Padded([z]) == [z, 0, 0, 0] && Padded([y]) == [y, 0, 0, 0];
    assert Padded([y, z]) == [y, 0, 0, 0] + [z, 0, 0, 0];
  }
}
