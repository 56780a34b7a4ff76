/**
 BCON: the writer and the reader as functions on bytes, and what a round trip does to every value.

 The writer exists in two layouts that differ only in the headers of strings and byte arrays. `Documented`
 is the layout of the format description as the reader implements it; `AsWritten` is what the writer sends,
 where every length continuation is a 32-bit word and the short form of a byte array carries an extra bit.
 */
module Bcon {
  import opened Words
  import opened Values
  import opened Text

  datatype Layout = AsWritten | Documented

  const TOKEN_END: byte := 0x00
  const TOKEN_NULL: byte := 0x01
  const TOKEN_TRUE: byte := 0x02
  const TOKEN_FALSE: byte := 0x03
  const TOKEN_BYTE: byte := 0x04
  const TOKEN_INT16: byte := 0x05
  const TOKEN_UINT16: byte := 0x06
  const TOKEN_INT32: byte := 0x07
  const TOKEN_UINT32: byte := 0x08
  const TOKEN_INT64: byte := 0x09
  const TOKEN_UINT64: byte := 0x0A
  const TOKEN_DOUBLE: byte := 0x0B
  const TOKEN_DATETIME: byte := 0x0C
  const TOKEN_LIST: byte := 0x0E
  const TOKEN_MAP: byte := 0x0F

  const LENGTH2P6 := 64
  const LENGTH2P12 := 4096
  const LENGTH2P20 := 1048576
  const LENGTH2P28 := 268435456
  const LENGTH2P36 := 68719476736

  // ---------- The writer ----------

  /** A length continuation: one byte in the format, an int in the writer. */
  function Continuation(layout: Layout, n: nat): Bytes {
    match layout
    case Documented => [n % 0x100]
    case AsWritten => Encode32(n % 0x1_0000_0000)
  }

  /** The header of the short form of a byte array; the writer's token 0xA0 always sets bit 5. */
  function ShortDataHeader(layout: Layout, len: nat): byte
    requires len < LENGTH2P6
  {
    match layout
    case Documented => 0x80 + len
    case AsWritten => if len < 32 then 0xA0 + len else 0x80 + len
  }

  /** The header of a string (`isString`) or a byte array; empty where the writer throws instead. */
  function Header(layout: Layout, isString: bool, len: nat): Bytes {
    var base: byte := if isString then 0x40 else 0x00;
    if len < LENGTH2P6 then
      [if isString then 0xC0 + len else ShortDataHeader(layout, len)]
    else if len < LENGTH2P12 then
      [base + 0x10 + len % 0x10] + Continuation(layout, len / 0x10 % 0x100)
    else if len < LENGTH2P20 then
      [base + 0x20 + len % 0x10] + Continuation(layout, len / 0x10 % 0x100)
      + Continuation(layout, len / 0x1000 % 0x100)
    else if len < LENGTH2P36 then
      [base + 0x30 + len % 0x10] + Continuation(layout, len / 0x10 % 0x100)
      + Continuation(layout, len / 0x1000 % 0x100) + Continuation(layout, len / 0x10_0000)
    else []
  }

  /**
     The narrowing of an Int. The masks 0x7FFFFF80 and 0x7FFF8000 leave out the sign bit, so what they
     compare is the number modulo 2^31.
   */
  function EncodeInt(n: int32): Bytes {
    var low := n % 0x8000_0000;
    if low < 0x80 then [TOKEN_BYTE, low]
    else if low < 0x8000 then [TOKEN_INT16] + Encode16(low)
    else [TOKEN_INT32] + Encode32(Unsigned32(n))
  }

  /** The two masks of the narrowing, on the 32-bit word itself. */
  lemma MasksLeaveOutTheSign(num: bv32)
    ensures num & 0x7FFF_FF80 == 0 <==> num % 0x8000_0000 < 0x80
    ensures num & 0x7FFF_8000 == 0 <==> num % 0x8000_0000 < 0x8000
  {
  }

  /** The short header of a byte array as written: or-ing the length onto 0xA0. */
  lemma ShortDataHeaderBits(len: bv8)
    ensures 0xA0 | (len & 0x3F) == 0x80 + (len & 0x3F) + if len & 0x3F < 32 then 32 else 0
  {
  }

  function Encode(layout: Layout, v: Value): Bytes
    decreases v
  {
    match v
    case Null => [TOKEN_NULL]
    case Bool(b) => [if b then TOKEN_TRUE else TOKEN_FALSE]
    case Char(c) => [TOKEN_BYTE, c]
    case Int(n) => EncodeInt(n)
    case UInt(u) =>
      if u < 0x1_0000 then [TOKEN_UINT16] + Encode16(u) else [TOKEN_UINT32] + Encode32(u)
    case LongLong(l) => [TOKEN_INT64] + Encode64(Unsigned64(l))
    case ULongLong(u) => [TOKEN_UINT64] + Encode64(u)
    case Double(bits) => [TOKEN_DOUBLE] + Encode64(bits)
    case DateTime(ms) => [TOKEN_DATETIME] + Encode64(Unsigned64(ms))
    case Str(s) => Header(layout, true, |s|) + s
    case ByteArray(a) => Header(layout, false, |a|) + a
    case List(vs) => [TOKEN_LIST] + EncodeAll(layout, vs) + [TOKEN_END]
    case Map(es) => [TOKEN_MAP] + EncodeEntries(layout, es) + [TOKEN_END]
  }

  function EncodeAll(layout: Layout, vs: seq<Value>): Bytes
    decreases vs
  {
    if vs == [] then [] else Encode(layout, vs[0]) + EncodeAll(layout, vs[1..])
  }

  /** In a map the key follows its value and ends with NUL. */
  function EncodeEntries(layout: Layout, es: seq<Entry>): Bytes
    decreases es
  {
    if es == [] then []
    else Encode(layout, es[0].value) + es[0].key + [0] + EncodeEntries(layout, es[1..])
  }

  // ---------- The reader ----------

  /** Reading ends with an error, meets the end token of a container, or yields a value and the rest. */
  datatype Parsed =
    | Fail
    | End(rest: Bytes)
    | Item(value: Value, rest: Bytes)

  datatype KeyRead =
    | NoKey
    | Key(key: Bytes, rest: Bytes)

  /** A key is everything up to the first NUL, appended byte by byte. */
  function ReadKey(b: Bytes): (r: KeyRead)
    ensures r.Key? ==> 0 !in r.key && |r.rest| < |b|
    ensures r.NoKey? <==> 0 !in b
  {
    if b == [] then NoKey
    else if b[0] == 0 then Key([], b[1..])
    else
      match ReadKey(b[1..])
      case NoKey => NoKey
      case Key(k, rest) => Key(Utf8(b[0]) + k, rest)
  }

  /**
     A string, or data, of a given length. Both forms yield a string: the reader selects one of a QString and
     a QByteArray by a conditional expression, and the type of that expression is QString.
   */
  function ReadBlob(isString: bool, len: nat, b: Bytes): Parsed {
    if |b| < len then Fail
    else Item(Str(if isString then b[..len] else TextOf(b[..len])), b[len..])
  }

  function ReadWord(token: byte, b: Bytes): Parsed {
    if token == TOKEN_BYTE then
      if |b| < 1 then Fail else Item(Int(b[0]), b[1..])
    else if token == TOKEN_INT16 then
      if |b| < 2 then Fail else Item(Int(Signed16(Decode16(b[..2]))), b[2..])
    else if token == TOKEN_UINT16 then
      if |b| < 2 then Fail else Item(Int(Decode16(b[..2])), b[2..])
    else if token == TOKEN_INT32 then
      if |b| < 4 then Fail else Item(Int(Signed32(Decode32(b[..4]))), b[4..])
    else if token == TOKEN_UINT32 then
      if |b| < 4 then Fail else Item(UInt(Decode32(b[..4])), b[4..])
    else if |b| < 8 then Fail
    else
      var w := Decode64(b[..8]);
      if token == TOKEN_INT64 then Item(LongLong(Signed64(w)), b[8..])
      else if token == TOKEN_UINT64 then Item(ULongLong(w), b[8..])
      else if token == TOKEN_DOUBLE then Item(Double(w), b[8..])
      else Item(DateTime(Signed64(w)), b[8..])
  }

  /** The length forms with continuation bytes; the two other values of bits 4 and 5 are errors. */
  function ReadLongBlob(c: byte, b: Bytes): Parsed
    requires 0x10 <= c < 0x80
  {
    var isString, lo, form := c >= 0x40, c as int % 0x10, c as int / 0x10 % 4;
    if form == 1 && |b| >= 1 then
      ReadBlob(isString, lo + 0x10 * b[0] as int, b[1..])
    else if form == 2 && |b| >= 2 then
      ReadBlob(isString, lo + 0x10 * b[0] as int + 0x1000 * b[1] as int, b[2..])
    else if form == 3 && |b| >= 3 then
      ReadBlob(isString, lo + 0x10 * b[0] as int + 0x1000 * b[1] as int + 0x10_0000 * b[2] as int, b[3..])
    else Fail
  }

  function Parse(b: Bytes): (r: Parsed)
    ensures r.Item? || r.End? ==> |r.rest| < |b|
    decreases |b|, 0
  {
    if b == [] then Fail
    else
      var c, rest := b[0], b[1..];
      if c >= 0x80 then ReadBlob(c >= 0xC0, c as int % 0x40, rest)
      else if c >= 0x10 then ReadLongBlob(c, rest)
      else if c == TOKEN_END then End(rest)
      else if c == TOKEN_NULL then Item(Null, rest)
      else if c == TOKEN_TRUE then Item(Bool(true), rest)
      else if c == TOKEN_FALSE then Item(Bool(false), rest)
      else if c == TOKEN_LIST then ParseList([], rest)
      else if c == TOKEN_MAP then ParseMap([], rest)
      else if c == 0x0D then Fail
      else ReadWord(c, rest)
  }

  /** The loop of a list, given the elements read so far. */
  function ParseList(list: seq<Value>, b: Bytes): (r: Parsed)
    ensures r.Item? ==> |r.rest| < |b|
    ensures !r.End?
    decreases |b|, 1
  {
    match Parse(b)
    case Fail => Fail
    case End(rest) => Item(List(list), rest)
    case Item(v, rest) => ParseList(list + [v], rest)
  }

  /** The loop of a map, given the entries read so far. */
  function ParseMap(m: seq<Entry>, b: Bytes): (r: Parsed)
    ensures r.Item? ==> |r.rest| < |b|
    ensures !r.End?
    decreases |b|, 1
  {
    match Parse(b)
    case Fail => Fail
    case End(rest) => Item(Map(m), rest)
    case Item(v, rest) =>
      match ReadKey(rest)
      case NoKey => Fail
      case Key(key, rest') => ParseMap(Insert(m, key, v), rest')
  }
}
