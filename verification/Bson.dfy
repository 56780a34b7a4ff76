/**
 BSON as the writer sends it and the reader takes it: documents with a length prefix, elements with their
 key in front, lists as documents with decimal keys.

 Booleans are encoded with 0 for true, on both sides. A binary element of a UUID subtype has a type of its
 own in the original and is an error here.
 */
module Bson {
  import opened Words
  import opened Values
  import opened Text
  import opened JsonPrinter
  import opened JsonScanner
  import opened Bcon

  const BSON_END: byte := 0x00
  const BSON_DOUBLE: byte := 0x01
  const BSON_STRING: byte := 0x02
  const BSON_MAP: byte := 0x03
  const BSON_LIST: byte := 0x04
  const BSON_DATA: byte := 0x05
  const BSON_UNDEF: byte := 0x06
  const BSON_OID: byte := 0x07
  const BSON_BOOL: byte := 0x08
  const BSON_DATETIME: byte := 0x09
  const BSON_NULL: byte := 0x0A
  const BSON_JSCODE: byte := 0x0D
  const BSON_INT32: byte := 0x10
  const BSON_INT64: byte := 0x12

  const BSON_TRUE: byte := 0x00
  const BSON_FALSE: byte := 0x01
  const BSON_GENERIC: byte := 0x00
  const BSON_OLDUUID: byte := 0x03
  const BSON_UUID: byte := 0x04

  // ---------- The writer ----------

  /** A length in a 32-bit word. */
  function Length32(n: nat): Bytes {
    Encode32(n % 0x1_0000_0000)
  }

  function TokenOf(v: Value): byte {
    match v
    case Null => BSON_NULL
    case Bool(_) => BSON_BOOL
    case Char(_) => BSON_INT32
    case Int(_) => BSON_INT32
    case UInt(_) => BSON_INT32
    case LongLong(_) => BSON_INT64
    case ULongLong(_) => BSON_INT64
    case Double(_) => BSON_DOUBLE
    case DateTime(_) => BSON_DATETIME
    case Str(_) => BSON_STRING
    case ByteArray(_) => BSON_DATA
    case List(_) => BSON_LIST
    case Map(_) => BSON_MAP
  }

  /** What follows the key. The two 64-bit integer types are sent in four bytes. */
  function Body(v: Value): Bytes
    decreases v, 0
  {
    match v
    case Null => []
    case Bool(b) => [if b then BSON_TRUE else BSON_FALSE]
    case Char(c) => Encode32(c)
    case Int(n) => Encode32(Unsigned32(n))
    case UInt(u) => Encode32(u)
    case LongLong(l) => Encode32(Unsigned64(l) % 0x1_0000_0000)
    case ULongLong(u) => Encode32(u % 0x1_0000_0000)
    case Double(bits) => Encode64(bits)
    case DateTime(ms) => Encode64(Unsigned64(ms))
    case Str(s) => Length32(|s| + 1) + s + [0]
    case ByteArray(a) => Length32(|a|) + [BSON_GENERIC] + a
    case List(vs) => Document(EncodeItems(vs, 0))
    case Map(es) => Document(EncodeMembers(es))
  }

  /** The length prefix counts itself and the end token. */
  function Document(payload: Bytes): Bytes {
    Length32(|payload| + 5) + payload + [BSON_END]
  }

  function Element(key: Bytes, v: Value): Bytes
    decreases v, 1
  {
    [TokenOf(v)] + key + [0] + Body(v)
  }

  function EncodeMembers(es: seq<Entry>): Bytes
    decreases es
  {
    if es == [] then [] else Element(es[0].key, es[0].value) + EncodeMembers(es[1..])
  }

  /** The key of a list element: its index, an unsigned 32-bit counter, in decimal. */
  function IndexKey(i: nat): Bytes {
    NumberText(i % 0x1_0000_0000)
  }

  /** The elements of a list from index i on. */
  function EncodeItems(vs: seq<Value>, i: nat): Bytes
    decreases vs
  {
    if vs == [] then []
    else Element(IndexKey(i), vs[0]) + EncodeItems(vs[1..], i + 1)
  }

  // ---------- The reader ----------

  datatype EltParsed =
    | EltFail
    | EltEnd(rest: Bytes)
    | Elt(key: Bytes, value: Value, rest: Bytes)

  /** QString::toInt: 0 for what is not a number or does not fit. */
  function ToInt(key: Bytes): int32 {
    if IntegerLength(key) == 0 || IntegerLength(key) < |key| then 0
    else
      var n := ToLongLong(key);
      if -0x8000_0000 <= n < 0x8000_0000 then n else 0
  }

  /** QList::insert: an index outside the list is moved to its nearer end. */
  function InsertAt(list: seq<Value>, i: int, v: Value): seq<Value> {
    if i <= 0 then [v] + list
    else if i >= |list| then list + [v]
    else list[..i] + [v] + list[i..]
  }

  /** The values without nested elements, from their token. */
  function ReadScalar(token: byte, b: Bytes): Parsed {
    if token == BSON_NULL || token == BSON_UNDEF then Item(Null, b)
    else if token == BSON_BOOL then
      if |b| < 1 then Fail else Item(Bool(b[0] == BSON_TRUE), b[1..])
    else if token == BSON_INT32 then
      if |b| < 4 then Fail else Item(Int(Signed32(Decode32(b[..4]))), b[4..])
    else if token == BSON_INT64 then
      if |b| < 8 then Fail else Item(LongLong(Signed64(Decode64(b[..8]))), b[8..])
    else if token == BSON_DOUBLE then
      if |b| < 8 then Fail else Item(Double(Decode64(b[..8])), b[8..])
    else if token == BSON_DATETIME then
      if |b| < 8 then Fail else Item(DateTime(Signed64(Decode64(b[..8]))), b[8..])
    else if token == BSON_STRING || token == BSON_JSCODE then
      if |b| < 4 then Fail
      else
        var len := (Decode32(b[..4]) + 0xFFFF_FFFF) % 0x1_0000_0000;
        if |b| < 4 + len + 1 then Fail else Item(Str(b[4..4 + len]), b[4 + len + 1..])
    else if token == BSON_OID then
      if |b| < 12 then Fail else Item(ByteArray(b[..12]), b[12..])
    else if token == BSON_DATA then
      if |b| < 5 then Fail
      else
        var len := Decode32(b[1..5]);
        if |b| < 5 + len || b[0] == BSON_OLDUUID || b[0] == BSON_UUID then Fail
        else Item(ByteArray(b[5..5 + len]), b[5 + len..])
    else Fail
  }

  function ParseElt(b: Bytes): (r: EltParsed)
    ensures !r.EltFail? ==> |r.rest| < |b|
    decreases |b|, 0
  {
    if b == [] then EltFail
    else if b[0] == BSON_END then EltEnd(b[1..])
    else
      match ReadKey(b[1..])
      case NoKey => EltFail
      case Key(key, rest) =>
        assert |rest| < |b[1..]|;
        var p := ParseBody(b[0], rest);
        if p.Item? then Elt(key, p.value, p.rest) else EltFail
  }

  function ParseBody(token: byte, b: Bytes): (r: Parsed)
    ensures r.Item? ==> |r.rest| <= |b|
    ensures !r.End?
    decreases |b|, 1
  {
    if token == BSON_MAP then
      if |b| < 4 then Fail else ParseMembers([], b[4..])
    else if token == BSON_LIST then
      if |b| < 4 then Fail else ParseItems([], b[4..])
    else ReadScalar(token, b)
  }

  function ParseMembers(m: seq<Entry>, b: Bytes): (r: Parsed)
    ensures r.Item? ==> |r.rest| < |b|
    ensures !r.End?
    decreases |b|, 1
  {
    match ParseElt(b)
    case EltFail => Fail
    case EltEnd(rest) => Item(Map(m), rest)
    case Elt(key, v, rest) => ParseMembers(Insert(m, key, v), rest)
  }

  function ParseItems(list: seq<Value>, b: Bytes): (r: Parsed)
    ensures r.Item? ==> |r.rest| < |b|
    ensures !r.End?
    decreases |b|, 1
  {
    match ParseElt(b)
    case EltFail => Fail
    case EltEnd(rest) => Item(List(list), rest)
    case Elt(key, v, rest) => ParseItems(InsertAt(list, ToInt(key), v), rest)
  }

  /** A whole document; its root is always read as a map. */
  function ParseDocument(b: Bytes): Parsed {
    if |b| < 4 then Fail else ParseMembers([], b[4..])
  }
}
