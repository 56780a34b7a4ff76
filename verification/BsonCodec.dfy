/**
 The BSON writer and reader as they run over streams, proved against the functions of `Bson`.
 */
module BsonCodec {
  import opened Sequences
  import opened Words
  import opened Values
  import opened Text
  import opened DataStream
  import opened JsonPrinter
  import opened Bson
  import Bcon
  import BconCodec
  import BsonRoundTrip

  // ---------- The writer ----------

  lemma {:induction false} MembersAppend(es: seq<Entry>, e: Entry)
    ensures EncodeMembers(es + [e]) == EncodeMembers(es) + Element(e.key, e.value)
  {
    if es == [] {
      assert es + [e] == [e] && [e][1..] == [];
      EmptyRight(Element(e.key, e.value));
      EmptyLeft(Element(e.key, e.value));
    } else {
      assert (es + [e])[1..] == es[1..] + [e];
      MembersAppend(es[1..], e);
      Associative(Element(es[0].key, es[0].value), EncodeMembers(es[1..]), Element(e.key, e.value));
    }
  }

  lemma {:induction false} ItemsAppend(vs: seq<Value>, v: Value, i: nat)
    ensures EncodeItems(vs + [v], i) == EncodeItems(vs, i) + Element(IndexKey(i + |vs|), v)
  {
    hide Element, IndexKey;
    var last := Element(IndexKey(i + |vs|), v);
    if vs == [] {
      assert vs + [v] == [v] && [v][1..] == [];
      EmptyRight(last);
      EmptyLeft(last);
    } else {
      assert (vs + [v])[1..] == vs[1..] + [v];
      ItemsAppend(vs[1..], v, i + 1);
      Associative(Element(IndexKey(i), vs[0]), EncodeItems(vs[1..], i + 1), last);
    }
  }

  class Serializer {
    /** The byte order of the host, which every local stream shares. */
    const littleEndianHost: bool

    constructor (littleEndianHost: bool)
      ensures this.littleEndianHost == littleEndianHost
    {
      this.littleEndianHost := littleEndianHost;
    }

    /** The document of a map or a list, through a stream of its own. */
    method SerializeBSONDocument(v: Value) returns (ret: Bytes)
      requires v.Map? || v.List?
      ensures ret == Body(v)
      decreases v, 0
    {
      var payload := new Stream(littleEndianHost, []);
      if v.Map? {
        WriteMembers(payload, v.entries);
      } else {
        WriteItems(payload, v.elements);
      }
      var document := new Stream(littleEndianHost, []);
      document.Write32((|payload.written| + 5) % 0x1_0000_0000);
      document.WriteBytes(payload.written);
      document.WriteByte(BSON_END);
      ret := document.written;
      EmptyLeft(Length32(|payload.written| + 5));
    }

    method WriteMembers(stream: Stream, es: seq<Entry>)
      requires stream.written == []
      modifies stream`written
      ensures stream.written == EncodeMembers(es)
      decreases es
    {
      var i := 0;
      while i < |es|
        invariant 0 <= i <= |es| && stream.written == EncodeMembers(es[..i])
      {
        MembersAppend(es[..i], es[i]);
        TakeOneMore(es, i);
        SerializeBSONElt(stream, es[i].value, es[i].key);
        i := i + 1;
      }
      TakeAll(es);
    }

    method WriteItems(stream: Stream, vs: seq<Value>)
      requires stream.written == []
      modifies stream`written
      ensures stream.written == EncodeItems(vs, 0)
      decreases vs
    {
      var i := 0;
      while i < |vs|
        invariant 0 <= i <= |vs| && stream.written == EncodeItems(vs[..i], 0)
      {
        ItemsAppend(vs[..i], vs[i], 0);
        TakeOneMore(vs, i);
        SerializeBSONElt(stream, vs[i], IndexKey(i));
        i := i + 1;
      }
      TakeAll(vs);
    }

    method SerializeBSONElt(stream: Stream, v: Value, key: Bytes)
      modifies stream`written
      ensures stream.written == old(stream.written) + Element(key, v)
      decreases v, 1
    {
      ghost var start := stream.written;
      stream.WriteByte(TokenOf(v));
      stream.WriteBytes(key);
      stream.WriteByte(0);
      ghost var head := stream.written;
      if v.List? || v.Map? {
        var document := SerializeBSONDocument(v);
        stream.WriteBytes(document);
      } else {
        WriteScalar(stream, v);
      }
      assert stream.written == head + Body(v);
      ElementParts(start, key, v);
    }

    method WriteScalar(stream: Stream, v: Value)
      requires !v.List? && !v.Map?
      modifies stream`written
      ensures stream.written == old(stream.written) + Body(v)
    {
      ghost var start := stream.written;
      if v.Null? {
        EmptyRight(start);
      } else if v.Bool? {
        stream.WriteByte(if v.b then BSON_TRUE else BSON_FALSE);
      } else if v.Char? {
        stream.Write32(v.c);
      } else if v.Int? {
        stream.Write32(Unsigned32(v.i));
      } else if v.UInt? {
        stream.Write32(v.u);
      } else if v.LongLong? {
        stream.Write32(Unsigned64(v.l) % 0x1_0000_0000);
      } else if v.ULongLong? {
        stream.Write32(v.ul % 0x1_0000_0000);
      } else if v.Double? {
        stream.Write64(v.bits);
      } else if v.DateTime? {
        stream.Write64(Unsigned64(v.msecs));
      } else if v.Str? {
        stream.Write32((|v.s| + 1) % 0x1_0000_0000);
        stream.WriteBytes(v.s);
        stream.WriteByte(0);
        Regroup(start, Length32(|v.s| + 1), v.s, [0]);
      } else {
        stream.Write32(|v.a| % 0x1_0000_0000);
        stream.WriteByte(BSON_GENERIC);
        stream.WriteBytes(v.a);
        Regroup(start, Length32(|v.a|), [BSON_GENERIC], v.a);
      }
    }
  }

  lemma ElementParts(start: Bytes, key: Bytes, v: Value)
    ensures start + [TokenOf(v)] + key + [0] + Body(v) == start + Element(key, v)
  {
    hide Body;
  }

  // ---------- The reader ----------

  datatype Status = Error | EndToken | Got

  class Parser {
    const stream: Stream
    /** Reads single bytes, buffers and keys. */
    const raw: BconCodec.Parser

    constructor (stream: Stream)
      ensures this.stream == stream && raw.stream == stream
    {
      this.stream := stream;
      raw := new BconCodec.Parser(stream);
    }

    method ParseBSONDocument() returns (ok: bool, value: Value)
      requires raw.stream == stream
      modifies stream`unread
      ensures var p := ParseDocument(old(stream.unread));
              if ok then p == Bcon.Item(value, stream.unread) else p.Fail?
    {
      var length;
      ok, length := stream.ReadWord(4);
      if ok {
        ok, value := ParseMap();
      } else {
        value := Null;
      }
    }

    method ParseMap() returns (ok: bool, value: Value)
      requires raw.stream == stream
      modifies stream`unread
      ensures var p := ParseMembers([], old(stream.unread));
              if ok then p == Bcon.Item(value, stream.unread) else p.Fail?
      decreases |stream.unread|, 1
    {
      var m: seq<Entry> := [];
      while true
        invariant |stream.unread| <= |old(stream.unread)|
        invariant ParseMembers(m, stream.unread) == ParseMembers([], old(stream.unread))
        decreases |stream.unread|
      {
        var st, key, v := ParseBSONElt();
        if st == Error {
          return false, Null;
        } else if st == EndToken {
          return true, Map(m);
        }
        m := Insert(m, key, v);
      }
    }

    method ParseList() returns (ok: bool, value: Value)
      requires raw.stream == stream
      modifies stream`unread
      ensures var p := ParseItems([], old(stream.unread));
              if ok then p == Bcon.Item(value, stream.unread) else p.Fail?
      decreases |stream.unread|, 1
    {
      var list: seq<Value> := [];
      while true
        invariant |stream.unread| <= |old(stream.unread)|
        invariant ParseItems(list, stream.unread) == ParseItems([], old(stream.unread))
        decreases |stream.unread|
      {
        var st, key, v := ParseBSONElt();
        if st == Error {
          return false, Null;
        } else if st == EndToken {
          return true, List(list);
        }
        list := InsertAt(list, ToInt(key), v);
      }
    }

    method ParseBSONElt() returns (st: Status, key: Bytes, value: Value)
      requires raw.stream == stream
      modifies stream`unread
      ensures match ParseElt(old(stream.unread))
              case EltFail => st == Error
              case EltEnd(rest) => st == EndToken && stream.unread == rest
              case Elt(k, v, rest) => st == Got && key == k && value == v && stream.unread == rest
      decreases |stream.unread|, 0
    {
      key, value := [], Null;
      var ok, token := stream.ReadByte();
      if !ok {
        return Error, key, value;
      }
      if token == BSON_END {
        return EndToken, key, value;
      }
      assert stream.unread == old(stream.unread)[1..];
      ok, key := raw.ReadKeyBytes();
      if !ok {
        return Error, key, value;
      }
      ok, value := ReadValue(token);
      st := if ok then Got else Error;
    }

    method ReadValue(token: byte) returns (ok: bool, value: Value)
      requires raw.stream == stream
      modifies stream`unread
      ensures var p := ParseBody(token, old(stream.unread));
              if ok then p == Bcon.Item(value, stream.unread) else p.Fail?
      decreases |stream.unread|, 2
    {
      hide ReadScalar;
      value := Null;
      if token == BSON_MAP || token == BSON_LIST {
        var length;
        ok, length := stream.ReadWord(4);
        if ok && token == BSON_MAP {
          ok, value := ParseMap();
        } else if ok {
          ok, value := ParseList();
        }
      } else {
        ok, value := ReadBody(token);
      }
    }

    method ReadBody(token: byte) returns (ok: bool, value: Value)
      requires raw.stream == stream
      modifies stream`unread
      ensures var p := ReadScalar(token, old(stream.unread));
              if ok then p == Bcon.Item(value, stream.unread) else p.Fail?
    {
      value := Null;
      var w;
      if token == BSON_NULL || token == BSON_UNDEF {
        ok := true;
      } else if token == BSON_BOOL {
        var b;
        ok, b := stream.ReadByte();
        value := Bool(b == BSON_TRUE);
      } else if token == BSON_INT32 {
        ok, w := stream.ReadWord(4);
        value := if ok then Int(Signed32(Decode32(w))) else Null;
      } else if token == BSON_INT64 || token == BSON_DOUBLE || token == BSON_DATETIME {
        ok, w := stream.ReadWord(8);
        value := if !ok then Null
                 else if token == BSON_INT64 then LongLong(Signed64(Decode64(w)))
                 else if token == BSON_DOUBLE then Double(Decode64(w))
                 else DateTime(Signed64(Decode64(w)));
      } else if token == BSON_STRING || token == BSON_JSCODE {
        ok, value := ReadText();
      } else if token == BSON_OID {
        ok, w := raw.ReadBuffer(12);
        value := ByteArray(w);
      } else if token == BSON_DATA {
        ok, value := ReadData();
      } else {
        ok := false;
      }
    }

    method ReadText() returns (ok: bool, value: Value)
      requires raw.stream == stream
      modifies stream`unread
      ensures var p := ReadScalar(BSON_STRING, old(stream.unread));
              if ok then p == Bcon.Item(value, stream.unread) else p.Fail?
    {
      ghost var b := stream.unread;
      value := Null;
      var w, data, nul;
      ok, w := stream.ReadWord(4);
      if !ok {
        return;
      }
      var len := (Decode32(w) + 0xFFFF_FFFF) % 0x1_0000_0000;
      ok, data := raw.ReadBuffer(len);
      if !ok {
        return;
      }
      ok, nul := stream.ReadByte();
      value := Str(data);
      assert data == b[4..4 + len];
      if ok {
        assert stream.unread == b[4 + len + 1..];
      }
    }

    method ReadData() returns (ok: bool, value: Value)
      requires raw.stream == stream
      modifies stream`unread
      ensures var p := ReadScalar(BSON_DATA, old(stream.unread));
              if ok then p == Bcon.Item(value, stream.unread) else p.Fail?
    {
      ghost var b := stream.unread;
      value := Null;
      var subtype, w, data;
      ok, subtype := stream.ReadByte();
      if !ok {
        return;
      }
      ok, w := stream.ReadWord(4);
      if !ok {
        return;
      }
      assert w == b[1..5];
      var len := Decode32(w);
      ok, data := raw.ReadBuffer(len);
      if !ok {
        return;
      }
      assert data == b[5..5 + len] && stream.unread == b[5 + len..];
      value := ByteArray(data);
      ok := subtype != BSON_OLDUUID && subtype != BSON_UUID;
    }
  }

  /** Writing a root map and reading the bytes back, on hosts of either byte order. */
  method WriteThenRead(es: seq<Entry>, writerLittle: bool, readerLittle: bool) returns (ok: bool, value: Value)
    requires Valid(Map(es)) && BsonRoundTrip.BsonSafe(Map(es))
    ensures ok && value == BsonRoundTrip.Norm(Map(es))
  {
    var serializer := new Serializer(writerLittle);
    var bytes := serializer.SerializeBSONDocument(Map(es));
    BsonRoundTrip.DocumentRoundTrip(es, []);
    EmptyRight(bytes);
    var input := new Stream(readerLittle, bytes);
    var parser := new Parser(input);
    ok, value := parser.ParseBSONDocument();
  }
}
