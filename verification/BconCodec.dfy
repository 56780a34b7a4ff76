/**
 The BCON writer and reader as they run over a stream, proved against the functions of `Bcon`.
 */
module BconCodec {
  import opened Sequences
  import opened Words
  import opened Values
  import opened Options
  import opened Text
  import opened Bcon
  import opened BconRoundTrip
  import opened BconExact
  import opened DataStream

  function KeyBytes(key: Option<Bytes>): Bytes {
    if key.Some? then key.value + [0] else []
  }

  lemma EncodeAllStep(layout: Layout, vs: seq<Value>, i: nat)
    requires i < |vs|
    ensures EncodeAll(layout, vs[..i + 1]) == EncodeAll(layout, vs[..i]) + Encode(layout, vs[i])
  {
    EncodeAllAppend(layout, vs[..i], vs[i]);
    TakeOneMore(vs, i);
  }

  lemma {:induction false} EncodeAllAppend(layout: Layout, vs: seq<Value>, v: Value)
    ensures EncodeAll(layout, vs + [v]) == EncodeAll(layout, vs) + Encode(layout, v)
  {
    if vs == [] {
      assert EncodeAll(layout, [v]) == Encode(layout, v) + [];
    } else {
      assert (vs + [v])[1..] == vs[1..] + [v];
      EncodeAllAppend(layout, vs[1..], v);
      Associative(Encode(layout, vs[0]), EncodeAll(layout, vs[1..]), Encode(layout, v));
    }
  }

  lemma EncodeEntriesStep(layout: Layout, es: seq<Entry>, i: nat)
    requires i < |es|
    ensures EncodeEntries(layout, es[..i + 1]) ==
            EncodeEntries(layout, es[..i]) + (Encode(layout, es[i].value) + es[i].key + [0])
  {
    EncodeEntriesAppend(layout, es[..i], es[i]);
    TakeOneMore(es, i);
  }

  lemma {:induction false} EncodeEntriesAppend(layout: Layout, es: seq<Entry>, e: Entry)
    ensures EncodeEntries(layout, es + [e]) == EncodeEntries(layout, es) + (Encode(layout, e.value) + e.key + [0])
  {
    var last := Encode(layout, e.value) + e.key + [0];
    if es == [] {
      assert EncodeEntries(layout, [e]) == last + [];
    } else {
      assert (es + [e])[1..] == es[1..] + [e];
      EncodeEntriesAppend(layout, es[1..], e);
      Associative(Encode(layout, es[0].value) + es[0].key + [0], EncodeEntries(layout, es[1..]), last);
    }
  }

  lemma StartElements(layout: Layout, vs: seq<Value>)
    ensures EncodeAll(layout, vs[..0]) == []
  {
  }

  lemma EndElements(layout: Layout, start: Bytes, vs: seq<Value>)
    ensures start + [TOKEN_LIST] + EncodeAll(layout, vs) + [TOKEN_END] == start + Encode(layout, List(vs))
  {
    hide EncodeAll;
    Regroup(start, [TOKEN_LIST], EncodeAll(layout, vs), [TOKEN_END]);
  }

  lemma StartEntries(layout: Layout, es: seq<Entry>)
    ensures EncodeEntries(layout, es[..0]) == []
  {
  }

  lemma EndEntries(layout: Layout, start: Bytes, es: seq<Entry>)
    ensures start + [TOKEN_MAP] + EncodeEntries(layout, es) + [TOKEN_END] == start + Encode(layout, Map(es))
  {
    hide EncodeEntries;
    Regroup(start, [TOKEN_MAP], EncodeEntries(layout, es), [TOKEN_END]);
  }

  lemma {:induction false} WrittenAllIndexed(vs: seq<Value>)
    ensures WrittenAll(vs) <==> forall i :: 0 <= i < |vs| ==> Written(vs[i])
  {
    if vs != [] {
      WrittenAllIndexed(vs[1..]);
      assert (forall i :: 0 <= i < |vs| ==> Written(vs[i])) <==>
             Written(vs[0]) && (forall i :: 0 <= i < |vs[1..]| ==> Written(vs[1..][i])) by {
        assert forall i :: 1 <= i < |vs| ==> vs[i] == vs[1..][i - 1];
      }
    }
  }

  lemma {:induction false} WrittenEntriesIndexed(es: seq<Entry>)
    ensures WrittenEntries(es) <==> forall i :: 0 <= i < |es| ==> Written(es[i].value)
  {
    if es != [] {
      WrittenEntriesIndexed(es[1..]);
      assert (forall i :: 0 <= i < |es| ==> Written(es[i].value)) <==>
             Written(es[0].value) && (forall i :: 0 <= i < |es[1..]| ==> Written(es[1..][i].value)) by {
        assert forall i :: 1 <= i < |es| ==> es[i] == es[1..][i - 1];
      }
    }
  }

  class Serializer {
    const stream: Stream
    /** `AsWritten` is the code; `Documented` sends the headers of the format description. */
    const layout: Layout

    constructor (stream: Stream, layout: Layout)
      ensures this.stream == stream && this.layout == layout
    {
      this.stream, this.layout := stream, layout;
    }

    method WriteContinuation(n: nat)
      modifies stream`written
      ensures stream.written == old(stream.written) + Continuation(layout, n)
    {
      match layout
      case Documented => stream.WriteByte(n % 0x100);
      case AsWritten => stream.Write32(n % 0x1_0000_0000);
    }

    /** The header of a string or a byte array of 64 bytes and more. */
    method WriteLongHeader(isString: bool, len: nat)
      requires LENGTH2P6 <= len < LENGTH2P36
      modifies stream`written
      ensures stream.written == old(stream.written) + Header(layout, isString, len)
    {
      hide Continuation;
      var base: byte := if isString then 0x40 else 0x00;
      if len < LENGTH2P12 {
        stream.WriteByte(base + 0x10 + len % 0x10);
        WriteContinuation(len / 0x10 % 0x100);
        Associative(old(stream.written), [base + 0x10 + len % 0x10], Continuation(layout, len / 0x10 % 0x100));
      } else if len < LENGTH2P20 {
        stream.WriteByte(base + 0x20 + len % 0x10);
        WriteContinuation(len / 0x10 % 0x100);
        WriteContinuation(len / 0x1000 % 0x100);
        Regroup(old(stream.written), [base + 0x20 + len % 0x10], Continuation(layout, len / 0x10 % 0x100),
                Continuation(layout, len / 0x1000 % 0x100));
      } else {
        var first := base + 0x30 + len % 0x10;
        stream.WriteByte(first);
        WriteContinuation(len / 0x10 % 0x100);
        WriteContinuation(len / 0x1000 % 0x100);
        Regroup(old(stream.written), [first], Continuation(layout, len / 0x10 % 0x100),
                Continuation(layout, len / 0x1000 % 0x100));
        ghost var head := [first] + Continuation(layout, len / 0x10 % 0x100) + Continuation(layout, len / 0x1000 % 0x100);
        WriteContinuation(len / 0x10_0000);
        Associative(old(stream.written), head, Continuation(layout, len / 0x10_0000));
      }
    }

    /** A string or a byte array; false where the original throws, before anything is sent. */
    method WriteBlob(isString: bool, data: Bytes) returns (ok: bool)
      modifies stream`written
      ensures ok <==> |data| < LENGTH2P36
      ensures ok ==> stream.written == old(stream.written) + (Header(layout, isString, |data|) + data)
    {
      var len := |data|;
      if len >= LENGTH2P36 {
        return false;
      }
      if len < LENGTH2P6 {
        stream.WriteByte(if isString then 0xC0 + len else ShortDataHeader(layout, len));
      } else {
        WriteLongHeader(isString, len);
      }
      Associative(old(stream.written), Header(layout, isString, len), data);
      stream.WriteBytes(data);
      ok := true;
    }

    /** A token and a word. */
    method WriteWord(token: byte, w: Bytes)
      modifies stream`written
      ensures stream.written == old(stream.written) + ([token] + w)
    {
      Associative(stream.written, [token], w);
      stream.WriteByte(token);
      stream.WriteWord(w);
    }

    /** The leaves that are a token and a word. */
    method WriteScalar(v: Value)
      requires !v.List? && !v.Map? && !v.Str? && !v.ByteArray?
      modifies stream`written
      ensures stream.written == old(stream.written) + Encode(layout, v)
    {
      hide Encode16, Encode32, Encode64, EncodeInt;
      match v
      case Null => stream.WriteByte(TOKEN_NULL);
      case Bool(b) => stream.WriteByte(if b then TOKEN_TRUE else TOKEN_FALSE);
      case Char(c) => WriteWord(TOKEN_BYTE, [c]); assert [TOKEN_BYTE] + [c] == [TOKEN_BYTE, c];
      case Int(n) => WriteInt(n);
      case UInt(u) =>
        if u < 0x1_0000 {
          WriteWord(TOKEN_UINT16, Encode16(u));
        } else {
          WriteWord(TOKEN_UINT32, Encode32(u));
        }
      case LongLong(l) => WriteWord(TOKEN_INT64, Encode64(Unsigned64(l)));
      case ULongLong(u) => WriteWord(TOKEN_UINT64, Encode64(u));
      case Double(bits) => WriteWord(TOKEN_DOUBLE, Encode64(bits));
      case DateTime(ms) => WriteWord(TOKEN_DATETIME, Encode64(Unsigned64(ms)));
    }

    method WriteInt(n: int32)
      modifies stream`written
      ensures stream.written == old(stream.written) + EncodeInt(n)
    {
      var low := n % 0x8000_0000;
      if low < 0x80 {
        WriteWord(TOKEN_BYTE, [low]);
        assert [TOKEN_BYTE] + [low] == [TOKEN_BYTE, low];
      } else if low < 0x8000 {
        WriteWord(TOKEN_INT16, Encode16(low));
      } else {
        WriteWord(TOKEN_INT32, Encode32(Unsigned32(n)));
      }
    }

    /** Sends a value, and its key after it where there is one; false where the original throws. */
    method SerializeBCON(v: Value, key: Option<Bytes>) returns (ok: bool)
      modifies stream`written
      ensures ok <==> Written(v)
      ensures ok ==> stream.written == old(stream.written) + (Encode(layout, v) + KeyBytes(key))
      decreases v, 1
    {
      ghost var start := stream.written;
      if v.List? {
        ok := SerializeList(v.elements);
      } else if v.Map? {
        ok := SerializeMap(v.entries);
      } else if v.Str? {
        ok := WriteBlob(true, v.s);
      } else if v.ByteArray? {
        ok := WriteBlob(false, v.a);
      } else {
        WriteScalar(v);
        ok := true;
      }
      if !ok {
        return;
      }
      Associative(start, Encode(layout, v), KeyBytes(key));
      if key.Some? {
        Associative(start + Encode(layout, v), key.value, [0]);
        stream.WriteBytes(key.value);
        stream.WriteByte(0);
      }
    }

    method SerializeList(elements: seq<Value>) returns (ok: bool)
      modifies stream`written
      ensures ok <==> WrittenAll(elements)
      ensures ok ==> stream.written == old(stream.written) + Encode(layout, List(elements))
      decreases elements, 0
    {
      hide Encode, Written, EncodeAll;
      ghost var start := stream.written + [TOKEN_LIST];
      StartElements(layout, elements);
      stream.WriteByte(TOKEN_LIST);
      WrittenAllIndexed(elements);
      var i := 0;
      while i < |elements|
        invariant 0 <= i <= |elements|
        invariant forall j :: 0 <= j < i ==> Written(elements[j])
        invariant stream.written == start + EncodeAll(layout, elements[..i])
      {
        ok := SerializeBCON(elements[i], None);
        if !ok {
          return;
        }
        EncodeAllStep(layout, elements, i);
        EmptyRight(Encode(layout, elements[i]));
        Associative(start, EncodeAll(layout, elements[..i]), Encode(layout, elements[i]));
        i := i + 1;
      }
      TakeAll(elements);
      EndElements(layout, old(stream.written), elements);
      stream.WriteByte(TOKEN_END);
      ok := true;
    }

    method SerializeMap(entries: seq<Entry>) returns (ok: bool)
      modifies stream`written
      ensures ok <==> WrittenEntries(entries)
      ensures ok ==> stream.written == old(stream.written) + Encode(layout, Map(entries))
      decreases entries, 0
    {
      hide Encode, Written, EncodeEntries;
      ghost var start := stream.written + [TOKEN_MAP];
      StartEntries(layout, entries);
      stream.WriteByte(TOKEN_MAP);
      WrittenEntriesIndexed(entries);
      var i := 0;
      while i < |entries|
        invariant 0 <= i <= |entries|
        invariant forall j :: 0 <= j < i ==> Written(entries[j].value)
        invariant stream.written == start + EncodeEntries(layout, entries[..i])
      {
        ok := SerializeBCON(entries[i].value, Some(entries[i].key));
        if !ok {
          return;
        }
        EncodeEntriesStep(layout, entries, i);
        Associative(Encode(layout, entries[i].value), entries[i].key, [0]);
        Associative(start, EncodeEntries(layout, entries[..i]), Encode(layout, entries[i].value) + entries[i].key + [0]);
        i := i + 1;
      }
      TakeAll(entries);
      EndEntries(layout, old(stream.written), entries);
      stream.WriteByte(TOKEN_END);
      ok := true;
    }
  }

  /** The outcome of reading one value: an error, the end token, or a value. */
  datatype Status = Error | EndToken | Got

  class Parser {
    const stream: Stream

    constructor (stream: Stream)
      ensures this.stream == stream
    {
      this.stream := stream;
    }

    /** Reads `len` bytes one at a time into a buffer. */
    method ReadBuffer(len: nat) returns (ok: bool, data: Bytes)
      modifies stream`unread
      ensures ok <==> |old(stream.unread)| >= len
      ensures ok ==> data == old(stream.unread)[..len] && stream.unread == old(stream.unread)[len..]
    {
      ghost var start := stream.unread;
      var buf := new byte[len];
      var i := 0;
      while i < len
        invariant 0 <= i <= len && i <= |start|
        invariant buf[..i] == start[..i] && stream.unread == start[i..]
      {
        var b;
        ok, b := stream.ReadByte();
        if !ok {
          return false, [];
        }
        buf[i] := b;
        i := i + 1;
      }
      ok, data := true, buf[..];
    }

    /** The length and the contents of a string or a byte array, from its header byte. */
    method ReadBlobOf(c: byte) returns (st: Status, value: Value)
      requires c >= 0x10
      modifies stream`unread
      ensures st != EndToken
      ensures var b := old(stream.unread);
              var p := if c >= 0x80 then ReadBlob(c >= 0xC0, c as int % 0x40, b) else ReadLongBlob(c, b);
              if st == Got then p == Item(value, stream.unread) else p.Fail?
    {
      var len, isString;
      if c >= 0x80 {
        len, isString := c as int % 0x40, c >= 0xC0;
      } else {
        isString := c >= 0x40;
        var ok;
        ok, len := ReadLength(c);
        if !ok {
          return Error, Null;
        }
      }
      var ok, data := ReadBuffer(len);
      if !ok {
        return Error, Null;
      }
      st, value := Got, Str(if isString then data else TextOf(data));
    }

    /** The continuation bytes of a length. */
    method ReadLength(c: byte) returns (ok: bool, len: nat)
      requires 0x10 <= c < 0x80
      modifies stream`unread
      ensures var b := old(stream.unread);
              var p := ReadLongBlob(c, b);
              if ok then p == ReadBlob(c >= 0x40, len, stream.unread) else p.Fail?
    {
      hide ReadBlob, TextOf;
      ghost var b := stream.unread;
      var b1, b2, b3;
      var form := c as int / 0x10 % 4;
      len := c as int % 0x10;
      ok := form != 0;
      if ok {
        ok, b1 := stream.ReadByte();
        len := len + 0x10 * b1 as int;
      }
      if ok && form >= 2 {
        ok, b2 := stream.ReadByte();
        len := len + 0x1000 * b2 as int;
      }
      if ok && form >= 3 {
        ok, b3 := stream.ReadByte();
        len := len + 0x10_0000 * b3 as int;
      }
      if ok {
        assert stream.unread == b[form..];
      }
    }

    method ReadScalar(c: byte) returns (st: Status, value: Value)
      requires TOKEN_BYTE <= c <= TOKEN_DATETIME
      modifies stream`unread
      ensures st != EndToken
      ensures var p := ReadWord(c, old(stream.unread));
              if st == Got then p == Item(value, stream.unread) else p.Fail?
    {
      var size := if c == TOKEN_BYTE then 1 else if c <= TOKEN_UINT16 then 2 else if c <= TOKEN_UINT32 then 4 else 8;
      var ok, w := stream.ReadWord(size);
      if !ok {
        return Error, Null;
      }
      st := Got;
      value :=
        if c == TOKEN_BYTE then Int(w[0])
        else if c == TOKEN_INT16 then Int(Signed16(Decode16(w)))
        else if c == TOKEN_UINT16 then Int(Decode16(w))
        else if c == TOKEN_INT32 then Int(Signed32(Decode32(w)))
        else if c == TOKEN_UINT32 then UInt(Decode32(w))
        else if c == TOKEN_INT64 then LongLong(Signed64(Decode64(w)))
        else if c == TOKEN_UINT64 then ULongLong(Decode64(w))
        else if c == TOKEN_DOUBLE then Double(Decode64(w))
        else DateTime(Signed64(Decode64(w)));
    }

    method ReadKeyBytes() returns (ok: bool, key: Bytes)
      modifies stream`unread
      ensures var k := ReadKey(old(stream.unread));
              if ok then k == Key(key, stream.unread) else k.NoKey?
    {
      ghost var start, raw := stream.unread, [];
      key := [];
      var c: byte;
      ok, c := stream.ReadByte();
      while ok && c != 0
        invariant ok ==> start == raw + [c] + stream.unread && 0 !in raw && key == Widened(raw)
        invariant !ok ==> 0 !in start
        decreases ok, |stream.unread|
      {
        ghost var before := raw + [c];
        WidenedAppend(raw, c);
        key := key + Utf8(c);
        raw := before;
        ok, c := stream.ReadByte();
        if !ok {
          assert start == before;
        }
      }
      if ok {
        ReadKeyBack(raw, stream.unread);
      }
    }

    /** Reads a value and, when asked, the key after it. Nothing is read after an end token. */
    method ParseBCON(withKey: bool) returns (st: Status, value: Value, key: Bytes)
      modifies stream`unread
      ensures match Parse(old(stream.unread))
              case Fail => st == Error
              case End(rest) => st == EndToken && stream.unread == rest
              case Item(v, rest) =>
                if !withKey then st == Got && value == v && stream.unread == rest
                else if ReadKey(rest).NoKey? then st == Error
                else st == Got && value == v && ReadKey(rest) == Key(key, stream.unread)
      decreases |stream.unread|, 0
    {
      key := [];
      var ok, c := stream.ReadByte();
      if !ok {
        return Error, Null, [];
      }
      if c >= 0x10 {
        st, value := ReadBlobOf(c);
      } else if c == TOKEN_END {
        return EndToken, Null, [];
      } else if c == TOKEN_NULL {
        st, value := Got, Null;
      } else if c == TOKEN_TRUE {
        st, value := Got, Bool(true);
      } else if c == TOKEN_FALSE {
        st, value := Got, Bool(false);
      } else if c == TOKEN_LIST {
        st, value := ParseElements();
      } else if c == TOKEN_MAP {
        st, value := ParseMembers();
      } else if c == 0x0D {
        st, value := Error, Null;
      } else {
        st, value := ReadScalar(c);
      }
      assert if st == Got then Parse(old(stream.unread)) == Item(value, stream.unread) else Parse(old(stream.unread)).Fail?;
      if st == Got && withKey {
        ok, key := ReadKeyBytes();
        if !ok {
          st := Error;
        }
      }
    }

    method ParseElements() returns (st: Status, value: Value)
      modifies stream`unread
      ensures st != EndToken
      ensures var p := ParseList([], old(stream.unread));
              if st == Got then p == Item(value, stream.unread) else p.Fail?
      decreases |stream.unread|, 1
    {
      var list: seq<Value> := [];
      while true
        invariant |stream.unread| <= |old(stream.unread)|
        invariant ParseList(list, stream.unread) == ParseList([], old(stream.unread))
        decreases |stream.unread|
      {
        var v, k;
        st, v, k := ParseBCON(false);
        if st == Error {
          return Error, Null;
        } else if st == EndToken {
          return Got, List(list);
        }
        list := list + [v];
      }
    }

    method ParseMembers() returns (st: Status, value: Value)
      modifies stream`unread
      ensures st != EndToken
      ensures var p := ParseMap([], old(stream.unread));
              if st == Got then p == Item(value, stream.unread) else p.Fail?
      decreases |stream.unread|, 1
    {
      var m: seq<Entry> := [];
      while true
        invariant |stream.unread| <= |old(stream.unread)|
        invariant ParseMap(m, stream.unread) == ParseMap([], old(stream.unread))
        decreases |stream.unread|
      {
        var v, k;
        st, v, k := ParseBCON(true);
        if st == Error {
          return Error, Null;
        } else if st == EndToken {
          return Got, Map(m);
        }
        m := Insert(m, k, v);
      }
    }
  }

  /**
     Writing a value with safe lengths and keys and reading it back, on hosts of either byte order: the
     reader receives every part of it, in normal form exactly when the numbers are safe too, and leaves
     exactly what followed.
   */
  method WriteThenRead(layout: Layout, v: Value, writerLittle: bool, readerLittle: bool, trailer: Bytes)
    returns (st: Status, value: Value, rest: Bytes)
    requires Valid(v) && SafeLengths(layout, v) && NulFree(v)
    ensures st == Got && value == Received(v) && rest == trailer
    ensures value == Norm(v) <==> SafeInts(v)
  {
    hide Encode, Bcon.Parse, SafeLengths, Received, Norm;
    var output := new Stream(writerLittle, []);
    var serializer := new Serializer(output, layout);
    Arrives(layout, v, trailer);
    ReceivedExact(v);
    SafeIsWritten(layout, v);
    var ok := serializer.SerializeBCON(v, None);
    assert output.written == Encode(layout, v) by {
      EmptyRight(Encode(layout, v));
      EmptyLeft(Encode(layout, v));
    }
    var input := new Stream(readerLittle, output.written + trailer);
    var parser := new Parser(input);
    var key;
    st, value, key := parser.ParseBCON(false);
    rest := input.unread;
  }

  lemma {:induction false} SafeIsWritten(layout: Layout, v: Value)
    requires SafeLengths(layout, v)
    ensures Written(v)
    decreases v, 1
  {
    if v.List? {
      SafeAllIsWritten(layout, v.elements);
    } else if v.Map? {
      SafeEntriesIsWritten(layout, v.entries);
    }
  }

  lemma {:induction false} SafeAllIsWritten(layout: Layout, vs: seq<Value>)
    requires SafeLengthsAll(layout, vs)
    ensures WrittenAll(vs)
    decreases vs, 0
  {
    if vs != [] {
      SafeIsWritten(layout, vs[0]);
      SafeAllIsWritten(layout, vs[1..]);
    }
  }

  lemma {:induction false} SafeEntriesIsWritten(layout: Layout, es: seq<Entry>)
    requires SafeLengthsEntries(layout, es)
    ensures WrittenEntries(es)
    decreases es, 0
  {
    if es != [] {
      SafeIsWritten(layout, es[0].value);
      SafeEntriesIsWritten(layout, es[1..]);
    }
  }
}
