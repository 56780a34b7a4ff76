/**
 BCON round trips: what the reader makes of what the writer sent, whatever bytes follow.
 */
module BconRoundTrip {
  import opened Words
  import opened Values
  import opened Text
  import opened Bcon
  import opened Sequences

  /**
     The value that the reader can be expected to return: bytes and small unsigned integers become Int, byte
     arrays become strings, and keys, which are read byte by byte, are widened.
   */
  function Norm(v: Value): Value
    decreases v
  {
    match v
    case Char(c) => Int(c)
    case UInt(u) => if u < 0x1_0000 then Int(u) else v
    case ByteArray(a) => Str(TextOf(a))
    case List(vs) => List(NormAll(vs))
    case Map(es) => Map(NormEntries(es))
    case _ => v
  }

  function NormAll(vs: seq<Value>): seq<Value>
    decreases vs
  {
    if vs == [] then [] else [Norm(vs[0])] + NormAll(vs[1..])
  }

  function NormEntries(es: seq<Entry>): seq<Entry>
    decreases es
  {
    if es == [] then [] else [Entry(Widened(es[0].key), Norm(es[0].value))] + NormEntries(es[1..])
  }

  /** What does arrive: the same, but for the numbers whose sign the writer's masks lose. */
  function Received(v: Value): Value
    decreases v
  {
    match v
    case Int(n) => Int(if SafeInt(n) then n else n + 0x8000_0000)
    case List(vs) => List(ReceivedAll(vs))
    case Map(es) => Map(ReceivedEntries(es))
    case _ => Norm(v)
  }

  function ReceivedAll(vs: seq<Value>): seq<Value>
    decreases vs
  {
    if vs == [] then [] else [Received(vs[0])] + ReceivedAll(vs[1..])
  }

  function ReceivedEntries(es: seq<Entry>): seq<Entry>
    decreases es
  {
    if es == [] then [] else [Entry(Widened(es[0].key), Received(es[0].value))] + ReceivedEntries(es[1..])
  }

  // What a caller can check before writing.

  /** The lengths whose header the reader understands. */
  predicate SafeLength(layout: Layout, isString: bool, len: nat) {
    match layout
    case Documented => len < LENGTH2P28
    case AsWritten => len < LENGTH2P6 && (isString || 32 <= len)
  }

  predicate SafeLengths(layout: Layout, v: Value)
    decreases v
  {
    match v
    case Str(s) => SafeLength(layout, true, |s|)
    case ByteArray(a) => SafeLength(layout, false, |a|)
    case List(vs) => SafeLengthsAll(layout, vs)
    case Map(es) => SafeLengthsEntries(layout, es)
    case _ => true
  }

  predicate SafeLengthsAll(layout: Layout, vs: seq<Value>)
    decreases vs
  {
    vs == [] || (SafeLengths(layout, vs[0]) && SafeLengthsAll(layout, vs[1..]))
  }

  predicate SafeLengthsEntries(layout: Layout, es: seq<Entry>)
    decreases es
  {
    es == [] || (SafeLengths(layout, es[0].value) && SafeLengthsEntries(layout, es[1..]))
  }

  /** Outside the window in which the writer's masks lose the sign. */
  predicate SafeInt(n: int32) {
    -0x8000_0000 + 0x8000 <= n
  }

  predicate SafeInts(v: Value)
    decreases v
  {
    match v
    case Int(n) => SafeInt(n)
    case List(vs) => SafeIntsAll(vs)
    case Map(es) => SafeIntsEntries(es)
    case _ => true
  }

  predicate SafeIntsAll(vs: seq<Value>)
    decreases vs
  {
    vs == [] || (SafeInts(vs[0]) && SafeIntsAll(vs[1..]))
  }

  predicate SafeIntsEntries(es: seq<Entry>)
    decreases es
  {
    es == [] || (SafeInts(es[0].value) && SafeIntsEntries(es[1..]))
  }

  /** No key in the value holds a NUL. */
  predicate NulFree(v: Value)
    decreases v
  {
    match v
    case List(vs) => NulFreeAll(vs)
    case Map(es) => NulFreeEntries(es)
    case _ => true
  }

  predicate NulFreeAll(vs: seq<Value>)
    decreases vs
  {
    vs == [] || (NulFree(vs[0]) && NulFreeAll(vs[1..]))
  }

  predicate NulFreeEntries(es: seq<Entry>)
    decreases es
  {
    es == [] || (NulFree(es[0].value) && 0 !in es[0].key && NulFreeEntries(es[1..]))
  }

  predicate WireSafe(layout: Layout, v: Value) {
    SafeLengths(layout, v) && SafeInts(v) && NulFree(v)
  }

  // ---------- Leaves ----------

  lemma BlobRoundTrip(layout: Layout, isString: bool, s: Bytes, t: Bytes)
    requires SafeLength(layout, isString, |s|)
    ensures Parse(Header(layout, isString, |s|) + s + t) == Item(Str(if isString then s else TextOf(s)), t)
  {
    var h := Header(layout, isString, |s|);
    Associative(h, s, t);
    Split(s, t);
    if |s| < LENGTH2P6 {
      Split(h, s + t);
    } else {
      LongBlobRoundTrip(isString, s, t);
    }
  }

  lemma LongBlobRoundTrip(isString: bool, s: Bytes, t: Bytes)
    requires LENGTH2P6 <= |s| < LENGTH2P28
    ensures Parse(Header(Documented, isString, |s|) + (s + t)) == Item(Str(if isString then s else TextOf(s)), t)
  {
    hide TextOf;
    var h := Header(Documented, isString, |s|);
    var b := h + (s + t);
    LongHeader(isString, |s|);
    assert b[1..][|h| - 1..] == s + t;
    assert forall i :: 1 <= i < |h| ==> b[1..][i - 1] == h[i];
    hide Header;
    Split(s, t);
    assert Parse(b) == ReadLongBlob(h[0], b[1..]);
  }

  /** The length that the reader assembles from a documented long header is the original one. */
  lemma LongHeader(isString: bool, len: nat)
    requires LENGTH2P6 <= len < LENGTH2P28
    ensures var h := Header(Documented, isString, len);
            && 0x10 <= h[0] < 0x80 && (h[0] >= 0x40 <==> isString)
            && h[0] as int / 0x10 % 4 == |h| - 1 && 2 <= |h| <= 4
            && len == h[0] as int % 0x10 + 0x10 * h[1] as int
                      + (if |h| >= 3 then 0x1000 * h[2] as int else 0)
                      + (if |h| >= 4 then 0x10_0000 * h[3] as int else 0)
  {
    LengthDigits(len);
    LongHeaderBytes(isString, len);
    FormDigits(if isString then 0x40 else 0, LongForm(len), len % 0x10);
    hide Header;
  }

  function LongForm(len: nat): nat {
    if len < LENGTH2P12 then 1 else if len < LENGTH2P20 then 2 else 3
  }

  lemma LongHeaderBytes(isString: bool, len: nat)
    requires LENGTH2P6 <= len < LENGTH2P28
    ensures var h := Header(Documented, isString, len);
            && |h| == LongForm(len) + 1
            && h[0] == (if isString then 0x40 else 0) + 0x10 * LongForm(len) + len % 0x10
            && h[1] == len / 0x10 % 0x100
            && (|h| >= 3 ==> h[2] == len / 0x1000 % 0x100)
            && (|h| >= 4 ==> h[3] == len / 0x10_0000 % 0x100)
  {
  }

  /** The fields of the first byte of a long header. */
  lemma FormDigits(base: nat, form: nat, lo: nat)
    requires base == 0x40 || base == 0
    requires 1 <= form <= 3 && lo < 0x10
    ensures var c := base + 0x10 * form + lo;
            0x10 <= c < 0x80 && (c >= 0x40 <==> base == 0x40) && c / 0x10 % 4 == form && c % 0x10 == lo
  {
  }

  lemma LengthDigits(len: nat)
    requires len < LENGTH2P28
    ensures len == len % 0x10 + 0x10 * (len / 0x10 % 0x100) + 0x1000 * (len / 0x1000 % 0x100) + 0x10_0000 * (len / 0x10_0000)
    ensures len < LENGTH2P20 ==> len / 0x10_0000 == 0
    ensures len < LENGTH2P12 ==> len / 0x1000 == 0
    ensures len / 0x10_0000 < 0x100
  {
    assert len / 0x10 / 0x100 == len / 0x1000;
    assert len / 0x1000 / 0x100 == len / 0x10_0000;
  }

  /** Every Int outside the window comes back; inside it, the number comes back 2^31 higher. */
  lemma IntRoundTrip(n: int32, t: Bytes)
    ensures Parse(EncodeInt(n) + t) == Item(Int(if SafeInt(n) then n else n + 0x8000_0000), t)
  {
    var low := n % 0x8000_0000;
    var b := EncodeInt(n) + t;
    if low < 0x80 {
      assert b[1..] == [low] + t;
    } else if low < 0x8000 {
      assert b[1..] == Encode16(low) + t;
      Decode16Encode(low, t);
    } else {
      assert b[1..] == Encode32(Unsigned32(n)) + t;
      Decode32Encode(Unsigned32(n), t);
    }
  }

  lemma WordRoundTrip(token: byte, w: uint64, t: Bytes)
    requires TOKEN_INT64 <= token <= TOKEN_DATETIME
    ensures Parse([token] + Encode64(w) + t) == ReadWord(token, Encode64(w) + t)
    ensures |Encode64(w)| == 8 && Decode64((Encode64(w) + t)[..8]) == w && (Encode64(w) + t)[8..] == t
  {
    assert ([token] + Encode64(w) + t)[1..] == Encode64(w) + t;
    Decode64Encode(w, t);
  }

  lemma UIntRoundTrip(layout: Layout, u: uint32, t: Bytes)
    ensures Parse(Encode(layout, UInt(u)) + t) == Item(Norm(UInt(u)), t)
  {
    var b := Encode(layout, UInt(u)) + t;
    if u < 0x1_0000 {
      assert b[1..] == Encode16(u) + t;
      Decode16Encode(u, t);
    } else {
      assert b[1..] == Encode32(u) + t;
      Decode32Encode(u, t);
    }
  }

  lemma LongWordRoundTrip(layout: Layout, v: Value, t: Bytes)
    requires v.LongLong? || v.ULongLong? || v.Double? || v.DateTime?
    ensures Parse(Encode(layout, v) + t) == Item(v, t)
  {
    hide Parse, Encode64, Decode64;
    if v.LongLong? {
      WordRoundTrip(TOKEN_INT64, Unsigned64(v.l), t);
    } else if v.ULongLong? {
      WordRoundTrip(TOKEN_UINT64, v.ul, t);
    } else if v.Double? {
      WordRoundTrip(TOKEN_DOUBLE, v.bits, t);
    } else {
      WordRoundTrip(TOKEN_DATETIME, Unsigned64(v.msecs), t);
    }
  }

  lemma LeafRoundTrip(layout: Layout, v: Value, t: Bytes)
    requires !v.List? && !v.Map? && SafeLengths(layout, v)
    ensures Parse(Encode(layout, v) + t) == Item(Received(v), t)
  {
    hide Parse, TextOf, EncodeInt, Header;
    if v.Int? {
      IntRoundTrip(v.i, t);
    } else if v.UInt? {
      UIntRoundTrip(layout, v.u, t);
    } else if v.Str? {
      BlobRoundTrip(layout, true, v.s, t);
    } else if v.ByteArray? {
      BlobRoundTrip(layout, false, v.a, t);
    } else if v.Char? || v.Null? || v.Bool? {
      ShortRoundTrip(layout, v, t);
    } else {
      LongWordRoundTrip(layout, v, t);
    }
  }

  lemma ShortRoundTrip(layout: Layout, v: Value, t: Bytes)
    requires v.Char? || v.Null? || v.Bool?
    ensures Parse(Encode(layout, v) + t) == Item(Norm(v), t)
  {
    if v.Char? {
      assert (Encode(layout, v) + t)[1..] == [v.c] + t;
    } else {
      assert (Encode(layout, v) + t)[1..] == t;
    }
  }

  // ---------- Nested values ----------

  lemma {:induction false} ReadKeyBack(key: Bytes, t: Bytes)
    requires 0 !in key
    ensures ReadKey(key + [0] + t) == Key(Widened(key), t)
  {
    var b := key + [0] + t;
    if key == [] {
      assert b[1..] == t;
    } else {
      assert b[1..] == key[1..] + [0] + t;
      ReadKeyBack(key[1..], t);
    }
  }

  lemma OpenList(layout: Layout, vs: seq<Value>, t: Bytes)
    ensures Parse(Encode(layout, List(vs)) + t) == ParseList([], EncodeAll(layout, vs) + [0] + t)
  {
    hide EncodeAll, ParseList;
    var body := EncodeAll(layout, vs);
    Regroup([TOKEN_LIST], body, [TOKEN_END], t);
    Split([TOKEN_LIST], body + [0] + t);
  }

  lemma OpenMap(layout: Layout, es: seq<Entry>, t: Bytes)
    ensures Parse(Encode(layout, Map(es)) + t) == ParseMap([], EncodeEntries(layout, es) + [0] + t)
  {
    hide EncodeEntries, ParseMap;
    var body := EncodeEntries(layout, es);
    Regroup([TOKEN_MAP], body, [TOKEN_END], t);
    Split([TOKEN_MAP], body + [0] + t);
  }

  lemma CloseMap(m: seq<Entry>, t: Bytes)
    ensures ParseMap(m, [0] + t) == Item(Map(m), t)
  {
    assert ([0] + t)[1..] == t;
  }

  lemma CloseList(list: seq<Value>, t: Bytes)
    ensures ParseList(list, [0] + t) == Item(List(list), t)
  {
    assert ([0] + t)[1..] == t;
  }

  /**
     With lengths that the reader understands and keys without NUL, the reader receives every part of the
     value and stops exactly where the writer did.
   */
  lemma {:induction false} Arrives(layout: Layout, v: Value, t: Bytes)
    requires Valid(v) && SafeLengths(layout, v) && NulFree(v)
    ensures Parse(Encode(layout, v) + t) == Item(Received(v), t)
    decreases v, 1
  {
    hide Parse, Encode, ParseList, ParseMap;
    if v.List? {
      OpenList(layout, v.elements, t);
      ListRoundTrip(layout, [], v.elements, t);
      EmptyLeft(ReceivedAll(v.elements));
    } else if v.Map? {
      OpenMap(layout, v.entries, t);
      MapRoundTrip(layout, [], v.entries, t);
      EmptyLeft(ReceivedEntries(v.entries));
    } else {
      LeafRoundTrip(layout, v, t);
    }
  }

  lemma {:induction false} ListRoundTrip(layout: Layout, list: seq<Value>, vs: seq<Value>, t: Bytes)
    requires ValidAll(vs) && SafeLengthsAll(layout, vs) && NulFreeAll(vs)
    ensures ParseList(list, EncodeAll(layout, vs) + [0] + t) == Item(List(list + ReceivedAll(vs)), t)
    decreases vs, 0
  {
    hide Parse, Encode, Received;
    var b := EncodeAll(layout, vs) + [0] + t;
    if vs == [] {
      CloseList(list, t);
      assert b == [0] + t && list + [] == list;
    } else {
      var rest := EncodeAll(layout, vs[1..]) + [0] + t;
      assert b == Encode(layout, vs[0]) + rest;
      Arrives(layout, vs[0], rest);
      ListRoundTrip(layout, list + [Received(vs[0])], vs[1..], t);
      Associative(list, [Received(vs[0])], ReceivedAll(vs[1..]));
    }
  }

  lemma {:induction false} MapRoundTrip(layout: Layout, m: seq<Entry>, es: seq<Entry>, t: Bytes)
    requires Sorted(es) && ValidEntries(es) && SafeLengthsEntries(layout, es) && NulFreeEntries(es)
    requires forall x, e :: x in m && e in es ==> Less(x.key, Widened(e.key))
    ensures ParseMap(m, EncodeEntries(layout, es) + [0] + t) == Item(Map(m + ReceivedEntries(es)), t)
    decreases es, 0
  {
    hide Parse, Encode, Received, Insert, Less, SafeLengths, NulFree, Valid, Widened, ReadKey;
    if es == [] {
      CloseMap(m, t);
      EmptyLeft([0]);
      EmptyRight(m);
    } else {
      var e := Entry(Widened(es[0].key), Received(es[0].value));
      var rest := EncodeEntries(layout, es[1..]) + [0] + t;
      EntriesSplit(layout, es, t);
      Arrives(layout, es[0].value, es[0].key + [0] + rest);
      ReadKeyBack(es[0].key, rest);
      assert es[0] in es;
      InsertLast(m, e.key, e.value);
      NextKeysLarger(m, es, e.value);
      SortedTail(es);
      MapRoundTrip(layout, m + [e], es[1..], t);
      Associative(m, [e], ReceivedEntries(es[1..]));
    }
  }

  lemma EntriesSplit(layout: Layout, es: seq<Entry>, t: Bytes)
    requires es != []
    ensures EncodeEntries(layout, es) + [0] + t ==
            Encode(layout, es[0].value) + (es[0].key + [0] + (EncodeEntries(layout, es[1..]) + [0] + t))
  {
  }

  /** What is received is the normal form exactly when no number is in the window. */
  lemma {:induction false} ReceivedExact(v: Value)
    ensures Received(v) == Norm(v) <==> SafeInts(v)
    decreases v, 1
  {
    if v.List? {
      ReceivedAllExact(v.elements);
    } else if v.Map? {
      ReceivedEntriesExact(v.entries);
    }
  }

  lemma {:induction false} ReceivedAllExact(vs: seq<Value>)
    ensures ReceivedAll(vs) == NormAll(vs) <==> SafeIntsAll(vs)
    decreases vs, 0
  {
    if vs != [] {
      ReceivedExact(vs[0]);
      ReceivedAllExact(vs[1..]);
      SameParts(Received(vs[0]), ReceivedAll(vs[1..]), Norm(vs[0]), NormAll(vs[1..]));
    }
  }

  lemma {:induction false} ReceivedEntriesExact(es: seq<Entry>)
    ensures ReceivedEntries(es) == NormEntries(es) <==> SafeIntsEntries(es)
    decreases es, 0
  {
    if es != [] {
      ReceivedExact(es[0].value);
      ReceivedEntriesExact(es[1..]);
      var key := Widened(es[0].key);
      SameParts(Entry(key, Received(es[0].value)), ReceivedEntries(es[1..]),
                Entry(key, Norm(es[0].value)), NormEntries(es[1..]));
    }
  }

  /**
     The round trip of a value without a key: the reader returns the normal form and stops exactly where
     the writer did.
   */
  lemma RoundTrip(layout: Layout, v: Value, t: Bytes)
    requires Valid(v) && WireSafe(layout, v)
    ensures Parse(Encode(layout, v) + t) == Item(Norm(v), t)
  {
    hide Parse, Encode;
    Arrives(layout, v, t);
    ReceivedExact(v);
  }

  /** The same for a value followed by its key, as the writer sends it inside a map. */
  lemma KeyedRoundTrip(layout: Layout, v: Value, key: Bytes, t: Bytes)
    requires Valid(v) && WireSafe(layout, v) && 0 !in key
    ensures var p := Parse(Encode(layout, v) + key + [0] + t);
            p.Item? && p.value == Norm(v) && ReadKey(p.rest) == Key(Widened(key), t)
  {
    hide Parse, Encode;
    Regroup(Encode(layout, v), key, [0], t);
    Associative(key, [0], t);
    RoundTrip(layout, v, key + [0] + t);
    ReadKeyBack(key, t);
  }
}
