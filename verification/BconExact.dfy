/**
 Exactly which values survive a BCON round trip.

 With lengths that the reader understands, the numbers and the keys decide, for every value. Where a length is
 misread, the stream goes on from the wrong place, and two cases need care. A string of zeros in the 12-bit
 form as written is returned, but three bytes early. And a byte array ends, as a string, at its first NUL, so a
 misread one may still give the right value; in a list the bytes that follow can then make up for the rest.
 */
module BconExact {
  import opened Sequences
  import opened Words
  import opened Values
  import opened Text
  import opened Bcon
  import opened BconRoundTrip

  /** No map in the value, and no byte array of a length that the reader misreads. */
  predicate Plain(layout: Layout, v: Value)
    decreases v
  {
    match v
    case ByteArray(a) => SafeLength(layout, false, |a|)
    case List(vs) => PlainAll(layout, vs)
    case Map(_) => false
    case _ => true
  }

  predicate PlainAll(layout: Layout, vs: seq<Value>)
    decreases vs
  {
    vs == [] || (Plain(layout, vs[0]) && PlainAll(layout, vs[1..]))
  }

  /** The writer throws on no string or byte array of the value. */
  predicate Written(v: Value)
    decreases v
  {
    match v
    case Str(s) => |s| < LENGTH2P36
    case ByteArray(a) => |a| < LENGTH2P36
    case List(vs) => WrittenAll(vs)
    case Map(es) => WrittenEntries(es)
    case _ => true
  }

  predicate WrittenAll(vs: seq<Value>)
    decreases vs
  {
    vs == [] || (Written(vs[0]) && WrittenAll(vs[1..]))
  }

  predicate WrittenEntries(es: seq<Entry>)
    decreases es
  {
    es == [] || (Written(es[0].value) && WrittenEntries(es[1..]))
  }

  /** How a round trip fails: no value, another value, or zeros left over in front of what follows. */
  predicate Spoiled(p: Parsed, expected: Value, t: Bytes) {
    || p.Fail?
    || (p.Item? && p.value != expected)
    || (p.Item? && |p.rest| > |t| && p.rest == Zeros(|p.rest| - |t|) + t)
  }

  // ---------- Leaves ----------

  /** The reader stops before or after the end of what was written. */
  predicate Astray(p: Parsed, t: Bytes) {
    p.Fail? || (p.Item? && |p.rest| != |t|)
  }

  lemma ShortDataAstray(a: Bytes, t: Bytes)
    requires |a| < 32
    ensures Astray(Parse(Header(AsWritten, false, |a|) + a + t), t)
  {
    hide TextOf;
    var b := Header(AsWritten, false, |a|) + a + t;
    assert Parse(b) == ReadBlob(false, |a| + 32, b[1..]);
  }

  /** Three zeros in front of all but the last three bytes give the same bytes back only for zeros. */
  lemma ShiftedZeros(s: Bytes)
    requires |s| >= 3 && [0, 0, 0] + s[..|s| - 3] == s
    ensures s == Zeros(|s|)
  {
    var i := 0;
    while i < |s|
      invariant 0 <= i <= |s| && forall j :: 0 <= j < i ==> s[j] == 0
    {
      assert s[i] == ([0, 0, 0] + s[..|s| - 3])[i];
      i := i + 1;
    }
  }

  lemma TwelveBitBytes(isString: bool, len: nat) returns (c: byte)
    requires LENGTH2P6 <= len < LENGTH2P12
    ensures Header(AsWritten, isString, len) == [c, len / 0x10, 0, 0, 0]
    ensures 0x10 <= c < 0x80 && (c >= 0x40 <==> isString) && c as int / 0x10 % 4 == 1
    ensures c as int % 0x10 + 0x10 * (len / 0x10) == len
  {
    c := if isString then 0x50 + len % 0x10 else 0x10 + len % 0x10;
  }

  lemma LongFormRead(c: byte, b: Bytes)
    requires 0x10 <= c < 0x80
    ensures Parse([c] + b) == ReadLongBlob(c, b)
  {
    hide ReadLongBlob, ReadBlob, ReadWord;
    assert ([c] + b)[1..] == b;
  }

  lemma TwelveBitHeader(isString: bool, len: nat, rest: Bytes)
    requires LENGTH2P6 <= len < LENGTH2P12
    ensures Parse(Header(AsWritten, isString, len) + rest) == ReadBlob(isString, len, [0, 0, 0] + rest)
  {
    hide Header, Parse, ReadBlob;
    var c := TwelveBitBytes(isString, len);
    var b := [len / 0x10, 0, 0, 0] + rest;
    assert Header(AsWritten, isString, len) + rest == [c] + b;
    LongFormRead(c, b);
    assert b[1..] == [0, 0, 0] + rest;
  }

  lemma TwelveBitSpoils(s: Bytes, t: Bytes)
    requires LENGTH2P6 <= |s| < LENGTH2P12
    ensures Spoiled(Parse(Header(AsWritten, true, |s|) + s + t), Str(s), t)
  {
    hide Parse, Header;
    var n := |s|;
    var body := [0, 0, 0] + (s + t);
    Associative(Header(AsWritten, true, n), s, t);
    TwelveBitHeader(true, n, s + t);
    assert body[..n] == [0, 0, 0] + s[..n - 3];
    assert body[n..] == s[n - 3..] + t;
    if body[..n] == s {
      ShiftedZeros(s);
      assert s[n - 3..] == Zeros(3);
    }
  }

  lemma TwelveBitAstray(a: Bytes, t: Bytes)
    requires LENGTH2P6 <= |a| < LENGTH2P12
    ensures Astray(Parse(Header(AsWritten, false, |a|) + a + t), t)
  {
    hide Parse, Header, TextOf;
    Associative(Header(AsWritten, false, |a|), a, t);
    TwelveBitHeader(false, |a|, a + t);
  }

  /** A longer string or byte array is cut short: another string, and bytes left over. */
  lemma LongMisread(layout: Layout, isString: bool, s: Bytes, t: Bytes)
    requires |s| < LENGTH2P36
    requires match layout case AsWritten => LENGTH2P12 <= |s| case Documented => LENGTH2P28 <= |s|
    ensures var p := Parse(Header(layout, isString, |s|) + s + t);
            Astray(p, t) && (isString && p.Item? ==> p.value != Str(s))
  {
    var h := Header(layout, isString, |s|);
    var b := h + s + t;
    assert forall i :: 0 <= i < |h| ==> b[i] == h[i];
    LengthMisread(layout, isString, |s|);
    hide Header, TextOf;
    var p := ReadLongBlob(b[0], b[1..]);
    assert Parse(b) == p;
    ShorterLength(b[0], b[1..], isString, |s|);
  }

  lemma ShorterLength(c: byte, b: Bytes, isString: bool, len: nat)
    requires 0x10 <= c < 0x80 && (c / 0x10 % 4 == 2 || c / 0x10 % 4 == 3) && |b| >= 3 && (c >= 0x40 <==> isString)
    requires c as int % 0x10 + 0x10 * b[0] as int + 0x1000 * b[1] as int < len
    requires c as int % 0x10 + 0x10 * b[0] as int + 0x1000 * b[1] as int + 0x10_0000 * b[2] as int < len
    ensures var p := ReadLongBlob(c, b);
            p.Fail? || (p.Item? && |p.rest| > |b| - 3 - len && p.value.Str? && (isString ==> |p.value.s| < len))
  {
    hide TextOf;
  }

  /** The length assembled from such a header is too short. */
  lemma LengthMisread(layout: Layout, isString: bool, len: nat)
    requires len < LENGTH2P36
    requires match layout case AsWritten => LENGTH2P12 <= len case Documented => LENGTH2P28 <= len
    ensures var h := Header(layout, isString, len);
            && |h| >= 4 && 0x10 <= h[0] < 0x80
            && (h[0] as int / 0x10 % 4 == 2 || h[0] as int / 0x10 % 4 == 3)
            && (h[0] >= 0x40 <==> isString)
            && h[0] as int % 0x10 + 0x10 * h[1] as int + 0x1000 * h[2] as int < len
            && h[0] as int % 0x10 + 0x10 * h[1] as int + 0x1000 * h[2] as int + 0x10_0000 * h[3] as int < len
  {
    MisreadBytes(layout, isString, len);
    FourDigits(len);
    FormDigits(if isString then 0x40 else 0, MisreadForm(layout, len), len % 0x10);
    hide Header;
  }

  function MisreadForm(layout: Layout, len: nat): nat {
    if layout == AsWritten && len < LENGTH2P20 then 2 else 3
  }

  lemma MisreadBytes(layout: Layout, isString: bool, len: nat)
    requires len < LENGTH2P36
    requires match layout case AsWritten => LENGTH2P12 <= len case Documented => LENGTH2P28 <= len
    ensures var h := Header(layout, isString, len);
            && |h| >= 4
            && h[0] == (if isString then 0x40 else 0) + 0x10 * MisreadForm(layout, len) + len % 0x10
            && h[1] == len / 0x10 % 0x100
            && h[2] == (if layout == AsWritten then 0 else len / 0x1000 % 0x100)
            && h[3] == (if layout == AsWritten then 0 else len / 0x10_0000 % 0x100)
  {
    if layout == AsWritten {
      SmallWord(len / 0x10 % 0x100);
      hide Encode32;
    }
  }

  lemma SmallWord(n: nat)
    requires n < 0x100
    ensures Encode32(n) == [n, 0, 0, 0]
  {
  }

  lemma FourDigits(len: nat)
    ensures len % 0x10 + 0x10 * (len / 0x10 % 0x100) == len % LENGTH2P12
    ensures len % 0x10 + 0x10 * (len / 0x10 % 0x100) + 0x1000 * (len / 0x1000 % 0x100) == len % LENGTH2P20
    ensures len % 0x10 + 0x10 * (len / 0x10 % 0x100) + 0x1000 * (len / 0x1000 % 0x100)
            + 0x10_0000 * (len / 0x10_0000 % 0x100) == len % LENGTH2P28
  {
    assert len / 0x10 / 0x100 == len / 0x1000;
    assert len / 0x1000 / 0x100 == len / 0x10_0000;
    assert len / 0x10_0000 / 0x100 == len / LENGTH2P28;
  }

  lemma LeafSpoils(layout: Layout, v: Value, t: Bytes)
    requires !v.List? && Plain(layout, v) && Written(v) && !WireSafe(layout, v)
    ensures Spoiled(Parse(Encode(layout, v) + t), Norm(v), t)
  {
    hide Parse;
    if v.Int? {
      IntRoundTrip(v.i, t);
    } else if layout == Documented || LENGTH2P12 <= |v.s| {
      LongMisread(layout, true, v.s, t);
    } else {
      TwelveBitSpoils(v.s, t);
    }
  }

  lemma DataAstray(layout: Layout, a: Bytes, t: Bytes)
    requires |a| < LENGTH2P36 && !SafeLength(layout, false, |a|)
    ensures Astray(Parse(Encode(layout, ByteArray(a)) + t), t)
  {
    hide Parse;
    if layout == Documented || LENGTH2P12 <= |a| {
      LongMisread(layout, false, a, t);
    } else if LENGTH2P6 <= |a| {
      TwelveBitAstray(a, t);
    } else {
      ShortDataAstray(a, t);
    }
  }

  /** A value without elements comes back in normal form, leaving what follows, exactly when the check holds. */
  lemma LeafExact(layout: Layout, v: Value, t: Bytes)
    requires !v.List? && !v.Map? && Written(v)
    ensures Parse(Encode(layout, v) + t) == Item(Norm(v), t) <==> WireSafe(layout, v)
  {
    hide Parse, Encode, TextOf;
    if WireSafe(layout, v) {
      RoundTrip(layout, v, t);
    } else if v.ByteArray? {
      DataAstray(layout, v.a, t);
    } else {
      LeafSpoils(layout, v, t);
    }
  }

  /**
     A byte array never comes back as one. Its bytes come back, as a string, exactly when its length is safe
     and it is ASCII without NUL.
   */
  lemma DataExact(layout: Layout, a: Bytes, t: Bytes)
    requires |a| < LENGTH2P36
    ensures Parse(Encode(layout, ByteArray(a)) + t) != Item(ByteArray(a), t)
    ensures Parse(Encode(layout, ByteArray(a)) + t) == Item(Str(a), t) <==>
              SafeLength(layout, false, |a|) && Ascii(a) && 0 !in a
  {
    hide Parse, Encode, TextOf;
    TextOfExact(a);
    if SafeLength(layout, false, |a|) {
      RoundTrip(layout, ByteArray(a), t);
    } else {
      DataAstray(layout, a, t);
    }
  }

  // ---------- Lists ----------

  /** The loop of a list never drops an element. */
  lemma {:induction false} ParseListKeeps(list: seq<Value>, b: Bytes)
    ensures var p := ParseList(list, b); p.Item? ==> p.value.List? && list <= p.value.elements
    decreases |b|
  {
    var p := Parse(b);
    if p.Item? {
      ParseListKeeps(list + [p.value], p.rest);
    }
  }

  lemma {:induction false} Spoils(layout: Layout, v: Value, t: Bytes)
    requires Plain(layout, v) && Written(v) && !WireSafe(layout, v)
    ensures Spoiled(Parse(Encode(layout, v) + t), Norm(v), t)
    decreases v, 1
  {
    hide Parse, Encode, ParseList;
    if v.List? {
      OpenList(layout, v.elements, t);
      ListSpoils(layout, [], v.elements, t);
      EmptyLeft(NormAll(v.elements));
    } else {
      LeafSpoils(layout, v, t);
    }
  }

  lemma {:induction false} ListSpoils(layout: Layout, list: seq<Value>, vs: seq<Value>, t: Bytes)
    requires PlainAll(layout, vs) && WrittenAll(vs)
    requires !(SafeLengthsAll(layout, vs) && SafeIntsAll(vs) && NulFreeAll(vs))
    ensures Spoiled(ParseList(list, EncodeAll(layout, vs) + [0] + t), List(list + NormAll(vs)), t)
    decreases vs, 0
  {
    hide Parse, Encode, Norm;
    var rest := EncodeAll(layout, vs[1..]) + [0] + t;
    ListSplit(layout, vs, t);
    var p := Parse(Encode(layout, vs[0]) + rest);
    Associative(list, [Norm(vs[0])], NormAll(vs[1..]));
    if WireSafe(layout, vs[0]) {
      PlainIsValid(layout, vs[0]);
      RoundTrip(layout, vs[0], rest);
      ListSpoils(layout, list + [Norm(vs[0])], vs[1..], t);
    } else {
      Spoils(layout, vs[0], rest);
      if p.Item? && p.value != Norm(vs[0]) {
        ParseListKeeps(list + [p.value], p.rest);
        assert (list + NormAll(vs))[|list|] == Norm(vs[0]) && (list + [p.value])[|list|] == p.value;
      } else if p.Item? {
        ZerosClose(list + [p.value], vs[1..], p.rest, rest, t, layout);
      }
    }
  }

  lemma ListSplit(layout: Layout, vs: seq<Value>, t: Bytes)
    requires vs != []
    ensures EncodeAll(layout, vs) + [0] + t == Encode(layout, vs[0]) + (EncodeAll(layout, vs[1..]) + [0] + t)
  {
  }

  /** A left-over zero closes the list early. */
  lemma ZerosClose(list: seq<Value>, others: seq<Value>, b: Bytes, rest: Bytes, t: Bytes, layout: Layout)
    requires |b| > |rest| && b == Zeros(|b| - |rest|) + rest && rest == EncodeAll(layout, others) + [0] + t
    ensures Spoiled(ParseList(list, b), List(list + NormAll(others)), t)
  {
    var k := |b| - |rest|;
    assert b == [0] + (Zeros(k - 1) + rest);
    CloseList(list, Zeros(k - 1) + rest);
    if others == [] {
      assert Zeros(k - 1) + rest == Zeros(k) + t;
    } else {
      assert |list + NormAll(others)| > |list|;
    }
  }

  lemma {:induction false} PlainIsValid(layout: Layout, v: Value)
    requires Plain(layout, v)
    ensures Valid(v)
    decreases v, 1
  {
    if v.List? {
      PlainAllIsValid(layout, v.elements);
    }
  }

  lemma {:induction false} PlainAllIsValid(layout: Layout, vs: seq<Value>)
    requires PlainAll(layout, vs)
    ensures ValidAll(vs)
    decreases vs, 0
  {
    if vs != [] {
      PlainIsValid(layout, vs[0]);
      PlainAllIsValid(layout, vs[1..]);
    }
  }

  /**
     Without maps and misread byte arrays, a value comes back exactly when the caller's check holds, whatever
     follows it.
   */
  lemma RoundTripExact(layout: Layout, v: Value, t: Bytes)
    requires Plain(layout, v) && Written(v)
    ensures Parse(Encode(layout, v) + t) == Item(Norm(v), t) <==> WireSafe(layout, v)
  {
    hide Parse, Encode;
    if WireSafe(layout, v) {
      PlainIsValid(layout, v);
      RoundTrip(layout, v, t);
    } else {
      Spoils(layout, v, t);
    }
  }

  /** The first byte array takes 32 bytes of the second, whose last nine are those of a byte array themselves. */
  function Compensating(): seq<Value> {
    [ByteArray([0]), ByteArray(Zeros(31) + [0x88] + Zeros(8))]
  }

  /** With a misread byte array the check is not necessary: this list comes back although it fails it. */
  lemma MisreadDataMayComeBack(t: Bytes)
    ensures !WireSafe(AsWritten, List(Compensating()))
    ensures Parse(Encode(AsWritten, List(Compensating())) + t) == Item(Norm(List(Compensating())), t)
  {
    hide Parse, Encode, EncodeAll, Norm, NormAll;
    assert !SafeLengths(AsWritten, List(Compensating()));
    var vs := Compensating();
    var tail: Bytes := [0] + t;
    var second: Bytes := [0x88] + Zeros(8) + tail;
    var body: Bytes := [0x00, 0xA8] + Zeros(31) + second;
    CompensatingBytes(body, second, t);
    OpenList(AsWritten, vs, t);
    FirstTakesMore(body, second);
    SecondIsInside(second, tail);
    CloseList([Str([]), Str([])], t);
    EmptyLeft([Str([])]);
    assert [Str([])] + [Str([])] == [Str([]), Str([])];
    NormOfList(vs);
  }

  lemma NormOfList(vs: seq<Value>)
    ensures Norm(List(vs)) == List(NormAll(vs))
  {
  }

  lemma CompensatingBytes(body: Bytes, second: Bytes, t: Bytes)
    requires second == [0x88] + Zeros(8) + ([0] + t) && body == [0x00, 0xA8] + Zeros(31) + second
    ensures EncodeAll(AsWritten, Compensating()) + [0] + t == [0xA1] + body
    ensures NormAll(Compensating()) == [Str([]), Str([])]
  {
    var d := Zeros(31) + [0x88] + Zeros(8);
    assert Compensating()[1..] == [ByteArray(d)] && [ByteArray(d)][1..] == [];
    assert Header(AsWritten, false, 1) == [0xA1] && Header(AsWritten, false, 40) == [0xA8];
    assert EncodeAll(AsWritten, [ByteArray(d)]) == [0xA8] + d;
    assert UpToNul([0]) == [] && UpToNul(d) == [];
  }

  lemma FirstTakesMore(body: Bytes, second: Bytes)
    requires body == [0x00, 0xA8] + Zeros(31) + second
    ensures Parse([0xA1] + body) == Item(Str([]), second)
  {
    assert ([0xA1] + body)[1..] == body;
    assert body[..33] == [0x00, 0xA8] + Zeros(31) && body[33..] == second;
    assert UpToNul(body[..33]) == [];
  }

  lemma SecondIsInside(second: Bytes, tail: Bytes)
    requires second == [0x88] + Zeros(8) + tail
    ensures Parse(second) == Item(Str([]), tail)
  {
    var b := second[1..];
    assert b[..8] == Zeros(8) && b[8..] == tail;
    assert UpToNul(b[..8]) == [];
  }

  // ---------- Numbers and keys ----------

  /** What reading can yield: no byte array, and no key with a NUL. */
  predicate Readable(v: Value)
    decreases v
  {
    match v
    case ByteArray(_) => false
    case List(vs) => ReadableAll(vs)
    case Map(es) => ReadableEntries(es)
    case _ => true
  }

  predicate ReadableAll(vs: seq<Value>)
    decreases vs
  {
    vs == [] || (Readable(vs[0]) && ReadableAll(vs[1..]))
  }

  predicate ReadableEntries(es: seq<Entry>)
    decreases es
  {
    es == [] || (Readable(es[0].value) && 0 !in es[0].key && ReadableEntries(es[1..]))
  }

  lemma {:induction false} NormReadable(v: Value)
    ensures Readable(Norm(v)) <==> NulFree(v)
    decreases v, 1
  {
    if v.List? {
      NormAllReadable(v.elements);
    } else if v.Map? {
      NormEntriesReadable(v.entries);
    }
  }

  lemma {:induction false} NormAllReadable(vs: seq<Value>)
    ensures ReadableAll(NormAll(vs)) <==> NulFreeAll(vs)
    decreases vs, 0
  {
    if vs != [] {
      NormReadable(vs[0]);
      NormAllReadable(vs[1..]);
    }
  }

  lemma {:induction false} NormEntriesReadable(es: seq<Entry>)
    ensures ReadableEntries(NormEntries(es)) <==> NulFreeEntries(es)
    decreases es, 0
  {
    if es != [] {
      NormReadable(es[0].value);
      WidenedNul(es[0].key);
      NormEntriesReadable(es[1..]);
    }
  }

  lemma {:induction false} AppendReadable(vs: seq<Value>, v: Value)
    requires ReadableAll(vs) && Readable(v)
    ensures ReadableAll(vs + [v])
  {
    if vs == [] {
      assert [v][1..] == [] && vs + [v] == [v];
    } else {
      AppendReadable(vs[1..], v);
      assert (vs + [v])[1..] == vs[1..] + [v];
    }
  }

  lemma {:induction false} InsertReadable(es: seq<Entry>, key: Bytes, v: Value)
    requires ReadableEntries(es) && Readable(v) && 0 !in key
    ensures ReadableEntries(Insert(es, key, v))
  {
    var e := Entry(key, v);
    if es == [] {
      assert [e][1..] == [];
    } else if key == es[0].key {
      assert ([e] + es[1..])[1..] == es[1..];
    } else if Less(key, es[0].key) {
      assert ([e] + es)[1..] == es;
    } else {
      InsertReadable(es[1..], key, v);
      assert ([es[0]] + Insert(es[1..], key, v))[1..] == Insert(es[1..], key, v);
    }
  }

  /** Whatever the bytes, what is read from them holds no byte array and no key with a NUL. */
  lemma {:induction false} ParsedReadable(b: Bytes)
    ensures Parse(b).Item? ==> Readable(Parse(b).value)
    decreases |b|, 0
  {
    hide TextOf;
    if b != [] && b[0] == TOKEN_LIST {
      ParsedListReadable([], b[1..]);
    } else if b != [] && b[0] == TOKEN_MAP {
      ParsedMapReadable([], b[1..]);
    }
  }

  lemma {:induction false} ParsedListReadable(list: seq<Value>, b: Bytes)
    requires ReadableAll(list)
    ensures ParseList(list, b).Item? ==> Readable(ParseList(list, b).value)
    decreases |b|, 1
  {
    hide Parse, Readable;
    ParsedReadable(b);
    var p := Parse(b);
    if p.Item? {
      AppendReadable(list, p.value);
      ParsedListReadable(list + [p.value], p.rest);
    } else if p.End? {
      ReadableList(list);
    }
  }

  lemma ReadableList(list: seq<Value>)
    ensures Readable(List(list)) <==> ReadableAll(list)
  {
  }

  lemma {:induction false} ParsedMapReadable(m: seq<Entry>, b: Bytes)
    requires ReadableEntries(m)
    ensures ParseMap(m, b).Item? ==> Readable(ParseMap(m, b).value)
    decreases |b|, 1
  {
    hide Parse, Readable, Insert;
    ParsedReadable(b);
    var p := Parse(b);
    if p.Item? {
      var k := ReadKey(p.rest);
      if k.Key? {
        InsertReadable(m, k.key, p.value);
        ParsedMapReadable(Insert(m, k.key, p.value), k.rest);
      }
    } else if p.End? {
      ReadableMap(m);
    }
  }

  lemma ReadableMap(m: seq<Entry>)
    ensures Readable(Map(m)) <==> ReadableEntries(m)
  {
  }

  /** A value with a NUL in some key, at any level, never comes back. */
  lemma NulNeverReturns(layout: Layout, v: Value, t: Bytes)
    requires !NulFree(v)
    ensures Parse(Encode(layout, v) + t) != Item(Norm(v), t)
  {
    hide Parse, Encode;
    ParsedReadable(Encode(layout, v) + t);
    NormReadable(v);
  }

  /**
     With lengths that the reader understands, any nested value comes back exactly when no number is in the
     window of lost signs and no key holds a NUL, at whatever level.
   */
  lemma SafeLengthsExact(layout: Layout, v: Value, t: Bytes)
    requires Valid(v) && SafeLengths(layout, v)
    ensures Parse(Encode(layout, v) + t) == Item(Norm(v), t) <==> SafeInts(v) && NulFree(v)
  {
    hide Parse, Encode;
    if NulFree(v) {
      Arrives(layout, v, t);
      ReceivedExact(v);
    } else {
      NulNeverReturns(layout, v, t);
    }
  }

  /** A key comes back exactly when it is ASCII without NUL. */
  lemma KeyExact(key: Bytes, t: Bytes)
    ensures ReadKey(key + [0] + t) == Key(key, t) <==> 0 !in key && Ascii(key)
  {
    if 0 !in key {
      ReadKeyBack(key, t);
      UnchangedIffAscii(key);
    }
  }
}
