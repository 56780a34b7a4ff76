/**
 BSON round trips, the exactness of the length prefixes, and which single elements survive.
 */
module BsonRoundTrip {
  import opened Sequences
  import opened Words
  import opened Values
  import opened Text
  import opened JsonPrinter
  import opened JsonScanner
  import opened Bcon
  import opened Bson
  import JsonRoundTrip
  import BconRoundTrip

  function Norm(v: Value): Value
    decreases v
  {
    match v
    case Char(c) => Int(c)
    case UInt(u) => Int(Signed32(u))
    case List(vs) => List(NormAll(vs))
    case Map(es) => Map(NormEntries(es))
    case _ => v
  }

  function NormAll(vs: seq<Value>): seq<Value>
    decreases vs
  {
    if vs == [] then [] else [Norm(vs[0])] + NormAll(vs[1..])
  }

  function NormEntries(es: seq<Entry>): seq<Entry>
    decreases es
  {
    if es == [] then [] else [Entry(Widened(es[0].key), Norm(es[0].value))] + NormEntries(es[1..])
  }

  /** No 64-bit integer, no byte array but the empty one, no NUL in a key, lengths that fit their words. */
  predicate BsonSafe(v: Value)
    decreases v
  {
    match v
    case LongLong(_) => false
    case ULongLong(_) => false
    case Str(s) => |s| + 1 < 0x1_0000_0000
    case ByteArray(a) => a == []
    case List(vs) => |vs| <= 0x8000_0000 && BsonSafeAll(vs)
    case Map(es) => BsonSafeEntries(es)
    case _ => true
  }

  predicate BsonSafeAll(vs: seq<Value>)
    decreases vs
  {
    vs == [] || (BsonSafe(vs[0]) && BsonSafeAll(vs[1..]))
  }

  predicate BsonSafeEntries(es: seq<Entry>)
    decreases es
  {
    es == [] || (BsonSafe(es[0].value) && 0 !in es[0].key && BsonSafeEntries(es[1..]))
  }

  // ---------- Length prefixes ----------

  lemma DocumentLength(payload: Bytes)
    ensures |Document(payload)| == |payload| + 5
    ensures Document(payload)[..4] == Length32(|payload| + 5)
    ensures Document(payload)[|payload| + 4] == BSON_END
  {
    hide Encode32;
    Decode32Encode((|payload| + 5) % 0x1_0000_0000, []);
    Associative(Length32(|payload| + 5), payload, [BSON_END]);
  }

  lemma DocumentPrefix(payload: Bytes)
    requires |payload| + 5 < 0x1_0000_0000
    ensures Decode32(Document(payload)[..4]) == |Document(payload)|
  {
    hide Document, Encode32, Decode32;
    DocumentLength(payload);
    Decode32Encode(|payload| + 5, []);
  }

  /** The prefix of a map or a list, at whatever level it is nested, is the length of its document. */
  lemma PrefixIsLength(v: Value)
    requires v.Map? || v.List?
    requires |Body(v)| < 0x1_0000_0000
    ensures |Body(v)| >= 5 && Decode32(Body(v)[..4]) == |Body(v)| && Body(v)[|Body(v)| - 1] == BSON_END
  {
    hide Document, EncodeMembers, EncodeItems, Encode32, Decode32;
    var payload := if v.Map? then EncodeMembers(v.entries) else EncodeItems(v.elements, 0);
    DocumentLength(payload);
    DocumentPrefix(payload);
  }

  // ---------- Leaves ----------

  lemma Word32Body(n: uint32, t: Bytes)
    ensures |Encode32(n)| == 4 && (Encode32(n) + t)[..4] == Encode32(n) && Decode32((Encode32(n) + t)[..4]) == n
    ensures (Encode32(n) + t)[4..] == t
  {
    Decode32Encode(n, t);
  }

  lemma StringBody(s: Bytes, t: Bytes)
    requires |s| + 1 < 0x1_0000_0000
    ensures ReadScalar(BSON_STRING, Body(Str(s)) + t) == Item(Str(s), t)
  {
    hide Encode32, Decode32;
    var w, rest := Length32(|s| + 1), s + ([0] + t);
    var b := Body(Str(s)) + t;
    Word32Body(|s| + 1, rest);
    StringLayout(w, s, t, b);
    MinusOne(|s|);
  }

  lemma MinusOne(n: nat)
    requires n + 1 < 0x1_0000_0000
    ensures (n + 1 + 0xFFFF_FFFF) % 0x1_0000_0000 == n && (n + 1) % 0x1_0000_0000 == n + 1
  {
  }

  lemma StringLayout(w: Bytes, s: Bytes, t: Bytes, b: Bytes)
    requires |w| == 4 && b == w + s + [0] + t
    ensures b == w + (s + ([0] + t)) && b[..4] == w && |b| == 4 + |s| + 1 + |t|
    ensures b[4..4 + |s|] == s && b[4 + |s| + 1..] == t
  {
  }

  lemma Word64Body(w: uint64, t: Bytes)
    ensures |Encode64(w)| == 8 && Decode64((Encode64(w) + t)[..8]) == w && (Encode64(w) + t)[8..] == t
  {
    Decode64Encode(w, t);
  }

  lemma EmptyDataBody(t: Bytes)
    ensures ReadScalar(BSON_DATA, Body(ByteArray([])) + t) == Item(ByteArray([]), t)
  {
    var b := Body(ByteArray([])) + t;
    assert Encode32(0) == [0, 0, 0, 0];
    assert b == [0, 0, 0, 0, 0] + t;
    assert b[1..5] == [0, 0, 0, 0] && b[5..] == t;
    Decode32Encode(0, []);
  }

  lemma LeafBody(v: Value, t: Bytes)
    requires !v.List? && !v.Map? && BsonSafe(v)
    ensures ReadScalar(TokenOf(v), Body(v) + t) == Item(Norm(v), t)
  {
    if v.Null? {
      EmptyLeft(t);
    } else if v.Bool? {
      assert (Body(v) + t)[1..] == t;
    } else if v.Char? {
      Word32Body(v.c, t);
    } else if v.Int? {
      Word32Body(Unsigned32(v.i), t);
    } else if v.UInt? {
      Word32Body(v.u, t);
    } else if v.Double? {
      Word64Body(v.bits, t);
    } else if v.DateTime? {
      Word64Body(Unsigned64(v.msecs), t);
    } else if v.Str? {
      StringBody(v.s, t);
    } else {
      EmptyDataBody(t);
    }
  }

  /** A 64-bit integer is sent in four bytes and read from eight: four bytes of what follows are lost. */
  lemma Int64Body(v: Value, t: Bytes)
    requires v.LongLong? || v.ULongLong?
    ensures ReadScalar(TokenOf(v), Body(v) + t) != Item(Norm(v), t)
  {
    Word32Body(if v.LongLong? then Unsigned64(v.l) % 0x1_0000_0000 else v.ul % 0x1_0000_0000, t);
    assert |Body(v) + t| == 4 + |t|;
  }

  /** The length of a byte array is read one byte late: the reader takes only one 256th of it. */
  lemma DataBody(a: Bytes, t: Bytes)
    requires 0 < |a| < 0x1_0000_0000
    ensures ReadScalar(BSON_DATA, Body(ByteArray(a)) + t) != Item(ByteArray(a), t)
  {
    var b := Body(ByteArray(a)) + t;
    ShiftedLength(|a|, a + t);
    assert b == Length32(|a|) + [BSON_GENERIC] + (a + t);
  }

  lemma ShiftedLength(n: uint32, rest: Bytes)
    ensures var b := Length32(n) + [BSON_GENERIC] + rest;
            |b| >= 5 && Decode32(b[1..5]) as int == n / 0x100
  {
    var lo, hi := n % 0x1_0000, n / 0x1_0000;
    var b := Length32(n) + [BSON_GENERIC] + rest;
    var four := [lo / 0x100, hi % 0x100, hi / 0x100, 0];
    assert Length32(n) == [lo % 0x100, lo / 0x100, hi % 0x100, hi / 0x100];
    assert b[1..5] == four;
    assert four[..2] == [lo / 0x100, hi % 0x100] && four[2..] == [hi / 0x100, 0];
    ShiftedDigits(n);
  }

  lemma ShiftedDigits(n: nat)
    ensures n % 0x1_0000 / 0x100 + 0x100 * (n / 0x1_0000 % 0x100) + 0x1_0000 * (n / 0x1_0000 / 0x100) == n / 0x100
  {
  }

  // ---------- Elements ----------

  lemma ElementKey(key: Bytes, v: Value, t: Bytes)
    requires 0 !in key
    ensures var b := Element(key, v) + t;
            b != [] && b[0] == TokenOf(v) && ReadKey(b[1..]) == Key(Widened(key), Body(v) + t)
  {
    hide Body, ReadKey;
    Regroup([TokenOf(v)] + key, [0], Body(v), t);
    Associative([TokenOf(v)] + key, [0], Body(v) + t);
    Regroup([TokenOf(v)], key, [0], Body(v) + t);
    Split([TokenOf(v)], key + [0] + (Body(v) + t));
    BconRoundTrip.ReadKeyBack(key, Body(v) + t);
  }

  /** A leaf element comes back, and leaves what follows, exactly when the caller's check holds. */
  lemma LeafExact(key: Bytes, v: Value, t: Bytes)
    requires !v.List? && !v.Map? && 0 !in key
    requires v.Str? ==> |v.s| + 1 < 0x1_0000_0000
    requires v.ByteArray? ==> |v.a| < 0x1_0000_0000
    ensures ParseElt(Element(key, v) + t) == Elt(Widened(key), Norm(v), t) <==> BsonSafe(v)
  {
    hide Body, ReadScalar, Element;
    ElementKey(key, v, t);
    if BsonSafe(v) {
      LeafBody(v, t);
    } else if v.ByteArray? {
      DataBody(v.a, t);
    } else {
      Int64Body(v, t);
    }
  }

  // ---------- Documents ----------

  /** The decimal keys of a list read back as the indices they were printed from. */
  lemma IndexRoundTrip(i: nat)
    requires i < 0x8000_0000
    ensures ToInt(IndexKey(i)) == i && 0 !in IndexKey(i) && Widened(IndexKey(i)) == IndexKey(i)
  {
    hide NumberText, IntegerLength, ToLongLong;
    JsonRoundTrip.NumberValue(i);
    JsonRoundTrip.NumberTextNotEmpty(i);
    OnlyDigits(i);
    AsciiUnchanged(NumberText(i));
  }

  lemma OnlyDigits(i: nat)
    ensures 0 !in NumberText(i) && Ascii(NumberText(i))
  {
    assert forall k :: 0 <= k < |Digits(i)| ==> Digits(i)[k] in Digits(i);
  }

  lemma {:induction false} ElementRoundTrip(key: Bytes, v: Value, t: Bytes)
    requires Valid(v) && BsonSafe(v) && 0 !in key
    ensures ParseElt(Element(key, v) + t) == Elt(Widened(key), Norm(v), t)
    decreases v, 1
  {
    hide Body, Element, ReadScalar, ParseItems, ParseMembers, ReadKey, EncodeItems, EncodeMembers;
    ElementKey(key, v, t);
    if v.List? {
      NestedDocument(v, EncodeItems(v.elements, 0), t);
      ItemsRoundTrip([], v.elements, 0, t);
      EmptyLeft(NormAll(v.elements));
    } else if v.Map? {
      NestedDocument(v, EncodeMembers(v.entries), t);
      MembersRoundTrip([], v.entries, t);
      EmptyLeft(NormEntries(v.entries));
    } else {
      LeafBody(v, t);
    }
  }

  lemma NestedDocument(v: Value, payload: Bytes, t: Bytes)
    requires (v.List? && payload == EncodeItems(v.elements, 0)) || (v.Map? && payload == EncodeMembers(v.entries))
    ensures |Body(v) + t| >= 4 && (Body(v) + t)[4..] == payload + ([BSON_END] + t)
  {
    hide EncodeItems, EncodeMembers;
    var w := Length32(|payload| + 5);
    assert |w| == 4;
    Regroup(w, payload, [BSON_END], t);
    Split(w, payload + ([BSON_END] + t));
  }

  lemma {:induction false} MembersRoundTrip(m: seq<Entry>, es: seq<Entry>, t: Bytes)
    requires Sorted(es) && ValidEntries(es) && BsonSafeEntries(es)
    requires forall x, e :: x in m && e in es ==> Less(x.key, Widened(e.key))
    ensures ParseMembers(m, EncodeMembers(es) + ([BSON_END] + t)) == Item(Map(m + NormEntries(es)), t)
    decreases es, 0
  {
    hide Element, ParseElt, Norm, Insert, Less, Valid, BsonSafe, Widened;
    var rest := [BSON_END] + t;
    if es == [] {
      EmptyLeft(rest);
      EmptyRight(m);
      EndElement(t);
    } else {
      var e := Entry(Widened(es[0].key), Norm(es[0].value));
      Associative(Element(es[0].key, es[0].value), EncodeMembers(es[1..]), rest);
      ElementRoundTrip(es[0].key, es[0].value, EncodeMembers(es[1..]) + rest);
      assert es[0] in es;
      InsertLast(m, e.key, e.value);
      NextKeysLarger(m, es, e.value);
      SortedTail(es);
      MembersRoundTrip(m + [e], es[1..], t);
      Associative(m, [e], NormEntries(es[1..]));
    }
  }

  lemma EndElement(t: Bytes)
    ensures ParseElt([BSON_END] + t) == EltEnd(t)
  {
    assert ([BSON_END] + t)[1..] == t;
  }

  lemma {:induction false} ItemsRoundTrip(list: seq<Value>, vs: seq<Value>, i: nat, t: Bytes)
    requires ValidAll(vs) && BsonSafeAll(vs) && i == |list| && i + |vs| <= 0x8000_0000
    ensures ParseItems(list, EncodeItems(vs, i) + ([BSON_END] + t)) == Item(List(list + NormAll(vs)), t)
    decreases vs, 0
  {
    hide Element, ParseElt, Norm, Valid, BsonSafe, ToInt, IndexKey, Widened;
    var rest := [BSON_END] + t;
    if vs == [] {
      EmptyLeft(rest);
      EmptyRight(list);
      EndElement(t);
    } else {
      var key := IndexKey(i);
      IndexRoundTrip(i);
      Associative(Element(key, vs[0]), EncodeItems(vs[1..], i + 1), rest);
      ElementRoundTrip(key, vs[0], EncodeItems(vs[1..], i + 1) + rest);
      assert InsertAt(list, i, Norm(vs[0])) == list + [Norm(vs[0])];
      ItemsRoundTrip(list + [Norm(vs[0])], vs[1..], i + 1, t);
      Associative(list, [Norm(vs[0])], NormAll(vs[1..]));
    }
  }

  /** A root map comes back with its values and the order of its lists, and the trailer is left. */
  lemma DocumentRoundTrip(es: seq<Entry>, t: Bytes)
    requires Valid(Map(es)) && BsonSafe(Map(es))
    ensures ParseDocument(Document(EncodeMembers(es)) + t) == Item(Norm(Map(es)), t)
  {
    NestedDocument(Map(es), EncodeMembers(es), t);
    MembersRoundTrip([], es, t);
    EmptyLeft(NormEntries(es));
  }
}
