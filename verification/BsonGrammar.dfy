/**
 The BSON reader against the grammar of what it takes: every type with every value of it, length prefixes that
 are not looked at, entries in any order, list elements under any keys.
 */
module BsonGrammar {
  import opened Sequences
  import opened Words
  import opened Values
  import opened Text
  import opened Bcon
  import opened Bson
  import opened JsonPrinter
  import BconGrammar
  import BconRoundTrip
  import BsonRoundTrip

  datatype Wire =
    | WNull
    | WUndefined
    | WBool(flag: byte)
    | WInt32(n: int32)
    | WInt64(l: int64)
    | WDouble(bits: uint64)
    | WDateTime(msecs: int64)
    | WText(isCode: bool, body: Bytes, last: byte)
    | WId(id: Bytes)
    | WData(subtype: byte, body: Bytes)
    | WMap(length: uint32, elements: seq<WireElement>)
    | WList(length: uint32, elements: seq<WireElement>)

  datatype WireElement = WireElement(key: Bytes, value: Wire)

  /** The two subtypes of a UUID are not among the derivations. */
  predicate WellFormed(w: Wire)
    decreases w
  {
    match w
    case WText(_, body, _) => |body| < 0x1_0000_0000
    case WId(id) => |id| == 12
    case WData(subtype, body) => subtype != 3 && subtype != 4 && |body| < 0x1_0000_0000
    case WMap(_, elements) => AllWellFormed(elements)
    case WList(_, elements) => AllWellFormed(elements)
    case _ => true
  }

  predicate AllWellFormed(es: seq<WireElement>)
    decreases es
  {
    es == [] || (0 !in es[0].key && WellFormed(es[0].value) && AllWellFormed(es[1..]))
  }

  function Token(w: Wire): byte {
    match w
    case WDouble(_) => 0x01
    case WText(isCode, _, _) => if isCode then 0x0D else 0x02
    case WMap(_, _) => 0x03
    case WList(_, _) => 0x04
    case WData(_, _) => 0x05
    case WUndefined => 0x06
    case WId(_) => 0x07
    case WBool(_) => 0x08
    case WDateTime(_) => 0x09
    case WNull => 0x0A
    case WInt32(_) => 0x10
    case WInt64(_) => 0x12
  }

  /** What follows the key. */
  function Render(w: Wire): Bytes
    decreases w
  {
    match w
    case WNull => []
    case WUndefined => []
    case WBool(flag) => [flag]
    case WInt32(n) => LittleEndian(if n < 0 then n + 0x1_0000_0000 else n, 4)
    case WInt64(n) => LittleEndian(if n < 0 then n + 0x1_0000_0000_0000_0000 else n, 8)
    case WDouble(bits) => LittleEndian(bits, 8)
    case WDateTime(n) => LittleEndian(if n < 0 then n + 0x1_0000_0000_0000_0000 else n, 8)
    case WText(_, body, last) => LittleEndian(|body| + 1, 4) + body + [last]
    case WId(id) => id
    case WData(subtype, body) => [subtype] + LittleEndian(|body|, 4) + body
    case WMap(length, elements) => LittleEndian(length, 4) + RenderAll(elements) + [0x00]
    case WList(length, elements) => LittleEndian(length, 4) + RenderAll(elements) + [0x00]
  }

  function RenderAll(es: seq<WireElement>): Bytes
    decreases es
  {
    if es == [] then []
    else [Token(es[0].value)] + es[0].key + [0x00] + Render(es[0].value) + RenderAll(es[1..])
  }

  /** The elements of a map are set, and those of a list inserted at the number that their key is, one after the other. */
  function Meaning(w: Wire): Value
    decreases w
  {
    match w
    case WNull => Null
    case WUndefined => Null
    case WBool(flag) => Bool(flag == 0)
    case WInt32(n) => Int(n)
    case WInt64(n) => LongLong(n)
    case WDouble(bits) => Double(bits)
    case WDateTime(n) => DateTime(n)
    case WText(_, body, _) => Str(body)
    case WId(id) => ByteArray(id)
    case WData(_, body) => ByteArray(body)
    case WMap(_, elements) => Map(InsertAll([], MeaningOfAll(elements)))
    case WList(_, elements) => List(PlaceAll([], MeaningOfAll(elements)))
  }

  function MeaningOfAll(es: seq<WireElement>): seq<Entry>
    decreases es
  {
    if es == [] then [] else [Entry(Widened(es[0].key), Meaning(es[0].value))] + MeaningOfAll(es[1..])
  }

  function PlaceAll(list: seq<Value>, more: seq<Entry>): seq<Value>
    decreases more
  {
    if more == [] then list else PlaceAll(InsertAt(list, ToInt(more[0].key), more[0].value), more[1..])
  }

  /** Insertion puts the value at the index, or at the nearer end, and keeps the others in order. */
  lemma InsertAtMeans(list: seq<Value>, i: int, v: Value)
    ensures var at := if i < 0 then 0 else if i > |list| then |list| else i;
            && |InsertAt(list, i, v)| == |list| + 1 && InsertAt(list, i, v)[at] == v
            && (forall j :: 0 <= j < at ==> InsertAt(list, i, v)[j] == list[j])
            && forall j :: at <= j < |list| ==> InsertAt(list, i, v)[j + 1] == list[j]
  {
    if 0 < i < |list| {
      assert InsertAt(list, i, v) == list[..i] + ([v] + list[i..]);
    }
  }

  // ---------- What the grammar derives is read ----------

  lemma ShortBody(w: Wire, t: Bytes)
    requires WellFormed(w) && (w.WNull? || w.WUndefined? || w.WBool? || w.WId?)
    ensures ReadScalar(Token(w), Render(w) + t) == Item(Meaning(w), t)
  {
    if w.WBool? {
      assert ([w.flag] + t)[1..] == t;
    } else if w.WId? {
      Split(w.id, t);
    } else {
      EmptyLeft(t);
    }
  }

  lemma WordBody(w: Wire, t: Bytes)
    requires w.WInt32? || w.WInt64? || w.WDouble? || w.WDateTime?
    ensures ReadScalar(Token(w), Render(w) + t) == Item(Meaning(w), t)
  {
    hide LittleEndian, Encode32, Decode32, Encode64, Decode64;
    match w {
      case WInt32(n) => Word32(Unsigned32(n)); Decode32Encode(Unsigned32(n), t);
      case WInt64(n) => Word64(Unsigned64(n)); Decode64Encode(Unsigned64(n), t);
      case WDouble(bits) => Word64(bits); Decode64Encode(bits, t);
      case WDateTime(n) => Word64(Unsigned64(n)); Decode64Encode(Unsigned64(n), t);
    }
  }

  /** A length word, modulo 2^32. */
  lemma LengthWord(n: nat)
    requires n <= 0x1_0000_0000
    ensures LittleEndian(n, 4) == Encode32(n % 0x1_0000_0000)
  {
    hide LittleEndian, Encode32;
    if n == 0x1_0000_0000 {
      Word32(0);
      FourZeros();
    } else {
      Word32(n);
    }
  }

  lemma FourZeros()
    ensures LittleEndian(0x1_0000_0000, 4) == LittleEndian(0, 4)
  {
    assert LittleEndian(0x100, 1) == LittleEndian(0, 1) == [0];
    assert LittleEndian(0x1_0000, 2) == LittleEndian(0, 2) == [0] + [0];
    assert LittleEndian(0x100_0000, 3) == LittleEndian(0, 3) == [0] + ([0] + [0]);
  }

  lemma LengthBack(n: nat)
    requires n < 0x1_0000_0000
    ensures ((n + 1) % 0x1_0000_0000 + 0xFFFF_FFFF) % 0x1_0000_0000 == n
  {
  }

  lemma TextBody(w: Wire, t: Bytes)
    requires w.WText? && WellFormed(w)
    ensures ReadScalar(Token(w), Render(w) + t) == Item(Meaning(w), t)
  {
    LengthWord(|w.body| + 1);
    LengthBack(|w.body|);
    ReadText(w.isCode, LittleEndian(|w.body| + 1, 4), w.body, w.last, t);
  }

  lemma ReadText(isCode: bool, word: Bytes, body: Bytes, last: byte, t: Bytes)
    requires |body| < 0x1_0000_0000 && word == Encode32((|body| + 1) % 0x1_0000_0000)
    requires ((|body| + 1) % 0x1_0000_0000 + 0xFFFF_FFFF) % 0x1_0000_0000 == |body|
    ensures ReadScalar(if isCode then 0x0D else 0x02, word + body + [last] + t) == Item(Str(body), t)
  {
    var n: uint32 := (|body| + 1) % 0x1_0000_0000;
    Decode32Encode(n, body + ([last] + t));
    hide Encode32, Decode32;
    TextLayout(word, body, last, t);
  }

  lemma TextLayout(word: Bytes, body: Bytes, last: byte, t: Bytes)
    requires |word| == 4
    ensures var b := word + body + [last] + t;
            && b == word + (body + ([last] + t)) && b[..4] == word && |b| == 4 + |body| + 1 + |t|
            && b[4..4 + |body|] == body && b[4 + |body| + 1..] == t
  {
  }

  lemma DataBody(w: Wire, t: Bytes)
    requires w.WData? && WellFormed(w)
    ensures ReadScalar(Token(w), Render(w) + t) == Item(Meaning(w), t)
  {
    Word32(|w.body|);
    Decode32Encode(|w.body|, w.body + t);
    hide LittleEndian, Encode32, Decode32;
    DataLayout(w.subtype, LittleEndian(|w.body|, 4), w.body, t);
  }

  lemma DataLayout(subtype: byte, word: Bytes, body: Bytes, t: Bytes)
    requires |word| == 4
    ensures var b := [subtype] + word + body + t;
            && |b| == 5 + |body| + |t| && b[0] == subtype && b[1..5] == word && b[5..5 + |body|] == body &&
              b[5 + |body|..] == t
  {
  }

  lemma ElementText(es: seq<WireElement>, t: Bytes)
    requires es != []
    ensures RenderAll(es) + t == [Token(es[0].value)] + (es[0].key + [0x00] + (Render(es[0].value) + (RenderAll(es[1..]) + t)))
  {
    hide Render;
    var token, key, body, more := [Token(es[0].value)], es[0].key, Render(es[0].value), RenderAll(es[1..]);
    RegroupSix(token, key, [0x00], body, more, t);
    Associative(key, [0x00], body + (more + t));
  }

  lemma TokenIsNoEnd(w: Wire)
    ensures Token(w) != 0x00
  {
  }

  /** Every derivation is read with its meaning, and exactly what follows it is left. */
  lemma {:induction false} DerivedIsRead(w: Wire, t: Bytes)
    requires WellFormed(w)
    ensures ParseBody(Token(w), Render(w) + t) == Item(Meaning(w), t)
    decreases w, 1
  {
    hide ReadScalar, Meaning, ParseMembers, ParseItems, LittleEndian, RenderAll;
    match w
    case WMap(length, es) =>
      PayloadText(length, RenderAll(es), t);
      MembersAreRead([], es, t);
      MapMeaning(length, es);
    case WList(length, es) =>
      PayloadText(length, RenderAll(es), t);
      ItemsAreRead([], es, t);
      ListMeaning(length, es);
    case WText(_, _, _) => TextBody(w, t);
    case WData(_, _) => DataBody(w, t);
    case WNull => ShortBody(w, t);
    case WUndefined => ShortBody(w, t);
    case WBool(_) => ShortBody(w, t);
    case WId(_) => ShortBody(w, t);
    case WInt32(_) => WordBody(w, t);
    case WInt64(_) => WordBody(w, t);
    case WDouble(_) => WordBody(w, t);
    case WDateTime(_) => WordBody(w, t);
  }

  lemma PayloadText(length: uint32, payload: Bytes, t: Bytes)
    ensures var b := LittleEndian(length, 4) + payload + [0x00] + t;
            |b| >= 4 && b[..4] == LittleEndian(length, 4) && b[4..] == payload + ([0x00] + t)
  {
    Word32(length);
    Decode32Encode(length, []);
    hide LittleEndian, Encode32;
    Regroup(LittleEndian(length, 4), payload, [0x00], t);
    Associative(payload, [0x00], t);
    Split(LittleEndian(length, 4), payload + ([0x00] + t));
  }

  lemma MapMeaning(length: uint32, es: seq<WireElement>)
    ensures Meaning(WMap(length, es)) == Map(InsertAll([], MeaningOfAll(es)))
  {
  }

  lemma ListMeaning(length: uint32, es: seq<WireElement>)
    ensures Meaning(WList(length, es)) == List(PlaceAll([], MeaningOfAll(es)))
  {
  }

  lemma {:induction false} ElementIsRead(es: seq<WireElement>, t: Bytes)
    requires es != [] && AllWellFormed(es)
    ensures ParseElt(RenderAll(es) + t) == Elt(Widened(es[0].key), Meaning(es[0].value), RenderAll(es[1..]) + t)
    decreases es, 0
  {
    hide Render, Meaning, ReadKey, Widened, ParseBody, WellFormed, RenderAll;
    var rest := RenderAll(es[1..]) + t;
    ElementText(es, t);
    TokenIsNoEnd(es[0].value);
    var behind := es[0].key + [0x00] + (Render(es[0].value) + rest);
    Split([Token(es[0].value)], behind);
    BconRoundTrip.ReadKeyBack(es[0].key, Render(es[0].value) + rest);
    DerivedIsRead(es[0].value, rest);
  }

  lemma {:induction false} MembersAreRead(m: seq<Entry>, es: seq<WireElement>, t: Bytes)
    requires AllWellFormed(es)
    ensures ParseMembers(m, RenderAll(es) + ([0x00] + t)) == Item(Map(InsertAll(m, MeaningOfAll(es))), t)
    decreases es, 1
  {
    hide ParseElt, Render, Meaning, Widened, Insert, WellFormed;
    BsonRoundTrip.EndElement(t);
    if es == [] {
      EmptyLeft([0x00] + t);
    } else {
      ElementIsRead(es, [0x00] + t);
      var e := Entry(Widened(es[0].key), Meaning(es[0].value));
      MembersAreRead(Insert(m, e.key, e.value), es[1..], t);
      BconGrammar.InsertAllStep(m, e, MeaningOfAll(es[1..]));
    }
  }

  lemma {:induction false} ItemsAreRead(list: seq<Value>, es: seq<WireElement>, t: Bytes)
    requires AllWellFormed(es)
    ensures ParseItems(list, RenderAll(es) + ([0x00] + t)) == Item(List(PlaceAll(list, MeaningOfAll(es))), t)
    decreases es, 1
  {
    hide ParseElt, Render, Meaning, Widened, InsertAt, ToInt, WellFormed;
    BsonRoundTrip.EndElement(t);
    if es == [] {
      EmptyLeft([0x00] + t);
    } else {
      ElementIsRead(es, [0x00] + t);
      var e := Entry(Widened(es[0].key), Meaning(es[0].value));
      ItemsAreRead(InsertAt(list, ToInt(e.key), e.value), es[1..], t);
      PlaceAllStep(list, e, MeaningOfAll(es[1..]));
    }
  }

  lemma PlaceAllStep(list: seq<Value>, e: Entry, more: seq<Entry>)
    ensures PlaceAll(list, [e] + more) == PlaceAll(InsertAt(list, ToInt(e.key), e.value), more)
  {
    assert ([e] + more)[1..] == more;
  }

  // ---------- What is read is derived by the grammar ----------

  ghost predicate Derives(w: Wire, token: byte, b: Bytes, v: Value, rest: Bytes) {
    WellFormed(w) && Token(w) == token && b == Render(w) + rest && v == Meaning(w)
  }

  lemma ShortIsDerived(token: byte, b: Bytes) returns (w: Wire)
    requires token == 0x06 || token == 0x07 || token == 0x08 || token == 0x0A
    requires ReadScalar(token, b).Item?
    ensures Derives(w, token, b, ReadScalar(token, b).value, ReadScalar(token, b).rest)
  {
    if token == 0x07 {
      w := WId(b[..12]);
    } else if token == 0x08 {
      w := WBool(b[0]);
      assert b == [b[0]] + b[1..];
    } else {
      w := if token == 0x06 then WUndefined else WNull;
      EmptyLeft(b);
    }
  }

  lemma WordIsDerived(token: byte, b: Bytes) returns (w: Wire)
    requires token == 0x01 || token == 0x09 || token == 0x10 || token == 0x12
    requires ReadScalar(token, b).Item?
    ensures Derives(w, token, b, ReadScalar(token, b).value, ReadScalar(token, b).rest)
  {
    if token == 0x10 {
      Encode32Decode(b[..4]);
      Word32(Decode32(b[..4]));
    } else {
      Encode64Decode(b[..8]);
      Word64(Decode64(b[..8]));
    }
    hide LittleEndian, Encode32, Decode32, Encode64, Decode64;
    if token == 0x10 {
      w := WInt32(Signed32(Decode32(b[..4])));
      assert b == b[..4] + b[4..];
    } else {
      var n := Decode64(b[..8]);
      w := if token == 0x01 then WDouble(n) else if token == 0x09 then WDateTime(Signed64(n)) else WInt64(Signed64(n));
      assert b == b[..8] + b[8..];
    }
  }

  lemma LengthForth(n: uint32)
    ensures ((n + 0xFFFF_FFFF) % 0x1_0000_0000 + 1) % 0x1_0000_0000 == n
  {
  }

  lemma TextIsDerived(token: byte, b: Bytes) returns (w: Wire)
    requires (token == 0x02 || token == 0x0D) && ReadScalar(token, b).Item?
    ensures Derives(w, token, b, ReadScalar(token, b).value, ReadScalar(token, b).rest)
  {
    var len := LengthOfText(token, b);
    hide ReadScalar, LittleEndian, Decode32;
    w := WText(token == 0x0D, b[4..4 + len], b[4 + len]);
    CutText(b, len);
  }

  lemma LengthOfText(token: byte, b: Bytes) returns (len: nat)
    requires (token == 0x02 || token == 0x0D) && ReadScalar(token, b).Item?
    ensures 4 + len < |b| && len < 0x1_0000_0000 && b[..4] == LittleEndian(len + 1, 4)
    ensures ReadScalar(token, b) == Item(Str(b[4..4 + len]), b[4 + len + 1..])
  {
    var n := Decode32(b[..4]);
    len := (n as int + 0xFFFF_FFFF) % 0x1_0000_0000;
    LengthForth(n);
    LengthWord(len + 1);
    Encode32Decode(b[..4]);
    hide LittleEndian, Encode32, Decode32;
  }

  lemma CutText(b: Bytes, len: nat)
    requires 4 + len < |b|
    ensures b == b[..4] + b[4..4 + len] + [b[4 + len]] + b[4 + len + 1..]
  {
  }

  lemma DataIsDerived(b: Bytes) returns (w: Wire)
    requires ReadScalar(0x05, b).Item?
    ensures Derives(w, 0x05, b, ReadScalar(0x05, b).value, ReadScalar(0x05, b).rest)
  {
    var len := Decode32(b[1..5]);
    Encode32Decode(b[1..5]);
    Word32(len);
    hide LittleEndian, Encode32, Decode32;
    w := WData(b[0], b[5..5 + len]);
    CutData(b, len);
  }

  lemma CutData(b: Bytes, len: nat)
    requires 5 + len <= |b|
    ensures b == [b[0]] + b[1..5] + b[5..5 + len] + b[5 + len..]
  {
  }

  lemma ScalarIsDerived(token: byte, b: Bytes) returns (w: Wire)
    requires ReadScalar(token, b).Item?
    ensures Derives(w, token, b, ReadScalar(token, b).value, ReadScalar(token, b).rest)
  {
    ScalarTokens(token, b);
    hide ReadScalar, Render, Meaning, Token;
    if token == 0x06 || token == 0x07 || token == 0x08 || token == 0x0A {
      w := ShortIsDerived(token, b);
    } else if token == 0x02 || token == 0x0D {
      w := TextIsDerived(token, b);
    } else if token == 0x05 {
      w := DataIsDerived(b);
    } else {
      w := WordIsDerived(token, b);
    }
  }

  lemma ScalarTokens(token: byte, b: Bytes)
    requires ReadScalar(token, b).Item?
    ensures token in {0x01, 0x02, 0x05, 0x06, 0x07, 0x08, 0x09, 0x0A, 0x0D, 0x10, 0x12}
  {
  }

  /** Whatever bytes are read as a value, the grammar derives them with that meaning. */
  lemma {:induction false} ReadIsDerived(token: byte, b: Bytes) returns (w: Wire)
    requires ParseBody(token, b).Item?
    ensures Derives(w, token, b, ParseBody(token, b).value, ParseBody(token, b).rest)
    decreases |b|, 1
  {
    hide ReadScalar, ParseMembers, ParseItems, Derives;
    if token == 0x03 {
      var es := MembersAreDerived([], b[4..]);
      w := MapIsDerived(b, es);
    } else if token == 0x04 {
      var es := ItemsAreDerived([], b[4..]);
      w := ListIsDerived(b, es);
    } else {
      w := ScalarIsDerived(token, b);
    }
  }

  lemma MapIsDerived(b: Bytes, es: seq<WireElement>) returns (w: Wire)
    requires |b| >= 4 && ParseMembers([], b[4..]).Item? && AllWellFormed(es)
    requires b[4..] == RenderAll(es) + ([0x00] + ParseMembers([], b[4..]).rest)
    requires ParseMembers([], b[4..]).value == Map(InsertAll([], MeaningOfAll(es)))
    ensures Derives(w, 0x03, b, ParseBody(0x03, b).value, ParseBody(0x03, b).rest)
  {
    var length := PrefixIsDerived(b, RenderAll(es), ParseMembers([], b[4..]).rest);
    hide LittleEndian, RenderAll, AllWellFormed, ParseMembers, ReadScalar, Meaning;
    w := WMap(length, es);
    MapMeaning(length, es);
  }

  lemma ListIsDerived(b: Bytes, es: seq<WireElement>) returns (w: Wire)
    requires |b| >= 4 && ParseItems([], b[4..]).Item? && AllWellFormed(es)
    requires b[4..] == RenderAll(es) + ([0x00] + ParseItems([], b[4..]).rest)
    requires ParseItems([], b[4..]).value == List(PlaceAll([], MeaningOfAll(es)))
    ensures Derives(w, 0x04, b, ParseBody(0x04, b).value, ParseBody(0x04, b).rest)
  {
    var length := PrefixIsDerived(b, RenderAll(es), ParseItems([], b[4..]).rest);
    hide LittleEndian, RenderAll, AllWellFormed, ParseItems, ReadScalar, Meaning;
    w := WList(length, es);
    ListMeaning(length, es);
  }

  lemma PrefixIsDerived(b: Bytes, payload: Bytes, rest: Bytes) returns (length: uint32)
    requires |b| >= 4 && b[4..] == payload + ([0x00] + rest)
    ensures b == LittleEndian(length, 4) + payload + [0x00] + rest
  {
    length := Decode32(b[..4]);
    Encode32Decode(b[..4]);
    Word32(length);
    hide LittleEndian, Encode32, Decode32;
    PayloadText(length, payload, rest);
    assert b == b[..4] + b[4..];
    Regroup(b[..4], payload, [0x00], rest);
    Associative(payload, [0x00], rest);
  }

  lemma {:induction false} ElementIsDerived(b: Bytes) returns (e: WireElement)
    requires ParseElt(b).Elt?
    ensures 0 !in e.key && WellFormed(e.value) && ParseElt(b).key == Widened(e.key) &&
            ParseElt(b).value == Meaning(e.value)
    ensures b == [Token(e.value)] + (e.key + [0x00] + (Render(e.value) + ParseElt(b).rest))
    decreases |b|, 0
  {
    hide ParseBody, ReadKey, Widened, Render, Meaning, WellFormed, Token;
    var key := BconGrammar.KeyIsDerived(b[1..]);
    var w := ReadIsDerived(b[0], ReadKey(b[1..]).rest);
    e := WireElement(key, w);
    assert b == [b[0]] + b[1..];
  }

  lemma {:induction false} MembersAreDerived(m: seq<Entry>, b: Bytes) returns (es: seq<WireElement>)
    requires ParseMembers(m, b).Item?
    ensures AllWellFormed(es) && b == RenderAll(es) + ([0x00] + ParseMembers(m, b).rest)
    ensures ParseMembers(m, b).value == Map(InsertAll(m, MeaningOfAll(es)))
    decreases |b|, 1
  {
    hide ParseElt, Render, Meaning, WellFormed, Token, Widened, Insert;
    var p, rest := ParseElt(b), ParseMembers(m, b).rest;
    if p.EltEnd? {
      EndIsZero(b);
      es := [];
      EmptyLeft([0x00] + rest);
    } else {
      var e := ElementIsDerived(b);
      var more := MembersAreDerived(Insert(m, p.key, p.value), p.rest);
      es := [e] + more;
      assert es[1..] == more;
      ElementText(es, [0x00] + rest);
      BconGrammar.InsertAllStep(m, Entry(p.key, p.value), MeaningOfAll(more));
    }
  }

  lemma EndIsZero(b: Bytes)
    requires ParseElt(b).EltEnd?
    ensures b == [0x00] + ParseElt(b).rest
  {
  }

  lemma {:induction false} ItemsAreDerived(list: seq<Value>, b: Bytes) returns (es: seq<WireElement>)
    requires ParseItems(list, b).Item?
    ensures AllWellFormed(es) && b == RenderAll(es) + ([0x00] + ParseItems(list, b).rest)
    ensures ParseItems(list, b).value == List(PlaceAll(list, MeaningOfAll(es)))
    decreases |b|, 1
  {
    hide ParseElt, Render, Meaning, WellFormed, Token, Widened, InsertAt, ToInt;
    var p, rest := ParseElt(b), ParseItems(list, b).rest;
    if p.EltEnd? {
      EndIsZero(b);
      es := [];
      EmptyLeft([0x00] + rest);
    } else {
      var e := ElementIsDerived(b);
      var more := ItemsAreDerived(InsertAt(list, ToInt(p.key), p.value), p.rest);
      es := [e] + more;
      assert es[1..] == more;
      ElementText(es, [0x00] + rest);
      PlaceAllStep(list, Entry(p.key, p.value), MeaningOfAll(more));
    }
  }

  /** The reader of a body and the grammar agree. */
  lemma ReaderIsGrammar(token: byte, b: Bytes, v: Value, rest: Bytes)
    ensures ParseBody(token, b) == Item(v, rest) <==> exists w :: Derives(w, token, b, v, rest)
  {
    hide ParseBody, Render, Meaning, WellFormed, Token;
    if ParseBody(token, b) == Item(v, rest) {
      var w := ReadIsDerived(token, b);
    }
    if w :| Derives(w, token, b, v, rest) {
      DerivedIsRead(w, rest);
    }
  }

  /** A whole document is a map, and its length prefix is not looked at. */
  lemma DocumentIsGrammar(b: Bytes, v: Value, rest: Bytes)
    ensures ParseDocument(b) == Item(v, rest) <==> exists w :: Derives(w, 0x03, b, v, rest)
  {
    hide Derives;
    assert ParseDocument(b) == ParseBody(0x03, b);
    ReaderIsGrammar(0x03, b, v, rest);
  }

  /** Elements in any order, keys repeated or not: the map is in key order and holds the last value of each key. */
  lemma MapsHoldTheLast(length: uint32, es: seq<WireElement>, t: Bytes)
    requires AllWellFormed(es)
    ensures var p := ParseBody(0x03, Render(WMap(length, es)) + t);
            && p.Item? && p.rest == t && p.value.Map? && Sorted(p.value.entries)
            && AsMap(p.value.entries) == SetAll(map[], MeaningOfAll(es))
  {
    hide ParseBody, Render;
    DerivedIsRead(WMap(length, es), t);
    InsertAllSets([], MeaningOfAll(es));
  }

  // ---------- The derivations of the writer ----------

  /** What is sent for a value: the numbers in their own width, a NUL behind a text, the length of the whole document. */
  function Chosen(v: Value): Wire
    decreases v
  {
    match v
    case Null => WNull
    case Bool(b) => WBool(if b then 0 else 1)
    case Char(c) => WInt32(c)
    case Int(n) => WInt32(n)
    case UInt(u) => WInt32(if u < 0x8000_0000 then u else u - 0x1_0000_0000)
    case LongLong(l) => WInt64(l)
    case ULongLong(u) => WInt64(if u < 0x8000_0000_0000_0000 then u else u - 0x1_0000_0000_0000_0000)
    case Double(bits) => WDouble(bits)
    case DateTime(ms) => WDateTime(ms)
    case Str(s) => WText(false, s, 0)
    case ByteArray(a) => WData(0, a)
    case List(vs) => WList(DocumentSize(ChosenItems(vs, 0)), ChosenItems(vs, 0))
    case Map(es) => WMap(DocumentSize(ChosenMembers(es)), ChosenMembers(es))
  }

  function DocumentSize(es: seq<WireElement>): uint32 {
    (4 + |RenderAll(es)| + 1) % 0x1_0000_0000
  }

  /** The key of an element is its index in decimal. */
  function ChosenItems(vs: seq<Value>, i: nat): seq<WireElement>
    decreases vs
  {
    if vs == [] then []
    else [WireElement(NumberText(i % 0x1_0000_0000), Chosen(vs[0]))] + ChosenItems(vs[1..], i + 1)
  }

  function ChosenMembers(es: seq<Entry>): seq<WireElement>
    decreases es
  {
    if es == [] then [] else [WireElement(es[0].key, Chosen(es[0].value))] + ChosenMembers(es[1..])
  }

  /** Where the writer meets the format, that is but for 64-bit integers and filled byte arrays, this is what it sends. */
  lemma {:induction false} IsSent(v: Value)
    requires BsonRoundTrip.BsonSafe(v)
    ensures WellFormed(Chosen(v)) && TokenOf(v) == Token(Chosen(v)) && Body(v) == Render(Chosen(v))
    decreases v, 1
  {
    hide Body, Render, Chosen, WellFormed, Token, TokenOf;
    match v
    case List(vs) =>
      ItemsAreSent(vs, 0);
      ListIsSent(vs);
    case Map(es) =>
      MembersAreSent(es);
      MapIsSent(es);
    case Str(s) => TextIsSent(s);
    case ByteArray(_) => FiveZeros();
    case _ => NumberIsSent(v);
  }

  lemma ListIsSent(vs: seq<Value>)
    requires AllWellFormed(ChosenItems(vs, 0)) && EncodeItems(vs, 0) == RenderAll(ChosenItems(vs, 0))
    ensures var w := Chosen(List(vs)); WellFormed(w) && TokenOf(List(vs)) == Token(w) && Body(List(vs)) == Render(w)
  {
    DocumentIsSent(EncodeItems(vs, 0), ChosenItems(vs, 0));
    hide LittleEndian, Document, RenderAll, EncodeItems, AllWellFormed, DocumentSize, ChosenItems;
  }

  lemma MapIsSent(es: seq<Entry>)
    requires AllWellFormed(ChosenMembers(es)) && EncodeMembers(es) == RenderAll(ChosenMembers(es))
    ensures var w := Chosen(Map(es)); WellFormed(w) && TokenOf(Map(es)) == Token(w) && Body(Map(es)) == Render(w)
  {
    DocumentIsSent(EncodeMembers(es), ChosenMembers(es));
    hide LittleEndian, Document, RenderAll, EncodeMembers, AllWellFormed, DocumentSize, ChosenMembers;
  }

  lemma TextIsSent(s: Bytes)
    requires |s| + 1 < 0x1_0000_0000
    ensures var w := Chosen(Str(s)); WellFormed(w) && TokenOf(Str(s)) == Token(w) && Body(Str(s)) == Render(w)
  {
    LengthWord(|s| + 1);
    hide LittleEndian, Encode32;
  }

  lemma DocumentIsSent(payload: Bytes, es: seq<WireElement>)
    requires payload == RenderAll(es)
    ensures Document(payload) == LittleEndian(DocumentSize(es), 4) + RenderAll(es) + [0x00]
  {
    hide LittleEndian, Encode32, RenderAll;
    LengthWord((|payload| + 5) % 0x1_0000_0000);
  }

  lemma NumberIsSent(v: Value)
    requires BsonRoundTrip.BsonSafe(v) && !v.List? && !v.Map? && !v.Str? && !v.ByteArray?
    ensures WellFormed(Chosen(v)) && TokenOf(v) == Token(Chosen(v)) && Body(v) == Render(Chosen(v))
  {
    hide LittleEndian, Encode32, Encode64;
    match v
    case Char(c) => Word32(c);
    case Int(n) => Word32(Unsigned32(n));
    case UInt(u) => Word32(u);
    case Double(bits) => Word64(bits);
    case DateTime(ms) => Word64(Unsigned64(ms));
    case _ =>
  }

  lemma FiveZeros()
    ensures var v := ByteArray([]); WellFormed(Chosen(v)) && TokenOf(v) == Token(Chosen(v)) && Body(v) == Render(Chosen(v))
  {
    hide Encode32;
    LengthWord(0);
    assert LittleEndian(0, 1) == [0] && LittleEndian(0, 2) == [0, 0] && LittleEndian(0, 3) == [0, 0, 0];
    assert LittleEndian(0, 4) == [0, 0, 0, 0];
  }

  lemma {:induction false} ItemsAreSent(vs: seq<Value>, i: nat)
    requires BsonRoundTrip.BsonSafeAll(vs)
    ensures AllWellFormed(ChosenItems(vs, i)) && EncodeItems(vs, i) == RenderAll(ChosenItems(vs, i))
    decreases vs, 0
  {
    hide Body, Render, Chosen, WellFormed, Token, TokenOf, NumberText;
    if vs != [] {
      IsSent(vs[0]);
      ItemsAreSent(vs[1..], i + 1);
      DecimalHasNoNul(i % 0x1_0000_0000);
      assert ChosenItems(vs, i)[1..] == ChosenItems(vs[1..], i + 1);
    }
  }

  lemma DecimalHasNoNul(n: nat)
    ensures 0 !in NumberText(n)
  {
  }

  lemma {:induction false} MembersAreSent(es: seq<Entry>)
    requires BsonRoundTrip.BsonSafeEntries(es)
    ensures AllWellFormed(ChosenMembers(es)) && EncodeMembers(es) == RenderAll(ChosenMembers(es))
    decreases es, 0
  {
    hide Body, Render, Chosen, WellFormed, Token, TokenOf;
    if es != [] {
      IsSent(es[0].value);
      MembersAreSent(es[1..]);
      assert ChosenMembers(es)[1..] == ChosenMembers(es[1..]);
    }
  }
}
