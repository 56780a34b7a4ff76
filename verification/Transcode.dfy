/**
 From JSON text to BCON and back: the values the JSON parser can produce, and when they survive.
 */
module Transcode {
  import opened Sequences
  import opened Words
  import opened Values
  import opened Text
  import opened JsonScanner
  import opened JsonParser
  import Bcon
  import BconRoundTrip
  import BconExact

  /** The values of JSON texts: no negative Int, no small LongLong, and only these types. */
  predicate JsonValue(v: Value)
    decreases v
  {
    match v
    case Null => true
    case Bool(_) => true
    case Int(n) => 0 <= n
    case LongLong(n) => !(0 <= n < 0x8000_0000)
    case Double(_) => true
    case Str(_) => true
    case List(vs) => JsonValueAll(vs)
    case Map(es) => Sorted(es) && JsonValueEntries(es)
    case _ => false
  }

  predicate JsonValueAll(vs: seq<Value>)
    decreases vs
  {
    vs == [] || (JsonValue(vs[0]) && JsonValueAll(vs[1..]))
  }

  predicate JsonValueEntries(es: seq<Entry>)
    decreases es
  {
    es == [] || (JsonValue(es[0].value) && JsonValueEntries(es[1..]))
  }

  lemma {:induction false} AppendJsonValue(vs: seq<Value>, v: Value)
    requires JsonValueAll(vs) && JsonValue(v)
    ensures JsonValueAll(vs + [v])
  {
    if vs == [] {
      assert [v][1..] == [] && vs + [v] == [v];
    } else {
      AppendJsonValue(vs[1..], v);
      assert (vs + [v])[1..] == vs[1..] + [v];
    }
  }

  lemma {:induction false} InsertJsonValue(es: seq<Entry>, key: Bytes, v: Value)
    requires JsonValueEntries(es) && JsonValue(v)
    ensures JsonValueEntries(Insert(es, key, v))
  {
    var e := Entry(key, v);
    if es == [] {
      assert [e][1..] == [];
    } else if key == es[0].key {
      assert ([e] + es[1..])[1..] == es[1..];
    } else if Less(key, es[0].key) {
      assert ([e] + es)[1..] == es;
    } else {
      InsertJsonValue(es[1..], key, v);
      assert ([es[0]] + Insert(es[1..], key, v))[1..] == Insert(es[1..], key, v);
    }
  }

  lemma {:induction false} StringTokenOnly(b: Bytes, state: Condition, str: Bytes)
    ensures !ScanString(b, state, str).token.TVariant?
    decreases |b|
  {
    if b != [] {
      if b[0] == 0x0A {
        StringTokenOnly(b[1..], state, str);
      } else if state == STRING_ESCAPE_UNICODE {
        if HexAhead(b) {
          StringTokenOnly(b[4..], STRING, str + Utf8(HexCode(b[..4])));
        }
      } else {
        var next := ScanString(b, state, str);
        forall s, x | true
          ensures !ScanString(b[1..], s, x).token.TVariant?
        {
          StringTokenOnly(b[1..], s, x);
        }
      }
    }
  }

  lemma NumberToken(dv: DoubleValue, b: Bytes)
    requires IntegerLength(b) > 0
    ensures ScanNumber(dv, b).token.TVariant? && JsonValue(ScanNumber(dv, b).token.value)
  {
    hide IntegerLength, FractionLength, ExponentLength, ToLongLong;
  }

  lemma KeywordToken(b: Bytes)
    requires b != []
    ensures var token := ScanKeyword(b).token; token.TVariant? ==> JsonValue(token.value)
  {
    hide StartsWith;
  }

  lemma {:induction false} TokenValue(dv: DoubleValue, b: Bytes)
    ensures var token := NextToken(dv, b).token; token.TVariant? ==> JsonValue(token.value)
    decreases |b|
  {
    hide ScanString, ScanNumber, ScanKeyword, IntegerLength, JsonValue;
    if b != [] {
      if IsSpace(b[0]) {
        TokenValue(dv, b[1..]);
      } else {
        StringTokenOnly(b[1..], STRING, []);
        KeywordToken(b);
        if IntegerLength(b) > 0 {
          NumberToken(dv, b);
        }
      }
    }
  }

  /** Whatever the text, a parsed value is a JSON value. */
  lemma {:induction false} ParsedVariant(dv: DoubleValue, b: Bytes)
    ensures var r := ParseVariant(dv, b); r.Item? ==> JsonValue(r.value)
    decreases |b|, 1
  {
    hide NextToken;
    var s := NextToken(dv, b);
    TokenValue(dv, b);
    if s.token == TObjBegin {
      ParsedMember(dv, [], s.rest);
    } else if s.token == TArrBegin {
      ParsedElement(dv, [], s.rest);
    }
  }

  lemma {:induction false} ParsedMember(dv: DoubleValue, m: seq<Entry>, b: Bytes)
    requires Sorted(m) && JsonValueEntries(m)
    ensures var r := ParseMember(dv, m, b); r.Item? ==> JsonValue(r.value)
    decreases |b|, 0
  {
    hide NextToken, JsonValue, Insert, Less;
    var key := NextToken(dv, b);
    if key.token.TString? {
      var sep := NextToken(dv, key.rest);
      if sep.token == TMemberSep {
        ParsedVariant(dv, sep.rest);
        var r := ParseVariant(dv, sep.rest);
        if r.Item? {
          InsertSorted(m, key.token.text, r.value);
          InsertJsonValue(m, key.token.text, r.value);
          ParsedMoreMembers(dv, Insert(m, key.token.text, r.value), r.rest);
        }
      }
    }
  }

  lemma {:induction false} ParsedMoreMembers(dv: DoubleValue, m: seq<Entry>, b: Bytes)
    requires Sorted(m) && JsonValueEntries(m)
    ensures var r := ParseMoreMembers(dv, m, b); r.Item? ==> JsonValue(r.value)
    decreases |b|, 0
  {
    hide NextToken;
    var s := NextToken(dv, b);
    if s.token == TElementSep {
      ParsedMember(dv, m, s.rest);
    }
  }

  lemma {:induction false} ParsedElement(dv: DoubleValue, list: seq<Value>, b: Bytes)
    requires JsonValueAll(list)
    ensures var r := ParseElement(dv, list, b); r.Item? ==> JsonValue(r.value)
    decreases |b|, 2
  {
    hide NextToken, JsonValue;
    ParsedVariant(dv, b);
    var r := ParseVariant(dv, b);
    if r.Item? {
      AppendJsonValue(list, r.value);
      ParsedMoreElements(dv, list + [r.value], r.rest);
    }
  }

  lemma {:induction false} ParsedMoreElements(dv: DoubleValue, list: seq<Value>, b: Bytes)
    requires JsonValueAll(list)
    ensures var r := ParseMoreElements(dv, list, b); r.Item? ==> JsonValue(r.value)
    decreases |b|, 0
  {
    hide NextToken;
    var s := NextToken(dv, b);
    if s.token == TElementSep {
      ParsedElement(dv, list, s.rest);
    }
  }

  // ---------- Through BCON ----------

  /** Every key in the value, at any level, is ASCII. */
  predicate AsciiKeys(v: Value)
    decreases v
  {
    match v
    case List(vs) => AsciiKeysAll(vs)
    case Map(es) => AsciiKeysEntries(es)
    case _ => true
  }

  predicate AsciiKeysAll(vs: seq<Value>)
    decreases vs
  {
    vs == [] || (AsciiKeys(vs[0]) && AsciiKeysAll(vs[1..]))
  }

  predicate AsciiKeysEntries(es: seq<Entry>)
    decreases es
  {
    es == [] || (AsciiKeys(es[0].value) && Ascii(es[0].key) && AsciiKeysEntries(es[1..]))
  }

  /**
     A JSON value is its own normal form exactly when its keys are ASCII, and its integers are never in the
     window of lost signs.
   */
  lemma {:induction false} JsonValueIsNormal(v: Value)
    requires JsonValue(v)
    ensures Valid(v) && (BconRoundTrip.Norm(v) == v <==> AsciiKeys(v))
    ensures BconRoundTrip.SafeInts(v)
    decreases v, 1
  {
    if v.List? {
      JsonValuesAreNormal(v.elements);
    } else if v.Map? {
      JsonEntriesAreNormal(v.entries);
    }
  }

  lemma {:induction false} JsonValuesAreNormal(vs: seq<Value>)
    requires JsonValueAll(vs)
    ensures ValidAll(vs) && (BconRoundTrip.NormAll(vs) == vs <==> AsciiKeysAll(vs))
    ensures BconRoundTrip.SafeIntsAll(vs)
    decreases vs, 0
  {
    if vs != [] {
      JsonValueIsNormal(vs[0]);
      JsonValuesAreNormal(vs[1..]);
      SameParts(vs[0], vs[1..], BconRoundTrip.Norm(vs[0]), BconRoundTrip.NormAll(vs[1..]));
      assert vs == [vs[0]] + vs[1..];
    }
  }

  lemma {:induction false} JsonEntriesAreNormal(es: seq<Entry>)
    requires JsonValueEntries(es)
    ensures ValidEntries(es) && (BconRoundTrip.NormEntries(es) == es <==> AsciiKeysEntries(es))
    ensures BconRoundTrip.SafeIntsEntries(es)
    decreases es, 0
  {
    if es != [] {
      JsonValueIsNormal(es[0].value);
      JsonEntriesAreNormal(es[1..]);
      UnchangedIffAscii(es[0].key);
      var e := Entry(Widened(es[0].key), BconRoundTrip.Norm(es[0].value));
      SameParts(es[0], es[1..], e, BconRoundTrip.NormEntries(es[1..]));
      assert es == [es[0]] + es[1..];
    }
  }

  lemma {:induction false} ReadableIsNulFree(v: Value)
    ensures BconExact.Readable(v) ==> BconRoundTrip.NulFree(v)
    decreases v, 1
  {
    if v.List? {
      ReadableAllIsNulFree(v.elements);
    } else if v.Map? {
      ReadableEntriesIsNulFree(v.entries);
    }
  }

  lemma {:induction false} ReadableAllIsNulFree(vs: seq<Value>)
    ensures BconExact.ReadableAll(vs) ==> BconRoundTrip.NulFreeAll(vs)
    decreases vs, 0
  {
    if vs != [] {
      ReadableIsNulFree(vs[0]);
      ReadableAllIsNulFree(vs[1..]);
    }
  }

  lemma {:induction false} ReadableEntriesIsNulFree(es: seq<Entry>)
    ensures BconExact.ReadableEntries(es) ==> BconRoundTrip.NulFreeEntries(es)
    decreases es, 0
  {
    if es != [] {
      ReadableIsNulFree(es[0].value);
      ReadableEntriesIsNulFree(es[1..]);
    }
  }

  /** The value of a text comes back from BCON exactly, types included, and what follows is left. */
  predicate Returns(layout: Bcon.Layout, v: Value, t: Bytes) {
    Bcon.Parse(Bcon.Encode(layout, v) + t) == Bcon.Item(v, t)
  }

  /**
     Whatever the text: its value never returns if a key in it holds a NUL; if the layout carries the lengths of
     its strings, it returns if and only if every key is ASCII without NUL; and if it holds no object, it
     returns if and only if the layout carries these lengths.
   */
  lemma Lossless(dv: DoubleValue, text: Bytes, layout: Bcon.Layout, t: Bytes)
    requires ParseRoot(dv, text).Result?
    ensures var v := ParseRoot(dv, text).value;
            && (Returns(layout, v, t) ==> BconRoundTrip.NulFree(v))
            && (BconRoundTrip.SafeLengths(layout, v) ==>
                  (Returns(layout, v, t) <==> AsciiKeys(v) && BconRoundTrip.NulFree(v)))
            && (BconExact.Plain(layout, v) && BconExact.Written(v) ==>
                  (Returns(layout, v, t) <==> BconRoundTrip.SafeLengths(layout, v)))
  {
    hide Bcon.Parse, Bcon.Encode, NextToken, ParseVariant;
    ParsedVariant(dv, text);
    var v := ParseRoot(dv, text).value;
    JsonValueIsNormal(v);
    ReadableIsNulFree(v);
    BconExact.ParsedReadable(Bcon.Encode(layout, v) + t);
    if BconRoundTrip.SafeLengths(layout, v) {
      BconExact.SafeLengthsExact(layout, v, t);
    }
    if BconExact.Plain(layout, v) && BconExact.Written(v) {
      PlainHasNoKeys(layout, v);
      BconExact.RoundTripExact(layout, v, t);
    }
  }

  lemma {:induction false} PlainHasNoKeys(layout: Bcon.Layout, v: Value)
    requires BconExact.Plain(layout, v)
    ensures AsciiKeys(v) && BconRoundTrip.NulFree(v)
    decreases v, 1
  {
    if v.List? {
      PlainAllHasNoKeys(layout, v.elements);
    }
  }

  lemma {:induction false} PlainAllHasNoKeys(layout: Bcon.Layout, vs: seq<Value>)
    requires BconExact.PlainAll(layout, vs)
    ensures AsciiKeysAll(vs) && BconRoundTrip.NulFreeAll(vs)
    decreases vs, 0
  {
    if vs != [] {
      PlainHasNoKeys(layout, vs[0]);
      PlainAllHasNoKeys(layout, vs[1..]);
    }
  }

  /** An escaped NUL in a JSON string does reach the value. */
  lemma NulFromText(dv: DoubleValue, t: Bytes)
    ensures NextToken(dv, [0x22, 0x5C, 0x75, 0x30, 0x30, 0x30, 0x30, 0x22] + t) == Scan(TString([0]), t)
  {
    var close: Bytes := [0x22] + t;
    var digits: Bytes := [0x30, 0x30, 0x30, 0x30] + close;
    var letter: Bytes := [0x75] + digits;
    var escape: Bytes := [0x5C] + letter;
    assert close[1..] == t && letter[1..] == digits && escape[1..] == letter;
    assert digits[..4] == [0x30, 0x30, 0x30, 0x30] && digits[4..] == close;
    EmptyLeft(Utf8(0));
    assert HexAhead(digits) && HexCode(digits[..4]) == 0;
    assert ScanString(close, STRING, [0]) == Scan(TString([0]), t);
    assert ScanString(digits, STRING_ESCAPE_UNICODE, []) == Scan(TString([0]), t);
    assert ScanString(letter, STRING_ESCAPE, []) == Scan(TString([0]), t);
    assert ScanString(escape, STRING, []) == Scan(TString([0]), t);
    assert ([0x22] + escape)[1..] == escape;
    assert [0x22, 0x5C, 0x75, 0x30, 0x30, 0x30, 0x30, 0x22] + t == [0x22] + escape;
  }

  /** But as a key it is lost in BCON: the key comes back empty and one byte stays unread. */
  lemma NulKeyIsLost(layout: Bcon.Layout, v: Value, t: Bytes)
    requires Valid(v) && BconRoundTrip.WireSafe(layout, v)
    ensures Bcon.Parse(Bcon.Encode(layout, Map([Entry([0], v)])) + t) ==
            Bcon.Item(Map([Entry([], BconRoundTrip.Norm(v))]), [0] + t)
  {
    hide Bcon.Parse, Bcon.Encode;
    var es := [Entry([0], v)];
    BconRoundTrip.OpenMap(layout, es, t);
    BconRoundTrip.EntriesSplit(layout, es, t);
    assert es[1..] == [] && Bcon.EncodeEntries(layout, es[1..]) == [];
    var afterValue := [0] + ([0] + ([0] + t));
    assert [0] + [0] + ([] + [0] + t) == afterValue;
    BconRoundTrip.RoundTrip(layout, v, afterValue);
    assert afterValue[1..] == [0] + ([0] + t);
    BconRoundTrip.CloseMap([Entry([], BconRoundTrip.Norm(v))], [0] + t);
  }

  /** And the two bytes of an accented letter in a key come back as two letters of two bytes each. */
  lemma AccentIsWidened(t: Bytes)
    ensures Bcon.ReadKey([0xC3, 0xA9] + [0] + t) == Bcon.Key([0xC3, 0x83, 0xC2, 0xA9], t)
  {
    var key: Bytes := [0xC3, 0xA9];
    BconRoundTrip.ReadKeyBack(key, t);
    assert key[1..] == [0xA9] && key[1..][1..] == [];
    EmptyRight(Utf8(0xA9));
    assert Widened([0xA9]) == Utf8(0xA9);
    assert Utf8(0xC3) + Utf8(0xA9) == [0xC3, 0x83, 0xC2, 0xA9];
  }
}
