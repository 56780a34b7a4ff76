/**
 Text that is read one byte at a time: QString::append of a char makes each byte a character of its own.
 A string is kept as the UTF-8 bytes of its characters, so text read in this way is widened; only ASCII
 text is unchanged.
 */
module Text {
  import opened Sequences
  import opened Words
  import opened Values

  /** The UTF-8 bytes of a character of the basic multilingual plane. */
  function Utf8(code: uint16): Bytes {
    if code < 0x80 then [code]
    else if code < 0x800 then [0xC0 + code / 0x40, 0x80 + code % 0x40]
    else [0xE0 + code / 0x1000, 0x80 + code / 0x40 % 0x40, 0x80 + code % 0x40]
  }

  /** What becomes of bytes that are appended one by one. */
  function Widened(s: Bytes): Bytes {
    if s == [] then [] else Utf8(s[0]) + Widened(s[1..])
  }

  /** The first character of UTF-8 bytes and the number of its bytes, as in section 3 of RFC 3629; -1 for other bytes. */
  function FirstCharacter(b: Bytes): (r: (int, nat))
    requires b != []
    ensures 1 <= r.1 <= |b|
  {
    if b[0] < 0x80 then (b[0], 1)
    else if 0xC0 <= b[0] < 0xE0 && |b| >= 2 then
      (b[0] as int % 0x20 * 0x40 + b[1] as int % 0x40, 2)
    else if 0xE0 <= b[0] < 0xF0 && |b| >= 3 then
      (b[0] as int % 0x10 * 0x1000 + b[1] as int % 0x40 * 0x40 + b[2] as int % 0x40, 3)
    else (-1, 1)
  }

  function Characters(b: Bytes): seq<int> {
    if b == [] then [] else [FirstCharacter(b).0] + Characters(b[FirstCharacter(b).1..])
  }

  lemma Utf8IsRead(code: uint16, t: Bytes)
    ensures FirstCharacter(Utf8(code) + t) == (code, |Utf8(code)|) && (Utf8(code) + t)[|Utf8(code)|..] == t
  {
    Split(Utf8(code), t);
    if code < 0x80 {
    } else if code < 0x800 {
      MarkerIsMasked(0xC0, 0x20, code / 0x40);
      MarkerIsMasked(0x80, 0x40, code % 0x40);
    } else {
      MarkerIsMasked(0xE0, 0x10, code / 0x1000);
      MarkerIsMasked(0x80, 0x40, code / 0x40 % 0x40);
      MarkerIsMasked(0x80, 0x40, code % 0x40);
    }
  }

  /** A marker in front of the bits of a byte is masked away. */
  lemma MarkerIsMasked(marker: nat, size: nat, n: nat)
    requires n < size && marker % size == 0 && (size == 0x10 || size == 0x20 || size == 0x40)
    ensures (marker + n) % size == n
  {
  }

  /** The text that byte by byte appending makes: every byte is a character of its own. */
  lemma {:induction false} BytesAreCharacters(s: Bytes)
    ensures Characters(Widened(s)) == s
  {
    if s != [] {
      hide Utf8, FirstCharacter;
      Utf8IsRead(s[0], Widened(s[1..]));
      BytesAreCharacters(s[1..]);
      assert s == [s[0]] + s[1..];
    }
  }

  predicate Ascii(s: Bytes) {
    forall i :: 0 <= i < |s| ==> s[i] < 0x80
  }

  lemma {:induction false} WidenedLength(s: Bytes)
    ensures |Widened(s)| >= |s| && (|Widened(s)| == |s| <==> Ascii(s))
  {
    if s != [] {
      WidenedLength(s[1..]);
      assert Ascii(s) <==> s[0] < 0x80 && Ascii(s[1..]) by {
        assert forall i :: 1 <= i < |s| ==> s[i] == s[1..][i - 1];
      }
    }
  }

  lemma {:induction false} AsciiUnchanged(s: Bytes)
    requires Ascii(s)
    ensures Widened(s) == s
  {
    if s != [] {
      AsciiUnchanged(s[1..]);
      assert s == [s[0]] + s[1..];
    }
  }

  /** Text is unchanged exactly when it is ASCII. */
  lemma UnchangedIffAscii(s: Bytes)
    ensures Widened(s) == s <==> Ascii(s)
  {
    WidenedLength(s);
    if Ascii(s) {
      AsciiUnchanged(s);
    }
  }

  /** The bytes in front of the first NUL. */
  function UpToNul(s: Bytes): (r: Bytes)
    ensures r <= s && 0 !in r && (|r| < |s| ==> s[|r|] == 0)
  {
    if s == [] || s[0] == 0 then [] else [s[0]] + UpToNul(s[1..])
  }

  /** The string that a byte array becomes: up to the first NUL, each byte a character of its own. */
  function TextOf(a: Bytes): Bytes {
    Widened(UpToNul(a))
  }

  /** A byte array becomes the string of the same bytes exactly when it is ASCII without NUL. */
  lemma TextOfExact(a: Bytes)
    ensures TextOf(a) == a <==> Ascii(a) && 0 !in a
  {
    WidenedNul(UpToNul(a));
    if 0 !in a {
      assert UpToNul(a) == a;
      UnchangedIffAscii(a);
    }
  }

  lemma {:induction false} WidenedNul(s: Bytes)
    ensures 0 in Widened(s) <==> 0 in s
  {
    if s != [] {
      WidenedNul(s[1..]);
      assert s == [s[0]] + s[1..];
      assert 0 in Utf8(s[0]) <==> s[0] == 0;
    }
  }

  lemma {:induction false} WidenedAppend(s: Bytes, c: byte)
    ensures Widened(s + [c]) == Widened(s) + Utf8(c)
  {
    if s == [] {
      assert ([c])[1..] == [] && s + [c] == [c];
      EmptyRight(Utf8(c));
      EmptyLeft(Utf8(c));
    } else {
      assert (s + [c])[1..] == s[1..] + [c];
      WidenedAppend(s[1..], c);
      Associative(Utf8(s[0]), Widened(s[1..]), Utf8(c));
    }
  }

  /** Widening keeps the order of map keys. */
  lemma {:induction false} WidenedLess(a: Bytes, b: Bytes)
    requires Less(a, b)
    ensures Less(Widened(a), Widened(b))
  {
    if a != [] {
      var x, y := Utf8(a[0]), Utf8(b[0]);
      if a[0] == b[0] {
        WidenedLess(a[1..], b[1..]);
        LessUnderPrefix(x, Widened(a[1..]), Widened(b[1..]));
      } else if a[0] >= 0x80 && x[0] == y[0] {
        assert (x + Widened(a[1..]))[1..] == [x[1]] + Widened(a[1..]);
        assert (y + Widened(b[1..]))[1..] == [y[1]] + Widened(b[1..]);
      }
    }
  }

  lemma {:induction false} LessUnderPrefix(p: Bytes, a: Bytes, b: Bytes)
    requires Less(a, b)
    ensures Less(p + a, p + b)
  {
    if p == [] {
      EmptyLeft(a);
      EmptyLeft(b);
    } else {
      LessUnderPrefix(p[1..], a, b);
      assert (p + a)[1..] == p[1..] + a && (p + b)[1..] == p[1..] + b;
    }
  }

  /** The keys read so far stay below the next ones. */
  lemma NextKeysLarger(m: seq<Entry>, es: seq<Entry>, v: Value)
    requires es != [] && Sorted(es) && forall x, e :: x in m && e in es ==> Less(x.key, Widened(e.key))
    ensures forall x, e :: x in m + [Entry(Widened(es[0].key), v)] && e in es[1..] ==> Less(x.key, Widened(e.key))
  {
    forall e | e in es[1..]
      ensures Less(Widened(es[0].key), Widened(e.key))
    {
      SortedTail(es);
      WidenedLess(es[0].key, e.key);
    }
  }
}
