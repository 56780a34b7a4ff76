/**
 Bytes and the little-endian words of the binary formats. Machine integers are bounded types; two's
 complement is written out.
 */
module Words {

  type byte = x: int | 0 <= x < 0x100
  type Bytes = seq<byte>

  type uint16 = x: int | 0 <= x < 0x1_0000
  type int32 = x: int | -0x8000_0000 <= x < 0x8000_0000
  type uint32 = x: int | 0 <= x < 0x1_0000_0000
  type int64 = x: int | -0x8000_0000_0000_0000 <= x < 0x8000_0000_0000_0000
  type uint64 = x: int | 0 <= x < 0x1_0000_0000_0000_0000

  function Encode16(n: uint16): Bytes {
    [n % 0x100, n / 0x100]
  }

  function Encode32(n: uint32): Bytes {
    Encode16(n % 0x1_0000) + Encode16(n / 0x1_0000)
  }

  function Encode64(n: uint64): Bytes {
    Encode32(n % 0x1_0000_0000) + Encode32(n / 0x1_0000_0000)
  }

  function Decode16(b: Bytes): uint16
    requires |b| == 2
  {
    b[0] as int + 0x100 * (b[1] as int)
  }

  function Decode32(b: Bytes): uint32
    requires |b| == 4
  {
    Decode16(b[..2]) as int + 0x1_0000 * (Decode16(b[2..]) as int)
  }

  function Decode64(b: Bytes): uint64
    requires |b| == 8
  {
    Decode32(b[..4]) as int + 0x1_0000_0000 * (Decode32(b[4..]) as int)
  }

  function Unsigned32(n: int32): uint32 {
    if n < 0 then n + 0x1_0000_0000 else n
  }

  function Signed32(n: uint32): int32 {
    if n < 0x8000_0000 then n else n - 0x1_0000_0000
  }

  function Unsigned64(n: int64): uint64 {
    if n < 0 then n + 0x1_0000_0000_0000_0000 else n
  }

  function Signed64(n: uint64): int64 {
    if n < 0x8000_0000_0000_0000 then n else n - 0x1_0000_0000_0000_0000
  }

  function Signed16(n: uint16): int32 {
    if n < 0x8000 then n else n - 0x1_0000
  }

  /** Reading back what was written, whatever follows. */
  lemma Decode16Encode(n: uint16, t: Bytes)
    ensures (Encode16(n) + t)[..2] == Encode16(n) && (Encode16(n) + t)[2..] == t
    ensures Decode16(Encode16(n)) == n
  {
  }

  lemma Decode32Encode(n: uint32, t: Bytes)
    ensures |Encode32(n)| == 4 && (Encode32(n) + t)[..4] == Encode32(n) && (Encode32(n) + t)[4..] == t
    ensures Decode32(Encode32(n)) == n
  {
    var lo, hi := Encode16(n % 0x1_0000), Encode16(n / 0x1_0000);
    assert Encode32(n)[..2] == lo && Encode32(n)[2..] == hi;
    Decode16Encode(n % 0x1_0000, []);
    Decode16Encode(n / 0x1_0000, []);
  }

  lemma Decode64Encode(n: uint64, t: Bytes)
    ensures |Encode64(n)| == 8 && (Encode64(n) + t)[..8] == Encode64(n) && (Encode64(n) + t)[8..] == t
    ensures Decode64(Encode64(n)) == n
  {
    var lo, hi := Encode32(n % 0x1_0000_0000), Encode32(n / 0x1_0000_0000);
    Decode32Encode(n % 0x1_0000_0000, []);
    Decode32Encode(n / 0x1_0000_0000, []);
    assert Encode64(n)[..4] == lo && Encode64(n)[4..] == hi;
  }

  /** Writing again what was read. */
  lemma Encode16Decode(b: Bytes)
    requires |b| == 2
    ensures Encode16(Decode16(b)) == b
  {
  }

  lemma Encode32Decode(b: Bytes)
    requires |b| == 4
    ensures Encode32(Decode32(b)) == b
  {
    Encode16Decode(b[..2]);
    Encode16Decode(b[2..]);
    assert Decode32(b) % 0x1_0000 == Decode16(b[..2]) && Decode32(b) / 0x1_0000 == Decode16(b[2..]);
  }

  lemma Encode64Decode(b: Bytes)
    requires |b| == 8
    ensures Encode64(Decode64(b)) == b
  {
    hide Encode32, Decode32;
    Encode32Decode(b[..4]);
    Encode32Decode(b[4..]);
    assert Decode64(b) % 0x1_0000_0000 == Decode32(b[..4]) && Decode64(b) / 0x1_0000_0000 == Decode32(b[4..]);
  }

  /** The bytes of a number, the lowest first. */
  function LittleEndian(n: nat, size: nat): Bytes {
    if size == 0 then [] else [n % 0x100] + LittleEndian(n / 0x100, size - 1)
  }

  lemma LittleEndianSplit(n: nat, size: nat)
    requires size >= 2
    ensures LittleEndian(n, size) == LittleEndian(n % 0x1_0000, 2) + LittleEndian(n / 0x1_0000, size - 2)
  {
    var m := n / 0x100;
    assert n % 0x1_0000 % 0x100 == n % 0x100 && n % 0x1_0000 / 0x100 == m % 0x100 && m / 0x100 == n / 0x1_0000;
    assert LittleEndian(n % 0x1_0000, 2) == [n % 0x100] + LittleEndian(m % 0x100, 1);
    assert LittleEndian(m % 0x100, 1) == [m % 0x100];
    assert LittleEndian(n, size) == [n % 0x100] + ([m % 0x100] + LittleEndian(m / 0x100, size - 2));
  }

  lemma Word16(n: uint16)
    ensures Encode16(n) == LittleEndian(n, 2)
  {
    assert LittleEndian(n / 0x100, 1) == [n / 0x100];
  }

  lemma Word32(n: uint32)
    ensures Encode32(n) == LittleEndian(n, 4)
  {
    hide LittleEndian, Encode16;
    LittleEndianSplit(n, 4);
    Word16(n % 0x1_0000);
    Word16(n / 0x1_0000);
  }

  lemma Word64(n: uint64)
    ensures Encode64(n) == LittleEndian(n, 8)
  {
    hide LittleEndian, Encode16;
    var lo, hi := n % 0x1_0000_0000, n / 0x1_0000_0000;
    Word32(lo);
    Word32(hi);
    LittleEndianSplit(lo, 4);
    LittleEndianSplit(n, 8);
    LittleEndianSplit(n / 0x1_0000, 6);
    assert lo % 0x1_0000 == n % 0x1_0000 && lo / 0x1_0000 == n / 0x1_0000 % 0x1_0000 && n / 0x1_0000 / 0x1_0000 == hi;
  }

  function Zeros(n: nat): Bytes {
    seq(n, _ => 0)
  }
}
