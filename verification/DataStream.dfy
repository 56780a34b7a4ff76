/**
 The byte stream under the binary formats. Words travel in little-endian order; on a big-endian host they
 are swapped through a local buffer, so the bytes on the device do not depend on the host.
 */
module DataStream {
  import opened Sequences
  import opened Words

  function Reverse(s: Bytes): (r: Bytes)
    ensures |r| == |s| && forall i :: 0 <= i < |s| ==> r[i] == s[|s| - 1 - i]
  {
    seq(|s|, i requires 0 <= i < |s| => s[|s| - 1 - i])
  }

  lemma ReverseTwice(s: Bytes)
    ensures Reverse(Reverse(s)) == s
  {
  }

  class Stream {
    /** Whether the host stores words in the order of the stream. */
    const noswap: bool
    /** What the device has received, and what it still has to deliver. */
    var written: Bytes
    var unread: Bytes

    constructor (littleEndianHost: bool, input: Bytes)
      ensures noswap == littleEndianHost && written == [] && unread == input
    {
      noswap, written, unread := littleEndianHost, [], input;
    }

    /** How a word whose stream order is `le` lies in the memory of the host. */
    function Memory(le: Bytes): Bytes {
      if noswap then le else Reverse(le)
    }

    method WriteByte(b: byte)
      modifies this`written
      ensures written == old(written) + [b]
    {
      written := written + [b];
    }

    method WriteBytes(b: Bytes)
      modifies this`written
      ensures written == old(written) + b
    {
      written := written + b;
    }

    /** Sends a word given as it lies in memory. */
    method WriteMemory(p: array<byte>)
      modifies this`written
      ensures written == old(written) + if noswap then p[..] else Reverse(p[..])
    {
      if noswap {
        written := written + p[..];
      } else {
        var b := new byte[p.Length];
        var i := 0;
        while i < p.Length
          invariant 0 <= i <= p.Length && written == old(written) && p[..] == old(p[..])
          invariant forall j :: 0 <= j < i ==> b[p.Length - 1 - j] == p[j]
        {
          b[p.Length - 1 - i] := p[i];
          i := i + 1;
        }
        assert b[..] == Reverse(p[..]);
        written := written + b[..];
      }
    }

    method WriteWord(le: Bytes)
      modifies this`written
      ensures written == old(written) + le
    {
      var m := Memory(le);
      var p := new byte[|m|](i requires 0 <= i < |m| => m[i]);
      assert p[..] == m;
      ReverseTwice(le);
      WriteMemory(p);
    }

    method Write16(n: uint16)
      modifies this`written
      ensures written == old(written) + Encode16(n)
    {
      WriteWord(Encode16(n));
    }

    method Write32(n: uint32)
      modifies this`written
      ensures written == old(written) + Encode32(n)
    {
      WriteWord(Encode32(n));
    }

    method Write64(n: uint64)
      modifies this`written
      ensures written == old(written) + Encode64(n)
    {
      WriteWord(Encode64(n));
    }

    /** Reads into a buffer; a device that runs dry is an error. */
    method Read(buf: array<byte>) returns (ok: bool)
      modifies this`unread, buf
      ensures ok <==> |old(unread)| >= buf.Length
      ensures ok ==> buf[..] == old(unread)[..buf.Length] && unread == old(unread)[buf.Length..]
      ensures !ok ==> unread == old(unread)
    {
      if |unread| < buf.Length {
        return false;
      }
      forall i | 0 <= i < buf.Length {
        buf[i] := unread[i];
      }
      assert buf[..] == unread[..buf.Length];
      unread := unread[buf.Length..];
      ok := true;
    }

    method ReadByte() returns (ok: bool, b: byte)
      modifies this`unread
      ensures ok <==> old(unread) != []
      ensures ok ==> [b] + unread == old(unread)
    {
      var buf := new byte[1];
      ok := Read(buf);
      b := if ok then buf[0] else 0;
    }

    /** Receives a word into memory order and gives it back in stream order. */
    method ReadWord(size: nat) returns (ok: bool, le: Bytes)
      modifies this`unread
      ensures ok <==> |old(unread)| >= size
      ensures ok ==> le == old(unread)[..size] && unread == old(unread)[size..]
    {
      var b := new byte[size];
      ok := Read(b);
      if !ok {
        return false, [];
      }
      var p := new byte[size];
      if noswap {
        p := b;
      } else {
        var i := 0;
        while i < size
          invariant 0 <= i <= size && p.Length == size && b[..] == old(unread)[..size]
          invariant fresh(p) && p != b && unread == old(unread)[size..]
          invariant forall j :: 0 <= j < i ==> p[j] == b[size - 1 - j]
        {
          p[i] := b[size - 1 - i];
          i := i + 1;
        }
        assert p[..] == Reverse(b[..]);
      }
      ReverseTwice(old(unread)[..size]);
      le := Memory(p[..]);
    }
  }
}
