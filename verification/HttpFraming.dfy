/**
 The framing of an HTTP request over the read buffer: the header ends at the first empty line, and the
 payload is the announced number of bytes after it.
 */
module HttpFraming {
  import opened Words
  import opened ReadBuffer

  const CR: byte := 0x0D
  const LF: byte := 0x0A

  predicate EndsHeader(b: Bytes) {
    |b| >= 4 && b[|b| - 4..] == [CR, LF, CR, LF]
  }

  /** No header is complete within the first n bytes of b. */
  predicate Unfinished(b: Bytes, n: nat)
    requires n <= |b|
  {
    forall k :: 0 <= k <= n ==> !EndsHeader(b[..k])
  }

  /** b[..n] is the shortest prefix that ends a header. */
  predicate IsHeader(b: Bytes, n: nat) {
    4 <= n <= |b| && EndsHeader(b[..n]) && Unfinished(b, n - 1)
  }

  /** There is at most one such prefix, and only if the stream is no longer without a header. */
  lemma HeaderIsUnique(b: Bytes, m: nat, n: nat)
    requires IsHeader(b, m) && n <= |b|
    ensures IsHeader(b, n) <==> m == n
    ensures Unfinished(b, n) <==> n < m
  {
  }

  lemma TooShort(b: Bytes, n: nat)
    requires n < 4 && n <= |b|
    ensures Unfinished(b, n)
  {
  }

  /** One character, the k-th of the stream. */
  method NextChar(channel: StreamChannel, ghost stream: Bytes, ghost k: nat) returns (st: Status, c: byte)
    requires channel.Valid() && k <= |stream| && channel.Rest() == stream[k..]
    modifies channel, channel.readBuff, channel.device
    ensures channel.Valid()
    ensures st == Ok ==> k < |stream| && c == stream[k] && channel.Rest() == stream[k + 1..]
    ensures st != Ok ==> channel.Rest() == stream[k..]
    ensures channel.device.steady && k < |stream| ==> st == Ok
  {
    st, c := channel.Get();
    if st == Ok {
      assert stream[k..][0] == c && stream[k..][1..] == channel.Rest();
    }
  }

  /** The first four characters of a request. */
  method FirstFour(channel: StreamChannel) returns (st: Status, c1: byte, c2: byte, c3: byte, c4: byte, ghost taken: nat)
    requires channel.Valid()
    modifies channel, channel.readBuff, channel.device
    ensures channel.Valid() && taken <= |old(channel.Rest())| && channel.Rest() == old(channel.Rest())[taken..]
    ensures if st == Ok then taken == 4 && old(channel.Rest())[..4] == [c1, c2, c3, c4] else taken < 4
    ensures channel.device.steady && st != Ok ==> taken == |old(channel.Rest())|
  {
    ghost var stream := channel.Rest();
    assert channel.Rest() == stream[0..];
    c2, c3, c4, taken := 0, 0, 0, 0;
    st, c1 := NextChar(channel, stream, 0);
    if st == Ok {
      taken := 1;
      st, c2 := NextChar(channel, stream, 1);
    }
    if st == Ok {
      taken := 2;
      st, c3 := NextChar(channel, stream, 2);
    }
    if st == Ok {
      taken := 3;
      st, c4 := NextChar(channel, stream, 3);
    }
    if st == Ok {
      taken := 4;
    }
  }

  /**
     The sliding window over four characters. It consumes exactly the shortest prefix that ends in an empty
     line; `data` is that prefix without its last line break. After an exception the stream read so far
     holds no complete header, and a steady device has been read to its end.
   */
  method ReadHeader(channel: StreamChannel) returns (st: Status, data: Bytes, ghost taken: nat)
    requires channel.Valid()
    modifies channel, channel.readBuff, channel.device
    ensures channel.Valid() && taken <= |old(channel.Rest())| && channel.Rest() == old(channel.Rest())[taken..]
    ensures st == Ok ==> IsHeader(old(channel.Rest()), taken) && data == old(channel.Rest())[..taken - 2]
    ensures st != Ok ==> Unfinished(old(channel.Rest()), taken)
    ensures channel.device.steady && st != Ok ==> taken == |old(channel.Rest())|
  {
    hide EndsHeader, Unfinished;
    ghost var stream := channel.Rest();
    data := [];
    var c1, c2, c3, c4;
    st, c1, c2, c3, c4, taken := FirstFour(channel);
    if st != Ok {
      TooShort(stream, taken);
      return;
    }
    data := data + [c1];
    data := data + [c2];
    TooShort(stream, 3);
    FirstTwo(stream, c1, c2, c3, c4);
    while c1 != CR || c3 != CR || c2 != LF || c4 != LF
      invariant channel.Valid() && st == Ok && 4 <= taken <= |stream| && channel.Rest() == stream[taken..]
      invariant stream[taken - 4..taken] == [c1, c2, c3, c4]
      invariant data == stream[..taken - 2]
      invariant Unfinished(stream, taken - 1)
      decreases |stream| - taken
    {
      NotYet(stream, taken, c1, c2, c3, c4);
      data := data + [c3];
      c1 := c2;
      c2 := c3;
      c3 := c4;
      st, c4 := channel.Get();
      if st != Ok {
        return;
      }
      NextWindow(stream, taken, c1, c2, c3, c4, channel.Rest());
      taken := taken + 1;
    }
    Complete(stream, taken, c1, c2, c3, c4);
  }

  lemma FirstTwo(stream: Bytes, c1: byte, c2: byte, c3: byte, c4: byte)
    requires |stream| >= 4 && stream[..4] == [c1, c2, c3, c4]
    ensures stream[..2] == [] + [c1] + [c2] && stream[0..4] == [c1, c2, c3, c4]
  {
    assert stream[..2] == stream[..4][..2];
  }

  /** No header yet: the window moves on, and its third character joins the data. */
  lemma NotYet(stream: Bytes, taken: nat, c1: byte, c2: byte, c3: byte, c4: byte)
    requires 4 <= taken <= |stream| && stream[taken - 4..taken] == [c1, c2, c3, c4]
    requires [c1, c2, c3, c4] != [CR, LF, CR, LF] && Unfinished(stream, taken - 1)
    ensures Unfinished(stream, taken)
    ensures stream[..taken - 2] + [c3] == stream[..taken - 1] && stream[taken - 3..taken] == [c2, c3, c4]
  {
    hide Unfinished, EndsHeader;
    LastFour(stream, taken);
    var w := stream[taken - 4..taken];
    assert w[2] == stream[taken - 2] && w[1..] == stream[taken - 3..taken];
    OneFurther(stream, taken - 2);
  }

  lemma OneFurther(stream: Bytes, n: nat)
    requires n < |stream|
    ensures stream[..n] + [stream[n]] == stream[..n + 1]
  {
  }

  lemma LastFour(stream: Bytes, taken: nat)
    requires 4 <= taken <= |stream| && Unfinished(stream, taken - 1)
    ensures EndsHeader(stream[..taken]) <==> stream[taken - 4..taken] == [CR, LF, CR, LF]
    ensures Unfinished(stream, taken) <==> !EndsHeader(stream[..taken])
  {
    assert stream[..taken][taken - 4..] == stream[taken - 4..taken];
  }

  lemma NextWindow(stream: Bytes, taken: nat, c1: byte, c2: byte, c3: byte, c4: byte, rest: Bytes)
    requires 4 <= taken <= |stream| && stream[taken - 3..taken] == [c1, c2, c3]
    requires stream[taken..] == [c4] + rest
    ensures taken < |stream| && rest == stream[taken + 1..]
    ensures stream[taken - 3..taken + 1] == [c1, c2, c3, c4]
  {
    assert stream[taken..][0] == c4 && stream[taken..][1..] == rest;
    assert stream[taken - 3..taken + 1] == stream[taken - 3..taken] + [stream[taken]];
  }

  lemma Complete(stream: Bytes, taken: nat, c1: byte, c2: byte, c3: byte, c4: byte)
    requires 4 <= taken <= |stream| && stream[taken - 4..taken] == [c1, c2, c3, c4]
    requires [c1, c2, c3, c4] == [CR, LF, CR, LF] && Unfinished(stream, taken - 1)
    ensures IsHeader(stream, taken)
  {
    LastFour(stream, taken);
  }

  /** Gathers exactly `payloadLen` bytes, whatever the chunks; nothing else of the stream is consumed. */
  method ReadPayload(channel: StreamChannel, payloadLen: nat) returns (st: Status, payload: Bytes)
    requires channel.Valid()
    modifies channel, channel.readBuff, channel.device
    ensures channel.Valid()
    ensures st == Ok ==>
              && payloadLen <= |old(channel.Rest())|
              && payload == old(channel.Rest())[..payloadLen] && channel.Rest() == old(channel.Rest())[payloadLen..]
    ensures channel.device.steady && payloadLen <= |old(channel.Rest())| ==> st == Ok
  {
    ghost var stream := channel.Rest();
    var payloadData := new byte[payloadLen];
    st := Ok;
    var n := 0;
    while n < payloadLen
      invariant channel.Valid() && 0 <= n <= payloadLen && n <= |stream| && st == Ok
      invariant payloadData[..n] == stream[..n] && channel.Rest() == stream[n..]
    {
      var count;
      st, count := channel.Read(payloadData, n, payloadLen - n);
      if st != Ok {
        payload := [];
        return;
      }
      assert payloadData[..n + count] == payloadData[..n] + payloadData[n..n + count];
      assert stream[..n + count] == stream[..n] + stream[n..][..count];
      n := n + count;
    }
    payload := payloadData[..];
  }

  /** Skips whatever else can be read at once. */
  method Drain(channel: StreamChannel) returns (st: Status, ghost dropped: nat)
    requires channel.Valid()
    modifies channel, channel.readBuff, channel.device
    ensures channel.Valid() && dropped <= |old(channel.Rest())| && channel.Rest() == old(channel.Rest())[dropped..]
    ensures channel.device.steady ==> st == Ok
  {
    dropped := 0;
    var n;
    st, n := channel.Available(false);
    while st == Ok && n > 0
      invariant channel.Valid() && dropped <= |old(channel.Rest())|
      invariant channel.Rest() == old(channel.Rest())[dropped..]
      invariant st == Ok ==> n <= |channel.Rest()|
      invariant channel.device.steady ==> st == Ok
      decreases |channel.Rest()|, st == Ok
    {
      ghost var skipped;
      st, skipped := channel.Ignore(n);
      dropped := dropped + skipped;
      if st == Ok {
        st, n := channel.Available(false);
      }
    }
  }

  /** The stream starts with a header that announces a payload, and holds all of it. */
  ghost predicate HoldsRequest(stream: Bytes, contentLength: Bytes -> nat) {
    exists n :: IsHeader(stream, n) && 0 < contentLength(stream[..n - 2]) <= |stream| - n
  }

  /**
     A whole request. The length is what the header announces; a request without payload is refused. An
     accepted request accounts for every byte of the stream: the bytes after the payload that are there
     already are dropped, the others stay. Whatever the chunks, a request is accepted only if the stream
     holds it, and always if it does and the device is steady.
   */
  method ReadRequest(channel: StreamChannel, contentLength: Bytes -> nat)
    returns (st: Status, accepted: bool, data: Bytes, payload: Bytes, ghost dropped: Bytes)
    requires channel.Valid()
    modifies channel, channel.readBuff, channel.device
    ensures channel.Valid()
    ensures accepted ==>
              && payload != [] && |payload| == contentLength(data)
              && IsHeader(old(channel.Rest()), |data| + 2)
              && old(channel.Rest()) == data + [CR, LF] + payload + dropped + channel.Rest()
    ensures accepted ==> HoldsRequest(old(channel.Rest()), contentLength)
    ensures channel.device.steady && HoldsRequest(old(channel.Rest()), contentLength) ==> accepted
  {
    hide IsHeader;
    ghost var stream := channel.Rest();
    payload, accepted, dropped := [], false, [];
    ghost var taken;
    st, data, taken := ReadHeader(channel);
    if st != Ok {
      if taken == |stream| {
        NoRequest(stream, contentLength);
      }
      return;
    }
    RequestAt(stream, taken, contentLength);
    HeaderBreak(stream, taken);
    var payloadLen := contentLength(data);
    if payloadLen == 0 {
      return;
    }
    st, payload := ReadPayload(channel, payloadLen);
    if st != Ok {
      return;
    }
    ghost var rest, n := channel.Rest(), 0;
    st, n := Drain(channel);
    accepted := st == Ok;
    dropped := rest[..n];
    Account(stream, data, stream[taken..], payload, rest, dropped, channel.Rest());
  }

  lemma Account(stream: Bytes, data: Bytes, body: Bytes, payload: Bytes, rest: Bytes, dropped: Bytes, left: Bytes)
    requires |data| + 2 <= |stream| && stream[..|data| + 2] == data + [CR, LF] && body == stream[|data| + 2..]
    requires |payload| <= |body| && payload == body[..|payload|] && rest == body[|payload|..]
    requires |dropped| <= |rest| && dropped == rest[..|dropped|] && left == rest[|dropped|..]
    ensures stream == data + [CR, LF] + payload + dropped + left
  {
    assert rest == dropped + left;
    assert body == payload + rest;
    assert stream == data + [CR, LF] + body;
  }

  lemma NoRequest(stream: Bytes, contentLength: Bytes -> nat)
    requires Unfinished(stream, |stream|)
    ensures !HoldsRequest(stream, contentLength)
  {
    assert forall n: nat :: IsHeader(stream, n) ==> EndsHeader(stream[..n]);
  }

  lemma RequestAt(stream: Bytes, n: nat, contentLength: Bytes -> nat)
    requires IsHeader(stream, n)
    ensures HoldsRequest(stream, contentLength) <==> 0 < contentLength(stream[..n - 2]) <= |stream| - n
  {
    forall m | IsHeader(stream, m)
      ensures m == n
    {
      HeaderIsUnique(stream, m, n);
    }
  }

  lemma HeaderBreak(stream: Bytes, n: nat)
    requires IsHeader(stream, n)
    ensures 4 <= n <= |stream| && stream[..n] == stream[..n - 2] + [CR, LF]
  {
    var h := stream[..n];
    assert h[n - 4..][2..] == [CR, LF];
    assert h == h[..n - 2] + h[n - 4..][2..];
  }
}
