/**
 The 64-byte read buffer of a stream channel: whatever chunks the device delivers, the channel behaves like
 the plain byte stream.
 */
module ReadBuffer {
  import opened Sequences
  import opened Words

  /** How a read ends: normally, or with one of the two exceptions. */
  datatype Status = Ok | EndOfFile | TimedOut

  /**
     A device that still has `pending` to deliver, in chunks of its own choosing. On a steady one, neither
     closing nor a deadline ends a wait, and no wait is in vain, while bytes are to come.
   */
  class Device {
    var pending: Bytes
    const steady: bool

    constructor (stream: Bytes, steady: bool)
      ensures pending == stream && this.steady == steady
    {
      pending := stream;
      this.steady := steady;
    }

    /** The number of bytes that could be read at once; it may be less than what is to come. */
    method Available(waited: bool) returns (n: nat)
      ensures n <= |pending| && (waited && steady && |pending| > 0 ==> n > 0)
    {
      n :| 0 <= n <= |pending|;
      if waited && steady && n == 0 {
        n := |pending|;
      }
    }

    /** Waits for bytes; closing and deadlines can end the wait. */
    method WaitForReadyRead() returns (st: Status)
      ensures steady && pending != [] ==> st == Ok
    {
      st := *;
      if steady && pending != [] {
        st := Ok;
      }
    }

    /** Delivers between one and the requested number of bytes; none when none is requested. */
    method ReadSome(buffer: array<byte>, offset: nat, maxlen: nat) returns (n: nat)
      requires offset + maxlen <= buffer.Length && maxlen <= |pending|
      modifies this, buffer
      ensures n <= maxlen && (maxlen > 0 ==> n > 0)
      ensures buffer[..offset] == old(buffer[..offset])
      ensures buffer[offset..offset + n] == old(pending)[..n]
      ensures pending == old(pending)[n..]
    {
      if maxlen == 0 {
        return 0;
      }
      n :| 0 < n <= maxlen;
      forall i | offset <= i < offset + n {
        buffer[i] := pending[i - offset];
      }
      pending := pending[n..];
    }
  }

  const BUFFER_SIZE := 64

  class StreamChannel {
    const device: Device
    const readBuff: array<byte>
    var readStart: nat
    var readEnd: nat

    constructor (device: Device)
      ensures this.device == device && Valid() && fresh(readBuff) && Rest() == device.pending
    {
      this.device := device;
      readBuff := new byte[BUFFER_SIZE];
      readStart, readEnd := 0, 0;
    }

    ghost predicate Valid()
      reads this
    {
      readBuff.Length == BUFFER_SIZE && readStart <= readEnd <= BUFFER_SIZE
    }

    /** The bytes that the channel has yet to deliver: the window of the buffer, then the device. */
    ghost function Rest(): Bytes
      requires Valid()
      reads this, readBuff, device
    {
      readBuff[readStart..readEnd] + device.pending
    }

    /** The number of bytes that can be read; with `noEmpty` it waits until there are some. */
    method Available(noEmpty: bool) returns (st: Status, n: nat)
      requires Valid()
      ensures st == Ok ==> readEnd - readStart <= n <= |Rest()| && (noEmpty ==> n > 0)
      ensures !noEmpty || (device.steady && Rest() != []) ==> st == Ok
    {
      st := Ok;
      n := device.Available(false);
      n := n + (readEnd - readStart);
      if noEmpty && n == 0 {
        st := device.WaitForReadyRead();
        if st != Ok {
          return;
        }
        n := device.Available(true);
        if n == 0 {
          st := EndOfFile;
        }
      }
    }

    /** Refills an empty buffer. */
    method CheckBuf() returns (st: Status)
      requires Valid()
      modifies this, readBuff, device
      ensures Valid() && Rest() == old(Rest())
      ensures st == Ok ==> readStart < readEnd
      ensures device.steady && Rest() != [] ==> st == Ok
    {
      st := Ok;
      if readEnd == readStart {
        var n;
        st, n := Available(true);
        if st != Ok {
          return;
        }
        readEnd := device.ReadSome(readBuff, 0, if n < BUFFER_SIZE then n else BUFFER_SIZE);
        readStart := 0;
        assert Rest() == old(device.pending);
      }
    }

    method Get() returns (st: Status, c: byte)
      requires Valid()
      modifies this, readBuff, device
      ensures Valid()
      ensures st == Ok ==> old(Rest()) == [c] + Rest()
      ensures st != Ok ==> Rest() == old(Rest())
      ensures device.steady && old(Rest()) != [] ==> st == Ok
    {
      c := 0;
      st := CheckBuf();
      if st == Ok {
        c := readBuff[readStart];
        readStart := readStart + 1;
      }
    }

    method Peek() returns (st: Status, c: byte)
      requires Valid()
      modifies this, readBuff, device
      ensures Valid() && Rest() == old(Rest())
      ensures st == Ok ==> Rest() != [] && c == Rest()[0]
      ensures device.steady && Rest() != [] ==> st == Ok
    {
      c := 0;
      st := CheckBuf();
      if st == Ok {
        c := readBuff[readStart];
      }
    }

    /** Skips bytes; after an exception, those skipped before it are gone. */
    method Ignore(len: nat) returns (st: Status, ghost skipped: nat)
      requires Valid()
      modifies this, readBuff, device
      ensures Valid() && skipped <= |old(Rest())| && Rest() == old(Rest())[skipped..]
      ensures if st == Ok then skipped == len else skipped < len
      ensures device.steady && len <= |old(Rest())| ==> st == Ok
    {
      st, skipped := Ok, 0;
      var i := 0;
      while i < len
        invariant Valid() && 0 <= i <= len && skipped == i && st == Ok
        invariant skipped <= |old(Rest())| && Rest() == old(Rest())[skipped..]
      {
        var c;
        st, c := Get();
        if st != Ok {
          return;
        }
        skipped := skipped + 1;
        i := i + 1;
      }
    }

    /** Copies from the window of the buffer. */
    method TakeBuffered(buffer: array<byte>, offset: nat, count: nat)
      requires Valid() && buffer != readBuff && offset + count <= buffer.Length && count <= readEnd - readStart
      modifies this`readStart, buffer
      ensures Valid() && readBuff[readStart..readEnd] == old(readBuff[readStart..readEnd])[count..]
      ensures buffer[..offset] == old(buffer[..offset])
      ensures buffer[offset..offset + count] == old(readBuff[readStart..readEnd])[..count]
    {
      forall i | offset <= i < offset + count {
        buffer[i] := readBuff[readStart + (i - offset)];
      }
      readStart := readStart + count;
    }

    /** Reads at most `maxlen` bytes: what the buffer holds if anything, else straight from the device. */
    method Read(buffer: array<byte>, offset: nat, maxlen: nat) returns (st: Status, count: nat)
      requires Valid() && buffer != readBuff && offset + maxlen <= buffer.Length
      modifies this, readBuff, device, buffer
      ensures Valid()
      ensures count <= maxlen && (st == Ok && maxlen > 0 ==> count > 0) && (st != Ok ==> count == 0)
      ensures buffer[..offset] == old(buffer[..offset])
      ensures count <= |old(Rest())| && Rest() == old(Rest())[count..]
      ensures buffer[offset..offset + count] == old(Rest())[..count]
      ensures device.steady && old(Rest()) != [] ==> st == Ok
    {
      st := Ok;
      if readEnd != readStart {
        count := if readEnd - readStart < maxlen then readEnd - readStart else maxlen;
        Window(readBuff[readStart..readEnd], device.pending, count);
        TakeBuffered(buffer, offset, count);
        return;
      }
      var n;
      st, n := Available(true);
      if st != Ok {
        count := 0;
        return;
      }
      assert old(Rest()) == old(device.pending);
      count := device.ReadSome(buffer, offset, if n < maxlen then n else maxlen);
      assert Rest() == device.pending;
    }
  }

  lemma Window(window: Bytes, pending: Bytes, count: nat)
    requires count <= |window|
    ensures (window + pending)[..count] == window[..count] && (window + pending)[count..] == window[count..] + pending
  {
  }

  datatype Operation =
    | GetOne
    | PeekOne
    | IgnoreSome(len: nat)
    | ReadUpTo(maxlen: nat)

  /** How an operation ended, and the bytes that it handed out. */
  datatype Answer = Answer(st: Status, handed: Bytes)

  /** The queue holds what the operation asks for. */
  predicate Enough(operation: Operation, stream: Bytes) {
    match operation
    case IgnoreSome(len) => len <= |stream|
    case ReadUpTo(maxlen) => maxlen > 0 ==> stream != []
    case _ => stream != []
  }

  /**
     The answer of a plain byte queue that holds `stream`, of which `gone` bytes go. There is an exception if
     the queue does not hold enough; if it does, only where the device may end a wait, or when a read of
     nothing at all finds nothing.
   */
  predicate Answers(operation: Operation, answer: Answer, gone: nat, stream: Bytes, steady: bool) {
    var ok, handed := answer.st == Ok, answer.handed;
    && gone <= |stream| && (ok ==> Enough(operation, stream))
    && (steady && stream != [] && Enough(operation, stream) ==> ok)
    && match operation
       case GetOne => gone == (if ok then 1 else 0) && handed == stream[..gone]
       case PeekOne => gone == 0 && if ok then stream != [] && handed == stream[..1] else handed == []
       case IgnoreSome(len) => handed == [] && if ok then gone == len else gone < len
       case ReadUpTo(maxlen) =>
         gone <= maxlen && (ok && maxlen > 0 ==> gone > 0) && (!ok ==> gone == 0) && handed == stream[..gone]
  }

  /** One operation is answered as by the plain byte queue, and leaves what the queue would hold. */
  method Perform(channel: StreamChannel, operation: Operation) returns (answer: Answer, ghost gone: nat)
    requires channel.Valid()
    modifies channel, channel.readBuff, channel.device
    ensures channel.Valid() && Answers(operation, answer, gone, old(channel.Rest()), channel.device.steady)
    ensures channel.Rest() == old(channel.Rest())[gone..]
  {
    ghost var stream := channel.Rest();
    gone := 0;
    match operation {
      case GetOne =>
        var st, c := channel.Get();
        answer := Answer(st, if st == Ok then [c] else []);
        if st == Ok {
          gone := 1;
          Split([c], channel.Rest());
        }
      case PeekOne =>
        var st, c := channel.Peek();
        answer := Answer(st, if st == Ok then [c] else []);
      case IgnoreSome(len) =>
        var st;
        st, gone := channel.Ignore(len);
        answer := Answer(st, []);
      case ReadUpTo(maxlen) =>
        var buffer := new byte[maxlen];
        var st, count := channel.Read(buffer, 0, maxlen);
        answer := Answer(st, buffer[..count]);
        gone := count;
        assert buffer[0..0 + count] == buffer[..count];
    }
  }

  function Sum(gone: seq<nat>): nat {
    if gone == [] then 0 else Sum(gone[..|gone| - 1]) + gone[|gone| - 1]
  }

  /** What the queue holds once so many bytes of the stream have gone. */
  function After(stream: Bytes, n: nat): Bytes {
    if n <= |stream| then stream[n..] else []
  }

  /** Every operation performed is answered from the place in the stream where the ones before it have left off. */
  ghost predicate AllAnswered(operations: seq<Operation>, answers: seq<Answer>, gone: seq<nat>, stream: Bytes,
                              steady: bool) {
    && |answers| == |gone| <= |operations|
    && forall i :: 0 <= i < |answers| ==>
         Answers(operations[i], answers[i], gone[i], After(stream, Sum(gone[..i])), steady)
  }

  /**
     Any interleaving of the operations, up to the first exception, and any chunks of the device: the bytes
     handed out are those that a plain byte queue with the original stream would hand out, one operation after
     the other; and the window of the buffer with the device is what that queue would still hold.
   */
  method Run(channel: StreamChannel, operations: seq<Operation>) returns (answers: seq<Answer>, ghost gone: seq<nat>)
    requires channel.Valid()
    modifies channel, channel.readBuff, channel.device
    ensures channel.Valid() && AllAnswered(operations, answers, gone, old(channel.Rest()), channel.device.steady)
    ensures Sum(gone) <= |old(channel.Rest())| && channel.Rest() == old(channel.Rest())[Sum(gone)..]
    ensures forall i :: 0 <= i < |answers| - 1 ==> answers[i].st == Ok
    ensures |answers| < |operations| ==> answers != [] && answers[|answers| - 1].st != Ok
  {
    hide AllAnswered, Answers, Sum;
    ghost var stream, steady := channel.Rest(), channel.device.steady;
    answers, gone := [], [];
    NothingYet(operations, stream, steady);
    while |answers| < |operations|
      invariant channel.Valid() && AllAnswered(operations, answers, gone, stream, steady) && |answers| <= |operations|
      invariant Sum(gone) <= |stream| && channel.Rest() == stream[Sum(gone)..]
      invariant forall i :: 0 <= i < |answers| ==> answers[i].st == Ok
      decreases |operations| - |answers|
    {
      var answer;
      ghost var n;
      answer, n := Perform(channel, operations[|answers|]);
      OneMoreAnswer(operations, answers, gone, stream, steady, answer, n);
      answers, gone := answers + [answer], gone + [n];
      if answer.st != Ok {
        return;
      }
    }
  }

  lemma NothingYet(operations: seq<Operation>, stream: Bytes, steady: bool)
    ensures AllAnswered(operations, [], [], stream, steady) && Sum([]) == 0
  {
  }

  lemma OneMoreAnswer(operations: seq<Operation>, answers: seq<Answer>, gone: seq<nat>, stream: Bytes, steady: bool,
                      answer: Answer, n: nat)
    requires AllAnswered(operations, answers, gone, stream, steady) && |answers| < |operations|
    requires Sum(gone) <= |stream| && Answers(operations[|answers|], answer, n, stream[Sum(gone)..], steady)
    ensures AllAnswered(operations, answers + [answer], gone + [n], stream, steady)
    ensures Sum(gone + [n]) == Sum(gone) + n && Sum(gone + [n]) <= |stream|
    ensures stream[Sum(gone)..][n..] == stream[Sum(gone + [n])..]
  {
    hide Answers, Sum;
    var more := gone + [n];
    SumOfOneMore(gone, n);
    AnswersWithin(operations[|answers|], answer, n, stream[Sum(gone)..], steady);
    assert stream[Sum(gone)..][n..] == stream[Sum(gone) + n..];
    forall i | 0 <= i < |answers + [answer]|
      ensures Answers(operations[i], (answers + [answer])[i], more[i], After(stream, Sum(more[..i])), steady)
    {
      if i < |answers| {
        assert more[..i] == gone[..i];
      } else {
        assert more[..i] == gone;
      }
    }
  }

  lemma SumOfOneMore(gone: seq<nat>, n: nat)
    ensures Sum(gone + [n]) == Sum(gone) + n
  {
    assert (gone + [n])[..|gone|] == gone;
  }

  lemma AnswersWithin(operation: Operation, answer: Answer, gone: nat, stream: Bytes, steady: bool)
    requires Answers(operation, answer, gone, stream, steady)
    ensures gone <= |stream|
  {
  }
}
