/** The way of client messages to the wire (src/vncconnection.c). */
module Output {
  import opened Arith
  import opened Bytes
  import opened ClientMessages
  import opened PixelFormats
  import Words
  import Feed

  /** The result of one send: some bytes accepted (at least one), a send that would block, or a failure. */
  datatype Send = Accepted(more: nat) | WouldBlock | Failed

  const SIZE_MAX := 0x1_0000_0000_0000_0000
  const WRITE_BUFFER := 4096

  /* vnc_connection_flush_wire, including what it does when a send would block. */

  datatype Flushed = Flushed(wire: seq<byte>, ok: bool, sends: seq<Send>)

  /** What is sent of `data` from `offset` on, whether the loop ends without an error, and the sends left. */
  function FlushFrom(data: seq<byte>, offset: nat, sends: seq<Send>): Flushed
    requires |data| < SIZE_MAX
    decreases |sends|
  {
    if |data| <= offset then Flushed([], true, sends)
    else if sends == [] then Flushed([], false, sends)
    else
      match sends[0]
      case Accepted(more) =>
        var n := Min(more + 1, |data| - offset);
        var f := FlushFrom(data, offset + n, sends[1..]);
        f.(wire := data[offset..offset + n] + f.wire)
      case WouldBlock => FlushFrom(data, (offset + 0xFFFF_FFFF_FFFF_FFFF) % 0x1_0000_0000_0000_0000, sends[1..])
      case Failed => Flushed([], false, sends[1..])
  }

  /** `n` bytes go out from `offset` on with no send that blocks or fails. */
  predicate Smooth(n: nat, offset: nat, sends: seq<Send>)
    decreases |sends|
  {
    n <= offset || (sends != [] && sends[0].Accepted? && Smooth(n, offset + Min(sends[0].more + 1, n - offset), sends[1..]))
  }

  lemma {:induction false} SmoothDelivers(data: seq<byte>, offset: nat, sends: seq<Send>)
    requires |data| < SIZE_MAX && offset <= |data| && Smooth(|data|, offset, sends)
    ensures FlushFrom(data, offset, sends).wire == data[offset..] && FlushFrom(data, offset, sends).ok
    decreases |sends|
  {
    if offset < |data| {
      SmoothDelivers(data, offset + Min(sends[0].more + 1, |data| - offset), sends[1..]);
    }
  }

  /** What comes next on the wire is no later byte than the one at the offset. */
  lemma {:induction false} NextByte(data: seq<byte>, offset: nat, sends: seq<Send>)
    requires |data| < SIZE_MAX
    ensures var wire := FlushFrom(data, offset, sends).wire;
            wire != [] ==> exists j :: 0 <= j <= offset && j < |data| && wire[0] == data[j]
    decreases |sends|
  {
    if offset < |data| && sends != [] {
      if sends[0].Accepted? {
        assert FlushFrom(data, offset, sends).wire[0] == data[offset];
      } else if sends[0].WouldBlock? && 0 < offset {
        assert (offset + SIZE_MAX - 1) % SIZE_MAX == offset - 1;
        NextByte(data, offset - 1, sends[1..]);
      }
    }
  }

  /** Zeros, but for one 1 at `k`. */
  function Marked(n: nat, k: nat): (data: seq<byte>)
    ensures |data| == n && forall i :: 0 <= i < n ==> data[i] == if i == k then 1 else 0
  {
    seq(n, i => if i == k then 1 else 0)
  }

  /** Where the first send that blocks or fails finds the loop. */
  lemma {:induction false} NotSmooth(n: nat, offset: nat, sends: seq<Send>) returns (data: seq<byte>)
    requires n < SIZE_MAX && offset < n && !Smooth(n, offset, sends)
    ensures |data| == n
    ensures var f := FlushFrom(data, offset, sends); f.wire != data[offset..] || !f.ok
    decreases |sends|
  {
    if sends == [] || sends[0].Failed? {
      data := Marked(n, 0);
    } else if sends[0].Accepted? {
      var k := Min(sends[0].more + 1, n - offset);
      data := NotSmooth(n, offset + k, sends[1..]);
      var f := FlushFrom(data, offset + k, sends[1..]);
      assert FlushFrom(data, offset, sends) == f.(wire := data[offset..offset + k] + f.wire);
      if data[offset..offset + k] + f.wire == data[offset..] {
        assert data[offset..][k..] == data[offset + k..];
        assert (data[offset..offset + k] + f.wire)[k..] == f.wire;
      }
    } else {
      data := Marked(n, offset);
      if offset == 0 {
        assert (0 + SIZE_MAX - 1) % SIZE_MAX == SIZE_MAX - 1;
      } else {
        assert (offset + SIZE_MAX - 1) % SIZE_MAX == offset - 1;
        NextByte(data, offset - 1, sends[1..]);
      }
    }
  }

  /**
   * A flush delivers its data, whatever they are, exactly if no send blocks or
   * fails: a send that would block has the byte before repeated, or, at the
   * start, all the rest dropped.
   */
  lemma FlushDeliversIffSmooth(n: nat, sends: seq<Send>)
    requires n < SIZE_MAX
    ensures Smooth(n, 0, sends) <==>
              forall data: seq<byte> :: |data| == n ==> FlushFrom(data, 0, sends).wire == data && FlushFrom(data, 0, sends).ok
  {
    if Smooth(n, 0, sends) {
      forall data: seq<byte> | |data| == n
        ensures FlushFrom(data, 0, sends).wire == data && FlushFrom(data, 0, sends).ok
      {
        SmoothDelivers(data, 0, sends);
      }
    } else {
      var data := NotSmooth(n, 0, sends);
      assert data[0..] == data;
    }
  }

  /** `after` is what is left of `before`, and a send between the two would have blocked. */
  ghost predicate Left(before: seq<Send>, after: seq<Send>)
  {
    |after| <= |before| && after == before[|before| - |after|..]
  }

  ghost predicate Waited(before: seq<Send>, after: seq<Send>)
  {
    exists i :: 0 <= i < |before| - |after| && before[i].WouldBlock?
  }

  lemma WaitedNext(before: seq<Send>, after: seq<Send>)
    ensures Left(before, before) && !Waited(before, before)
    ensures Left(before, after) && after != [] ==>
              Left(before, after[1..]) && (Waited(before, after[1..]) <==> Waited(before, after) || after[0].WouldBlock?)
  {
    if Left(before, after) && after != [] {
      var k := |before| - |after|;
      assert before[k] == after[0];
      assert after[1..] == before[k + 1..];
    }
  }

  lemma WaitedEither(a: seq<Send>, b: seq<Send>, c: seq<Send>)
    requires Left(a, b) && Left(b, c)
    ensures Left(a, c) && (Waited(a, c) <==> Waited(a, b) || Waited(b, c))
  {
    var k := |a| - |b|;
    assert forall i :: 0 <= i < |b| ==> b[i] == a[k + i];
    assert forall i :: k <= i < |a| ==> a[i] == b[i - k];
  }

  /** If no send waits, what is sent is a beginning of the data, and all of it unless a send fails. */
  lemma {:induction false} UnwaitedKeepsOrder(data: seq<byte>, offset: nat, sends: seq<Send>)
    requires |data| < SIZE_MAX && offset <= |data| && !Waited(sends, FlushFrom(data, offset, sends).sends)
    ensures var f := FlushFrom(data, offset, sends); f.wire <= data[offset..] && (f.ok ==> f.wire == data[offset..])
    decreases |sends|
  {
    hide FlushFrom, Waited;
    FlushNext(data, offset, sends);
    if offset < |data| && sends != [] && !sends[0].Failed? {
      UnwaitedFirst(data, offset, sends);
      var n := Min(sends[0].more + 1, |data| - offset);
      UnwaitedKeepsOrder(data, offset + n, sends[1..]);
      LongerPrefix(data, offset, n, FlushFrom(data, offset + n, sends[1..]).wire);
    }
  }

  lemma UnwaitedFirst(data: seq<byte>, offset: nat, sends: seq<Send>)
    requires |data| < SIZE_MAX && offset < |data| && sends != [] && !sends[0].Failed?
    requires !Waited(sends, FlushFrom(data, offset, sends).sends)
    ensures sends[0].Accepted?
    ensures !Waited(sends[1..], FlushFrom(data, offset + Min(sends[0].more + 1, |data| - offset), sends[1..]).sends)
  {
    FlushLeaves(data, (offset + SIZE_MAX - 1) % SIZE_MAX, sends[1..]);
    assert forall i :: 0 <= i < |sends[1..]| ==> sends[1..][i] == sends[i + 1];
  }

  lemma {:induction false} FlushLeaves(data: seq<byte>, offset: nat, sends: seq<Send>)
    requires |data| < SIZE_MAX
    ensures |FlushFrom(data, offset, sends).sends| <= |sends|
    decreases |sends|
  {
    if offset < |data| && sends != [] && !sends[0].Failed? {
      FlushLeaves(data, if sends[0].WouldBlock? then (offset + SIZE_MAX - 1) % SIZE_MAX
                        else offset + Min(sends[0].more + 1, |data| - offset), sends[1..]);
    }
  }

  lemma LongerPrefix(data: seq<byte>, offset: nat, n: nat, w: seq<byte>)
    requires offset + n <= |data| && w <= data[offset + n..]
    ensures data[offset..offset + n] + w <= data[offset..]
    ensures w == data[offset + n..] ==> data[offset..offset + n] + w == data[offset..]
  {
    assert data[offset..] == data[offset..offset + n] + data[offset + n..];
  }

  lemma QueueMore(queued: seq<Message>, m: Message)
    requires Typed(m) && AllTyped(queued)
    ensures AllTyped(queued + [m])
    ensures EncodeAll(queued + [m]) == EncodeAll(queued) + Encode(m)
  {
    hide Encode;
    EncodeAllAppends(queued, [m]);
    assert EncodeAll([m]) == Encode(m) + EncodeAll([][..]) by { assert [m][1..] == []; }
    assert Encode(m) + [] == Encode(m);
  }

  /** What the pixel format must not be for ZRLE to be offered. */
  predicate Broken(fmt: Format)
  {
    fmt.depth == 32 && (255 < fmt.red.Max() || 255 < fmt.blue.Max() || 255 < fmt.green.Max())
  }

  const ZRLE := 16

  /** The encodings offered: all, in order, but for ZRLE if the format is broken for it. */
  function Offered(encodings: seq<Encoding>, fmt: Format): (r: seq<Encoding>)
    ensures |r| <= |encodings|
  {
    if encodings == [] then []
    else
      var n := |encodings| - 1;
      Offered(encodings[..n], fmt) + if Broken(fmt) && encodings[n] == ZRLE then [] else [encodings[n]]
  }

  function Without(encodings: seq<Encoding>, e: Encoding): seq<Encoding>
  {
    if encodings == [] then []
    else (if encodings[0] == e then [] else [encodings[0]]) + Without(encodings[1..], e)
  }

  lemma WithoutMore(encodings: seq<Encoding>, last: Encoding, e: Encoding)
    ensures Without(encodings + [last], e) == Without(encodings, e) + if last == e then [] else [last]
  {
    if encodings == [] {
      assert Without([last], e) == (if last == e then [] else [last]) + Without([], e);
    } else {
      assert (encodings + [last])[1..] == encodings[1..] + [last];
      WithoutMore(encodings[1..], last, e);
    }
  }

  /** All go out in order, but for ZRLE, number 16, exactly where the depth is 32 and a channel has more than 8 bits. */
  lemma {:induction false} OfferedMeans(encodings: seq<Encoding>, fmt: Format)
    ensures Offered(encodings, fmt)
         == if fmt.depth == 32 && (8 < fmt.red.bits || 8 < fmt.green.bits || 8 < fmt.blue.bits) then Without(encodings, 16) else encodings
  {
    hide Broken, Without;
    BrokenMeans(fmt);
    if encodings != [] {
      var n := |encodings| - 1;
      OfferedMeans(encodings[..n], fmt);
      WithoutMore(encodings[..n], encodings[n], 16);
      assert encodings == encodings[..n] + [encodings[n]];
    } else {
      WithoutNone();
    }
  }

  lemma WithoutNone()
    ensures Without([], 16) == []
  {
  }

  lemma BrokenMeans(fmt: Format)
    ensures Broken(fmt) <==> fmt.depth == 32 && (8 < fmt.red.bits || 8 < fmt.green.bits || 8 < fmt.blue.bits)
  {
    hide Channel.Max;
    WideMax(fmt.red);
    WideMax(fmt.green);
    WideMax(fmt.blue);
  }

  lemma WideMax(c: Channel)
    ensures 255 < c.Max() <==> 8 < c.bits
  {
    assert Words.Pow2(8) == 256;
    if c.bits <= 8 {
      Words.Pow2Monotone(c.bits, 8);
    } else {
      Words.Pow2Monotone(8, c.bits - 1);
    }
  }

  lemma ListMore(es: seq<Encoding>, e: Encoding)
    ensures EncodeList(es + [e]) == EncodeList(es) + EncS32(e)
  {
    if es == [] {
      assert [e][1..] == [];
      assert EncodeList([e]) == EncS32(e) + EncodeList([]);
      assert es + [e] == [e];
    } else {
      assert (es + [e])[1..] == es[1..] + [e];
      ListMore(es[1..], e);
    }
  }

  /** Those of the messages that are marked. */
  ghost function FromCalls(ms: seq<Message>, called: seq<bool>): seq<Message>
    requires |called| == |ms|
  {
    if ms == [] then []
    else
      var n := |ms| - 1;
      FromCalls(ms[..n], called[..n]) + if called[n] then [ms[n]] else []
  }

  lemma FromCallsMore(ms: seq<Message>, called: seq<bool>, m: Message, call: bool)
    requires |called| == |ms|
    ensures FromCalls(ms + [m], called + [call]) == FromCalls(ms, called) + if call then [m] else []
  {
    assert (ms + [m])[..|ms|] == ms && (called + [call])[..|ms|] == called;
  }

  lemma {:induction false} FromCallsAll(ms: seq<Message>, called: seq<bool>, more: seq<Message>)
    requires |called| == |ms|
    ensures FromCalls(ms + more, called + seq(|more|, _ => true)) == FromCalls(ms, called) + more
    decreases |more|
  {
    if more == [] {
      assert ms + more == ms && called + seq(|more|, _ => true) == called;
      assert FromCalls(ms, called) + more == FromCalls(ms, called);
    } else {
      var n := |more| - 1;
      FromCallsAll(ms, called, more[..n]);
      FromCallsMore(ms + more[..n], called + seq(n, _ => true), more[n], true);
      assert ms + more[..n] + [more[n]] == ms + more;
      assert called + seq(n, _ => true) + [true] == called + seq(|more|, _ => true);
      assert FromCalls(ms, called) + more[..n] + [more[n]] == FromCalls(ms, called) + more;
    }
  }

  /** The last update request, which is repeated. */
  datatype Request = Request(incremental: bool, x: int, y: int, w: int, h: int)

  /** What a flush does in a round of its loop. */
  lemma FlushNext(data: seq<byte>, offset: nat, sends: seq<Send>)
    requires |data| < SIZE_MAX
    ensures |data| <= offset ==> FlushFrom(data, offset, sends) == Flushed([], true, sends)
    ensures offset < |data| && sends == [] ==> FlushFrom(data, offset, sends) == Flushed([], false, sends)
    ensures offset < |data| && sends != [] ==>
              match sends[0]
              case Accepted(more) =>
                var n := Min(more + 1, |data| - offset);
                var f := FlushFrom(data, offset + n, sends[1..]);
                FlushFrom(data, offset, sends) == f.(wire := data[offset..offset + n] + f.wire)
              case WouldBlock => FlushFrom(data, offset, sends) == FlushFrom(data, (offset + SIZE_MAX - 1) % SIZE_MAX, sends[1..])
              case Failed => FlushFrom(data, offset, sends) == Flushed([], false, sends[1..])
  {
  }

  /** With `wire` sent, what is to come is `g` where it was `f` at the start. */
  ghost predicate Onward(start: seq<byte>, f: Flushed, wire: seq<byte>, g: Flushed)
  {
    wire + g.wire == start + f.wire && g.ok == f.ok && g.sends == f.sends
  }

  class Writer {
    const writeBuffer: array<byte>
    var writeOffset: nat
    var xmitBuffer: array<byte>             // its length is xmit_buffer_capacity
    var xmitSize: nat
    var sends: seq<Send>                    // what further sends will do
    var wire: seq<byte>
    var stop: bool
    var hasExtKeyEvent: bool
    var skipNonIncremental: bool
    var lastUpdateRequest: Request
    var fmt: Format
    ghost var queued: seq<Message>          // messages in the transmit buffer
    ghost var written: seq<Message>         // messages passed on towards the wire ...
    ghost var called: seq<bool>             // ... and which of them calls of the interface had asked for
    ghost var submitted: seq<Message>       // messages that calls of the interface have asked for ...
    ghost var lost: seq<Message>            // ... but for those dropped since the transmit buffer was being sent
    ghost var slipped: bool                 // a send would have blocked

    ghost predicate Fits()
      reads this`writeOffset, this`xmitBuffer, this`xmitSize
    {
      && writeBuffer.Length == 4096 && writeOffset <= 4096
      && xmitSize <= xmitBuffer.Length && xmitBuffer != writeBuffer && xmitSize < SIZE_MAX
    }

    /** The bytes in the write buffer. */
    ghost function Pending(): seq<byte>
      reads this`writeOffset, writeBuffer
    {
      if writeOffset <= writeBuffer.Length then writeBuffer[..writeOffset] else []
    }

    /** The bytes in the transmit buffer. */
    ghost function Xmit(): seq<byte>
      reads this`xmitBuffer, this`xmitSize, xmitBuffer
    {
      if xmitSize <= xmitBuffer.Length then xmitBuffer[..xmitSize] else []
    }

    /**
     * All of `stream` is on the wire or in the write buffer, in order; after a
     * failure a beginning of it is on the wire.  Nothing is promised any more
     * once a send would have blocked.
     */
    ghost predicate Carries(stream: seq<byte>)
      reads this`wire, this`stop, this`writeOffset, this`slipped, writeBuffer
    {
      slipped || if stop then wire <= stream else wire + Pending() == stream
    }

    constructor (sends: seq<Send>)
      ensures Fits() && fresh(writeBuffer) && fresh(xmitBuffer) && Carries([]) && Xmit() == []
      ensures queued == [] && written == [] && wire == [] && !stop && !slipped && lost == [] && this.sends == sends && Valid()
      ensures !hasExtKeyEvent && !skipNonIncremental && lastUpdateRequest == Request(false, 0, 0, 0, 0)
    {
      writeBuffer := new byte[WRITE_BUFFER](_ => 0);
      xmitBuffer := new byte[0];
      writeOffset, xmitSize, this.sends, wire, stop := 0, 0, sends, [], false;
      hasExtKeyEvent, skipNonIncremental, lastUpdateRequest := false, false, Request(false, 0, 0, 0, 0);
      fmt := Format(0, 0, false, false, Channel(0, 0), Channel(0, 0), Channel(0, 0));
      queued, written, called, submitted, lost, slipped := [], [], [], [], [], false;
    }

    /** `vnc_connection_flush_wire` */
    method FlushWire(data: seq<byte>)
      requires |data| < SIZE_MAX
      modifies this`wire, this`sends, this`stop, this`slipped
      ensures Left(old(sends), sends) && (slipped <==> old(slipped) || Waited(old(sends), sends))
      ensures old(stop) ==> wire == old(wire) && sends == old(sends) && stop
      ensures !old(stop) ==>
                var f := FlushFrom(data, 0, old(sends));
                wire == old(wire) + f.wire && stop == !f.ok && sends == f.sends
    {
      hide FlushFrom, Left, Waited;
      var offset: nat := 0;
      WaitedNext(sends, sends);
      while offset < |data|
        invariant old(stop) ==> wire == old(wire) && sends == old(sends) && stop
        invariant !old(stop) ==> !stop && Onward(old(wire), FlushFrom(data, 0, old(sends)), wire, FlushFrom(data, offset, sends))
        invariant Left(old(sends), sends) && (slipped <==> old(slipped) || Waited(old(sends), sends))
        decreases |sends|, |data| - offset
      {
        if stop {
          return;
        }
        FlushNext(data, offset, sends);
        if sends == [] {
          stop := true;
          return;
        }
        WaitedNext(old(sends), sends);
        var send := sends[0];
        sends := sends[1..];
        match send
        case Accepted(more) =>
          var n := Min(more + 1, |data| - offset);
          Append(wire, data[offset..offset + n], FlushFrom(data, offset + n, sends).wire);
          wire := wire + data[offset..offset + n];
          offset := offset + n;
        case WouldBlock =>
          // g_io_wait, and then the -1 is added to an unsigned offset
          slipped := true;
          offset := (offset + SIZE_MAX - 1) % SIZE_MAX;
        case Failed =>
          stop := true;
          return;
      }
      FlushNext(data, offset, sends);
    }

    /** `vnc_connection_flush`: the write buffer goes onto the wire. */
    method Flush(ghost stream: seq<byte>)
      requires Fits() && Carries(stream)
      modifies this`wire, this`sends, this`stop, this`slipped, this`writeOffset
      ensures Fits() && Carries(stream) && writeOffset == 0 && Xmit() == old(Xmit()) && (old(stop) ==> stop)
      ensures Left(old(sends), sends) && (slipped <==> old(slipped) || Waited(old(sends), sends))
    {
      hide FlushFrom, Left, Waited, Xmit;
      if !Waited(sends, FlushFrom(Pending(), 0, sends).sends) {
        UnwaitedKeepsOrder(Pending(), 0, sends);
      }
      assert Pending()[0..] == Pending();
      FlushWire(writeBuffer[..writeOffset]);
      writeOffset := 0;
      assert wire + [] == wire;
    }

    /** `vnc_connection_write` */
    method Write(data: seq<byte>, ghost stream: seq<byte>)
      requires Fits() && Carries(stream)
      modifies this`wire, this`sends, this`stop, this`slipped, this`writeOffset, writeBuffer
      ensures Fits() && Carries(stream + data) && Xmit() == old(Xmit()) && (old(stop) ==> stop)
      ensures Left(old(sends), sends) && (slipped <==> old(slipped) || Waited(old(sends), sends))
    {
      hide Left, Waited, Carries, Xmit, Pending;
      WaitedNext(sends, sends);
      var offset := 0;
      assert stream + data[..0] == stream;
      while offset < |data|
        invariant offset <= |data| && Fits() && Carries(stream + data[..offset]) && Xmit() == old(Xmit()) && (old(stop) ==> stop)
        invariant Left(old(sends), sends) && (slipped <==> old(slipped) || Waited(old(sends), sends))
      {
        ghost var before := sends;
        if writeOffset == WRITE_BUFFER {
          Flush(stream + data[..offset]);
          WaitedEither(old(sends), before, sends);
        }
        var n := Min(WRITE_BUFFER - writeOffset, |data| - offset);
        Put(data[offset..offset + n], stream + data[..offset]);
        assert stream + data[..offset] + data[offset..offset + n] == stream + data[..offset + n];
        offset := offset + n;
      }
      assert data[..offset] == data;
    }

    /** The copy into the write buffer. */
    method Put(data: seq<byte>, ghost stream: seq<byte>)
      requires Fits() && Carries(stream) && writeOffset + |data| <= WRITE_BUFFER
      modifies this`writeOffset, writeBuffer
      ensures Fits() && Carries(stream + data) && Xmit() == old(Xmit()) && writeOffset == old(writeOffset) + |data|
    {
      ghost var pending := Pending();
      forall k | 0 <= k < |data| { writeBuffer[writeOffset + k] := data[k]; }
      writeOffset := writeOffset + |data|;
      assert Pending() == pending + data;
      Append(wire, pending, data);
    }

    /** `vnc_connection_buffered_write`: the capacity grows by whole pages when it has to. */
    method BufferedWrite(data: seq<byte>)
      requires Fits() && xmitSize + |data| < SIZE_MAX
      modifies this`xmitBuffer, this`xmitSize, xmitBuffer
      ensures Fits() && Xmit() == old(Xmit()) + data && xmitSize == old(xmitSize) + |data|
      ensures xmitBuffer != writeBuffer
      ensures xmitBuffer == old(xmitBuffer) || fresh(xmitBuffer)
      ensures if old(xmitBuffer.Length) - old(xmitSize) < |data|
              then xmitBuffer.Length % 4096 == 0 && 0 <= xmitBuffer.Length - old(xmitBuffer.Length) - |data| < 4096
              else xmitBuffer == old(xmitBuffer)
    {
      ghost var was := Xmit();
      if xmitBuffer.Length - xmitSize < |data| {
        var capacity := xmitBuffer.Length + |data| + 4095;
        capacity := capacity - capacity % 4096;
        var bigger := new byte[capacity](_ => 0);
        forall k | 0 <= k < xmitSize { bigger[k] := xmitBuffer[k]; }
        xmitBuffer := bigger;
        assert Xmit() == was;
      }
      forall k | 0 <= k < |data| { xmitBuffer[xmitSize + k] := data[k]; }
      xmitSize := xmitSize + |data|;
      assert Xmit() == was + data;
    }

    /* Messages. */

    ghost predicate Valid()
      reads this, writeBuffer, xmitBuffer
    {
      && Fits()
      && AllTyped(queued) && AllTyped(written)
      && |called| == |written| && FromCalls(written, called) + queued == submitted && (lost == [] || slipped)
      && Carries(EncodeAll(written)) && Xmit() == EncodeAll(queued)
      && var r := lastUpdateRequest; IsU16(r.x) && IsU16(r.y) && IsU16(r.w) && IsU16(r.h)
    }

    /** One message more in the transmit buffer; nothing else has changed. */
    twostate predicate Queued(m: Message)
      reads this, writeBuffer, xmitBuffer
    {
      && Valid() && queued == old(queued) + [m] && submitted == old(submitted) + [m]
      && (xmitBuffer == old(xmitBuffer) || fresh(xmitBuffer))
    }

    /** Several fields, one after the other. */
    method BufferedWriteAll(fields: seq<seq<byte>>)
      requires Fits() && xmitSize + |Concat(fields)| < SIZE_MAX
      modifies this`xmitBuffer, this`xmitSize, xmitBuffer
      ensures Fits() && Xmit() == old(Xmit()) + Concat(fields) && xmitSize == old(xmitSize) + |Concat(fields)|
      ensures xmitBuffer == old(xmitBuffer) || fresh(xmitBuffer)
    {
      hide Concat, Writer.Xmit;
      ConcatUpTo(fields, 0);
      assert Xmit() + [] == Xmit();
      for i := 0 to |fields|
        invariant Fits() && xmitSize == old(xmitSize) + |Concat(fields[..i])| && |Concat(fields[..i])| <= |Concat(fields)|
        invariant Xmit() == old(Xmit()) + Concat(fields[..i])
        invariant xmitBuffer == old(xmitBuffer) || fresh(xmitBuffer)
      {
        ConcatUpTo(fields, i + 1);
        BufferedWrite(fields[i]);
        Append(old(Xmit()), Concat(fields[..i]), fields[i]);
      }
      assert fields[..|fields|] == fields;
    }

    /** The same for the direct way to the wire. */
    method WriteAll(fields: seq<seq<byte>>, ghost stream: seq<byte>)
      requires Fits() && Carries(stream)
      modifies this`wire, this`sends, this`stop, this`slipped, this`writeOffset, writeBuffer
      ensures Fits() && Carries(stream + Concat(fields)) && Xmit() == old(Xmit()) && (old(stop) ==> stop)
      ensures Left(old(sends), sends) && (slipped <==> old(slipped) || Waited(old(sends), sends))
    {
      hide Concat, Left, Waited, Writer.Xmit, Writer.Carries;
      WaitedNext(sends, sends);
      ConcatUpTo(fields, 0);
      assert stream + [] == stream;
      for i := 0 to |fields|
        invariant Fits() && Carries(stream + Concat(fields[..i])) && Xmit() == old(Xmit()) && (old(stop) ==> stop)
        invariant Left(old(sends), sends) && (slipped <==> old(slipped) || Waited(old(sends), sends))
      {
        ghost var before := sends;
        ConcatUpTo(fields, i + 1);
        Write(fields[i], stream + Concat(fields[..i]));
        WaitedEither(old(sends), before, sends);
        Append(stream, Concat(fields[..i]), fields[i]);
      }
      assert fields[..|fields|] == fields;
    }

    /** Record a message whose bytes have just been put into the transmit buffer. */
    ghost method Record(m: Message)
      requires Fits() && AllTyped(queued) && AllTyped(written) && Typed(m) && Carries(EncodeAll(written))
      requires Xmit() == EncodeAll(queued) + Encode(m)
      requires |called| == |written| && FromCalls(written, called) + queued == submitted && (lost == [] || slipped)
      requires var r := lastUpdateRequest; IsU16(r.x) && IsU16(r.y) && IsU16(r.w) && IsU16(r.h)
      modifies this`queued, this`submitted
      ensures Valid() && queued == old(queued) + [m] && submitted == old(submitted) + [m]
    {
      QueueMore(queued, m);
      queued, submitted := queued + [m], submitted + [m];
    }

    /** `vnc_connection_key_event` */
    method KeyEvent(down: bool, keysym: int, scancode: int)
      requires Valid() && IsU32(keysym) && IsU16(scancode) && xmitSize + 12 < SIZE_MAX
      modifies this`xmitBuffer, this`xmitSize, this`queued, this`submitted, xmitBuffer
      ensures Queued(if hasExtKeyEvent then ExtendedKey(down, keysym, scancode) else Key(down, keysym))
    {
      hide EncU16, EncU32, EncodeAll, FromCalls, Concat;
      if hasExtKeyEvent {
        Concat5([QEMU], [QEMU_KEY], EncU16(Bit(down)), EncU32(keysym), EncU32(scancode));
        BufferedWriteAll([[QEMU], [QEMU_KEY], EncU16(Bit(down)), EncU32(keysym), EncU32(scancode)]);
        Record(ExtendedKey(down, keysym, scancode));
      } else {
        Concat4([KEY_EVENT], [Bit(down)], Zeros(2), EncU32(keysym));
        BufferedWriteAll([[KEY_EVENT], [Bit(down)], Zeros(2), EncU32(keysym)]);
        Record(Key(down, keysym));
      }
    }

    /** `vnc_connection_pointer_event` */
    method PointerEvent(buttons: byte, x: int, y: int)
      requires Valid() && IsU16(x) && IsU16(y) && xmitSize + 6 < SIZE_MAX
      modifies this`xmitBuffer, this`xmitSize, this`queued, this`submitted, xmitBuffer
      ensures Queued(Pointer(buttons, x, y))
    {
      hide EncU16, EncodeAll, FromCalls, Concat;
      Concat4([MOUSE_EVENT], [buttons], EncU16(x), EncU16(y));
      BufferedWriteAll([[MOUSE_EVENT], [buttons], EncU16(x), EncU16(y)]);
      Record(Pointer(buttons, x, y));
    }

    /** `vnc_connection_client_cut_text` */
    method ClientCutText(text: seq<byte>)
      requires Valid() && xmitSize + 8 + |text| < SIZE_MAX
      modifies this`xmitBuffer, this`xmitSize, this`queued, this`submitted, xmitBuffer
      ensures Queued(CutText(text))
    {
      hide EncU32, EncodeAll, FromCalls, Concat;
      Concat4([CUT_TEXT], Zeros(3), EncU32(|text| % 0x1_0000_0000), text);
      BufferedWriteAll([[CUT_TEXT], Zeros(3), EncU32(|text| % 0x1_0000_0000), text]);
      Record(CutText(text));
    }

    /** `vnc_connection_framebuffer_update_request` */
    method FramebufferUpdateRequest(wanted: bool, x: int, y: int, w: int, h: int)
      requires Valid() && IsU16(x) && IsU16(y) && IsU16(w) && IsU16(h) && xmitSize + 10 < SIZE_MAX
      modifies this`xmitBuffer, this`xmitSize, this`queued, this`submitted, this`skipNonIncremental, this`lastUpdateRequest, xmitBuffer
      ensures !skipNonIncremental && lastUpdateRequest == Request(wanted || old(skipNonIncremental), x, y, w, h)
      ensures Queued(UpdateRequest(wanted || old(skipNonIncremental), x, y, w, h))
    {
      hide EncU16, EncodeAll, FromCalls, Concat, AllTyped, Writer.Xmit, Writer.Carries;
      var incremental := wanted;
      if !incremental && skipNonIncremental {
        incremental := true;
      }
      skipNonIncremental := false;
      lastUpdateRequest := Request(incremental, x, y, w, h);
      Concat6([FRAMEBUFFER_UPDATE_REQUEST], [Bit(incremental)], EncU16(x), EncU16(y), EncU16(w), EncU16(h));
      BufferedWriteAll([[FRAMEBUFFER_UPDATE_REQUEST], [Bit(incremental)], EncU16(x), EncU16(y), EncU16(w), EncU16(h)]);
      Record(UpdateRequest(incremental, x, y, w, h));
    }

    /** `vnc_connection_set_encodings`: what is announced and what is written are the encodings offered. */
    method SetEncodingsTo(encodings: seq<Encoding>)
      requires Valid() && xmitSize + 4 + 4 * |encodings| < SIZE_MAX
      modifies this`xmitBuffer, this`xmitSize, this`queued, this`submitted, this`hasExtKeyEvent, xmitBuffer
      ensures !hasExtKeyEvent && Queued(SetEncodings(Offered(encodings, fmt)))
    {
      hide EncU16, EncodeAll, FromCalls, Concat, EncodeList, Offered, AllTyped, Broken, Writer.Xmit, Writer.Carries;
      var skipZrle := CountSkipped(encodings);
      hasExtKeyEvent := false;
      var count := EncU16((|encodings| - skipZrle) % 0x1_0000);
      ghost var x := Xmit();
      Concat3([SET_ENCODINGS], [0], count);
      BufferedWriteAll([[SET_ENCODINGS], [0], count]);
      WriteEncodings(encodings, skipZrle);
      Nested4(x, [SET_ENCODINGS], [0], count, EncodeList(Offered(encodings, fmt)));
      Append(x, [SET_ENCODINGS], [0] + count);
      Append(x + [SET_ENCODINGS], [0], count);
      Record(SetEncodings(Offered(encodings, fmt)));
    }

    /** Its second loop. */
    method WriteEncodings(encodings: seq<Encoding>, skipZrle: nat)
      requires Fits() && xmitSize + 4 * |encodings| < SIZE_MAX && (skipZrle != 0 <==> Broken(fmt) && ZRLE in encodings)
      modifies this`xmitBuffer, this`xmitSize, xmitBuffer
      ensures Fits() && Xmit() == old(Xmit()) + EncodeList(Offered(encodings, fmt))
      ensures xmitBuffer == old(xmitBuffer) || fresh(xmitBuffer)
    {
      hide EncodeList, EncS32, Writer.Xmit, Offered;
      OfferedUpTo(encodings, fmt, 0);
      assert Xmit() + [] == Xmit();
      for i := 0 to |encodings|
        invariant Fits() && xmitSize <= old(xmitSize) + 4 * i
        invariant Xmit() == old(Xmit()) + EncodeList(Offered(encodings[..i], fmt))
        invariant xmitBuffer == old(xmitBuffer) || fresh(xmitBuffer)
      {
        OfferedUpTo(encodings, fmt, i + 1);
        if !(skipZrle != 0 && encodings[i] == ZRLE) {
          ListMore(Offered(encodings[..i], fmt), encodings[i]);
          BufferedWrite(EncS32(encodings[i]));
          Append(old(Xmit()), EncodeList(Offered(encodings[..i], fmt)), EncS32(encodings[i]));
        } else {
          assert Offered(encodings[..i], fmt) + [] == Offered(encodings[..i], fmt);
        }
      }
      assert encodings[..|encodings|] == encodings;
    }

    /** The encodings that are not offered are counted, and those written are the others. */
    method CountSkipped(encodings: seq<Encoding>) returns (skipZrle: nat)
      ensures |Offered(encodings, fmt)| + skipZrle == |encodings|
      ensures skipZrle != 0 <==> Broken(fmt) && ZRLE in encodings
    {
      skipZrle := 0;
      for i := 0 to |encodings|
        invariant |Offered(encodings[..i], fmt)| + skipZrle == i
        invariant skipZrle != 0 <==> Broken(fmt) && ZRLE in encodings[..i]
      {
        assert encodings[..i + 1][..i] == encodings[..i];
        if Broken(fmt) && encodings[i] == ZRLE {
          skipZrle := skipZrle + 1;
        }
      }
      assert encodings[..|encodings|] == encodings;
    }

    /**
     * The start of `vnc_connection_server_message`: the transmit buffer goes out,
     * whole messages in order.  Of the calls made while a send waits, the
     * messages, `meanwhile`, join a buffer that is then declared empty.
     */
    method SendQueued(ghost meanwhile: seq<Message>)
      requires Valid()
      modifies this`wire, this`sends, this`stop, this`slipped, this`writeOffset, this`xmitSize
      modifies this`queued, this`written, this`called, this`lost, writeBuffer
      ensures Valid() && written == old(written) + old(queued) && queued == [] && xmitSize == 0 && (old(stop) ==> stop)
      ensures called == old(called) + seq(|old(queued)|, _ => true)
      ensures old(queued) != [] ==> writeOffset == 0
      ensures Left(old(sends), sends) && (slipped <==> old(slipped) || Waited(old(sends), sends))
      ensures lost == old(lost) + if Waited(old(sends), sends) then meanwhile else []
    {
      hide Encode, EncodeAll, AllTyped, FromCalls, Left, Waited, Writer.Pending, Writer.Carries;
      EncodeAllAppends(written, queued);
      WaitedNext(sends, sends);
      if xmitSize != 0 {
        SendXmit(EncodeAll(written));
      } else {
        assert EncodeAll(written) + [] == EncodeAll(written);
        NotEmpty(queued);
      }
      lost := lost + if Waited(old(sends), sends) then meanwhile else [];
      BothTyped(written, queued);
      Pass();
    }

    method SendXmit(ghost stream: seq<byte>)
      requires Fits() && Carries(stream)
      modifies this`wire, this`sends, this`stop, this`slipped, this`writeOffset, this`xmitSize, writeBuffer
      ensures Fits() && Carries(stream + old(Xmit())) && xmitSize == 0 && writeOffset == 0 && (old(stop) ==> stop)
      ensures Left(old(sends), sends) && (slipped <==> old(slipped) || Waited(old(sends), sends))
    {
      hide Left, Waited, Writer.Pending, Writer.Carries;
      ghost var all := stream + Xmit();
      Write(xmitBuffer[..xmitSize], stream);
      ghost var before := sends;
      Flush(all);
      WaitedEither(old(sends), before, sends);
      xmitSize := 0;
    }

    /** Record that the queued messages have been passed on. */
    ghost method Pass()
      requires Fits() && AllTyped(queued) && AllTyped(written) && AllTyped(written + queued)
      requires Carries(EncodeAll(written + queued)) && xmitSize == 0
      requires |called| == |written| && FromCalls(written, called) + queued == submitted && (lost == [] || slipped)
      requires var r := lastUpdateRequest; IsU16(r.x) && IsU16(r.y) && IsU16(r.w) && IsU16(r.h)
      modifies this`queued, this`written, this`called
      ensures Valid() && written == old(written) + old(queued) && queued == []
      ensures called == old(called) + seq(|old(queued)|, _ => true)
    {
      hide Encode, FromCalls, Writer.Carries;
      FromCallsAll(written, called, queued);
      called := called + seq(|queued|, _ => true);
      written, queued := written + queued, [];
    }

    lemma BothTyped(a: seq<Message>, b: seq<Message>)
      requires AllTyped(a) && AllTyped(b)
      ensures AllTyped(a + b) && AllTyped([]) && EncodeAll([]) == []
    {
    }

    lemma NotEmpty(ms: seq<Message>)
      requires AllTyped(ms)
      ensures EncodeAll(ms) == [] <==> ms == []
    {
    }

    /** `vnc_connection_resend_framebuffer_update_request`, straight to the wire. */
    method ResendUpdateRequest()
      requires Valid()
      modifies this`wire, this`sends, this`stop, this`slipped, this`writeOffset, this`written, this`called, writeBuffer
      ensures Valid() && writeOffset == 0 && queued == old(queued) && (old(stop) ==> stop)
      ensures Left(old(sends), sends) && (slipped <==> old(slipped) || Waited(old(sends), sends))
      ensures var r := lastUpdateRequest; written == old(written) + [UpdateRequest(r.incremental, r.x, r.y, r.w, r.h)]
      ensures called == old(called) + [false]
    {
      hide EncU16, EncodeAll, Concat, AllTyped, FromCalls, Left, Waited, Writer.Xmit, Writer.Carries;
      var r := lastUpdateRequest;
      Concat6([FRAMEBUFFER_UPDATE_REQUEST], [Bit(r.incremental)], EncU16(r.x), EncU16(r.y), EncU16(r.w), EncU16(r.h));
      WriteAll([[FRAMEBUFFER_UPDATE_REQUEST], [Bit(r.incremental)], EncU16(r.x), EncU16(r.y), EncU16(r.w), EncU16(r.h)], EncodeAll(written));
      ghost var m := UpdateRequest(r.incremental, r.x, r.y, r.w, r.h);
      ghost var before := sends;
      Flush(EncodeAll(written) + Encode(m));
      WaitedEither(old(sends), before, sends);
      PassDirect(m);
    }

    /** Record a message that was not queued. */
    ghost method PassDirect(m: Message)
      requires Fits() && AllTyped(queued) && AllTyped(written) && Typed(m)
      requires Carries(EncodeAll(written) + Encode(m)) && Xmit() == EncodeAll(queued)
      requires |called| == |written| && FromCalls(written, called) + queued == submitted && (lost == [] || slipped)
      requires var r := lastUpdateRequest; IsU16(r.x) && IsU16(r.y) && IsU16(r.w) && IsU16(r.h)
      modifies this`written, this`called
      ensures Valid() && written == old(written) + [m] && called == old(called) + [false]
    {
      hide Encode, EncodeAll, AllTyped, FromCalls, Writer.Carries, Writer.Xmit;
      QueueMore(written, m);
      FromCallsMore(written, called, m, false);
      written, called := written + [m], called + [false];
      assert FromCalls(old(written), old(called)) + [] == FromCalls(old(written), old(called));
    }

    /**
     * While no send has blocked or failed and nothing waits in the write buffer,
     * a server reads off the wire exactly the messages passed on, in order; those that
     * calls of the interface had asked for are all there, each once and in
     * their order, but for the ones still queued.
     */
    lemma WireIsMessages()
      requires Valid() && !stop && !slipped && writeOffset == 0 && forall k :: 0 <= k < |written| ==> Countable(written[k])
      ensures ReadAll(Feed.Live(wire), |written|) == (written, Feed.Live([]))
      ensures |called| == |written| && FromCalls(written, called) + queued == submitted && lost == []
    {
      StreamInverts(written, []);
      assert wire + [] == wire && EncodeAll(written) + [] == EncodeAll(written);
    }
  }

  lemma Nested4(s: seq<byte>, a: seq<byte>, b: seq<byte>, c: seq<byte>, d: seq<byte>)
    ensures s + a + b + c + d == s + (a + (b + (c + d)))
  {
  }

  lemma ConcatUpTo(ss: seq<seq<byte>>, n: nat)
    requires n <= |ss|
    ensures n == 0 ==> Concat(ss[..n]) == []
    ensures 0 < n ==> Concat(ss[..n]) == Concat(ss[..n - 1]) + ss[n - 1]
    ensures |Concat(ss[..n])| <= |Concat(ss)|
    decreases |ss| - n
  {
    if 0 < n {
      assert ss[..n] == ss[..n - 1] + [ss[n - 1]];
      ConcatSnoc(ss[..n - 1], ss[n - 1]);
    }
    if n == |ss| {
      assert ss[..n] == ss;
    } else {
      ConcatUpTo(ss, n + 1);
    }
  }

  lemma OfferedUpTo(encodings: seq<Encoding>, fmt: Format, n: nat)
    requires n <= |encodings|
    ensures n == 0 ==> EncodeList(Offered(encodings[..n], fmt)) == []
    ensures 0 < n ==>
              Offered(encodings[..n], fmt)
              == Offered(encodings[..n - 1], fmt) + if Broken(fmt) && encodings[n - 1] == ZRLE then [] else [encodings[n - 1]]
  {
    if 0 < n {
      assert encodings[..n][..n - 1] == encodings[..n - 1];
    }
  }

  lemma ConcatCons(a: seq<byte>, ss: seq<seq<byte>>)
    ensures Concat([a] + ss) == a + Concat(ss)
  {
    assert ([a] + ss)[1..] == ss;
  }

  lemma Concat3(a: seq<byte>, b: seq<byte>, c: seq<byte>)
    ensures Concat([a, b, c]) == a + (b + c)
  {
    hide Concat;
    ConcatCons(a, [b, c]);
    ConcatCons(b, [c]);
    ConcatCons(c, []);
    assert [a] + [b, c] == [a, b, c] && [b] + [c] == [b, c] && [c] + [] == [c];
    NothingConcat();
    assert c + [] == c;
  }

  lemma NothingConcat()
    ensures Concat([]) == []
  {
  }

  lemma Concat4(a: seq<byte>, b: seq<byte>, c: seq<byte>, d: seq<byte>)
    ensures Concat([a, b, c, d]) == a + (b + (c + d))
  {
    hide Concat;
    ConcatCons(a, [b, c, d]);
    Concat3(b, c, d);
    assert [a] + [b, c, d] == [a, b, c, d];
  }

  lemma Concat5(a: seq<byte>, b: seq<byte>, c: seq<byte>, d: seq<byte>, e: seq<byte>)
    ensures Concat([a, b, c, d, e]) == a + (b + (c + (d + e)))
  {
    hide Concat;
    ConcatCons(a, [b, c, d, e]);
    Concat4(b, c, d, e);
    assert [a] + [b, c, d, e] == [a, b, c, d, e];
  }

  lemma Concat6(a: seq<byte>, b: seq<byte>, c: seq<byte>, d: seq<byte>, e: seq<byte>, f: seq<byte>)
    ensures Concat([a, b, c, d, e, f]) == a + (b + (c + (d + (e + f))))
  {
    hide Concat;
    ConcatCons(a, [b, c, d, e, f]);
    Concat5(b, c, d, e, f);
    assert [a] + [b, c, d, e, f] == [a, b, c, d, e, f];
  }
}
