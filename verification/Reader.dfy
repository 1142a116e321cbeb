/** `vnc_connection_read` and what lies under it (src/vncconnection.c). */
module Input {
  import opened Arith
  import opened Bytes
  import opened Feed

  const BUFFER_SIZE: nat := 4096

  /** A fixed buffer with the window of it that is filled and not yet consumed. */
  class Window {
    const data: array<byte>
    var offset: nat
    var size: nat
    ghost var pending: seq<byte>

    ghost predicate Valid()
      reads this, data
    {
      && data.Length == 4096
      && offset <= size <= 4096
      && pending == data[offset..size]
    }

    constructor ()
      ensures Valid() && fresh(data) && pending == []
    {
      data, offset, size := new byte[BUFFER_SIZE], 0, 0;
      pending := [];
    }

    method Clear()
      requires Valid()
      modifies this
      ensures Valid() && pending == []
    {
      offset, size, pending := 0, 0, [];
    }

    method Fill(chunk: seq<byte>)
      requires Valid() && |chunk| <= BUFFER_SIZE
      modifies this, data
      ensures Valid() && pending == chunk
    {
      forall i | 0 <= i < |chunk| { data[i] := chunk[i]; }
      offset, size, pending := 0, |chunk|, chunk;
    }

    /** Copy out as much as is pending, up to `want`. */
    method Drain(want: nat) returns (out: seq<byte>)
      requires Valid()
      modifies this
      ensures Valid() && |out| == Min(|old(pending)|, want)
      ensures out + pending == old(pending)
    {
      var len := Min(size - offset, want);
      out := data[offset..offset + len];
      offset := offset + len;
      pending := pending[len..];
    }
  }

  /**
   * One outcome of asking the socket for data: some bytes (none when the
   * server closed), or nothing yet.  `Block(true)` is a wait that another
   * coroutine cuts short, which only an interruptible wait notices.
   */
  datatype Arrival = Data(bytes: seq<byte>) | Block(woken: bool)

  /** What the socket delivers until the server closes, however it is split. */
  ghost function Wire(arrivals: seq<Arrival>): (r: seq<byte>)
  {
    if arrivals == [] then []
    else match arrivals[0]
      case Block(_) => Wire(arrivals[1..])
      case Data(b) => if b == [] then [] else b + Wire(arrivals[1..])
  }

  datatype Ret = Done(n: nat) | Again | Fail

  class Reader {
    const plain: Window                // read_buffer
    const inflated: Window             // uncompressed_buffer
    var compressed: bool               // compressed_buffer != NULL
    var outputs: seq<seq<byte>>        // what each further inflate() call produces
    var arrivals: seq<Arrival>         // what each further socket receive produces
    var interruptable: bool            // wait_interruptable
    var stop: bool                     // coroutine_stop

    ghost function Repr(): set<object>
    {
      {this, plain, plain.data, inflated, inflated.data}
    }

    ghost predicate Valid()
      reads Repr()
    {
      && plain != inflated && plain.data != inflated.data
      && plain.Valid() && inflated.Valid()
      && (forall i :: 0 <= i < |outputs| ==> |outputs[i]| <= BUFFER_SIZE)
    }

    /** Buffered bytes followed by what the socket still delivers. */
    ghost function Plain(): seq<byte>
      requires Valid()
      reads Repr()
    {
      plain.pending + Wire(arrivals)
    }

    /** Inflated bytes not yet read followed by what zlib still produces. */
    ghost function Unzipped(): seq<byte>
      requires Valid()
      reads Repr()
    {
      inflated.pending + Concat(outputs)
    }

    ghost function Rest(): seq<byte>
      requires Valid()
      reads Repr()
    {
      if compressed then Unzipped() else Plain()
    }

    /** The stream as the decoders see it. */
    ghost function In(): Feed
      requires Valid()
      reads Repr()
    {
      if stop then Dead else Live(Rest())
    }

    /** Fit for a decoder's reads, which are never interruptible. */
    ghost predicate Usable()
      reads Repr()
    {
      Valid() && !interruptable
    }

    /** What a read leaves alone: the mode, and the stream it does not draw on. */
    ghost function Aside(): (bool, bool, seq<byte>)
      requires Valid()
      reads Repr()
    {
      (compressed, interruptable, if compressed then Plain() else Unzipped())
    }

    constructor (arrivals: seq<Arrival>)
      ensures Valid() && fresh(Repr())
      ensures Aside() == (false, false, []) && In() == Live(Wire(arrivals))
    {
      this.arrivals := arrivals;
      plain := new Window();
      inflated := new Window();
      compressed, interruptable, stop, outputs := false, false, false, [];
      new;
      assert Plain() == Wire(arrivals);
      assert Unzipped() == [];
    }

    /** `vnc_connection_zread`: exactly `size` inflated bytes, or failure. */
    method ZRead(size: nat) returns (ok: bool, data: seq<byte>)
      requires Valid()
      modifies this`outputs, inflated, inflated.data
      ensures Valid()
      ensures ok <==> size <= |old(Unzipped())|
      ensures ok ==> |data| == size && data + Unzipped() == old(Unzipped())
      ensures !ok ==> data == old(Unzipped())
    {
      data := [];
      ghost var all := Unzipped();
      while |data| < size
        invariant Valid() && |data| <= size
        invariant data + Unzipped() == all
        decreases size - |data|, |outputs|
      {
        if inflated.size - inflated.offset != 0 {
          var out := DrainInflated(size - |data|);
          Append(data, out, Unzipped());
          data := data + out;
        } else {
          if outputs == [] {
            assert Unzipped() == [];
            return false, data;     // inflate() reports no progress
          }
          Inflate();
        }
      }
      ok := true;
    }

    method DrainInflated(want: nat) returns (out: seq<byte>)
      requires Valid()
      modifies inflated
      ensures Valid() && |out| == Min(|old(inflated.pending)|, want)
      ensures out + Unzipped() == old(Unzipped())
    {
      out := inflated.Drain(want);
      Append(out, inflated.pending, Concat(outputs));
    }

    /** One call of inflate() that makes progress. */
    method Inflate()
      requires Valid() && inflated.pending == [] && outputs != []
      modifies this`outputs, inflated, inflated.data
      ensures Valid() && Unzipped() == old(Unzipped()) && |outputs| < |old(outputs)|
    {
      inflated.Fill(outputs[0]);
      outputs := outputs[1..];
    }

    /** `vnc_connection_read_wire`: at least one byte straight off the socket. */
    method ReadWire(len: nat) returns (ret: Ret, data: seq<byte>)
      requires Valid() && 0 < len
      modifies this`arrivals, this`stop
      ensures ret.Done? ==> ret.n == |data| && 0 < |data| <= len && Wire(old(arrivals)) == data + Wire(arrivals)
      ensures ret.Again? ==> interruptable && Wire(old(arrivals)) == Wire(arrivals)
      ensures |arrivals| <= |old(arrivals)| - (if ret.Again? then 1 else 0)
      ensures ret.Fail? <==> stop
      ensures stop ==> old(stop) || Wire(old(arrivals)) == []
    {
      hide Wire;
      data := [];
      while true
        invariant stop == old(stop) && |arrivals| <= |old(arrivals)|
        invariant Wire(arrivals) == Wire(old(arrivals))
        decreases |arrivals|
      {
        if stop {
          return Fail, data;
        }
        WireFirst(arrivals, len);
        if arrivals == [] || arrivals[0] == Data([]) {
          stop := true;             // closed by the server
          return Fail, data;
        }
        match arrivals[0] {
          case Block(woken) =>
            arrivals := arrivals[1..];
            if interruptable && woken {
              return Again, data;
            }
          case Data(b) =>
            data := if |b| <= len then b else b[..len];
            arrivals := if |b| <= len then arrivals[1..] else [Data(b[len..])] + arrivals[1..];
            return Done(|data|), data;
        }
      }
    }

    /** `vnc_connection_read_buf`: refill the empty read buffer off the socket. */
    method ReadBuf() returns (ret: Ret)
      requires Valid() && plain.pending == []
      modifies this`arrivals, this`stop, plain, plain.data
      ensures Valid()
      ensures ret.Done? ==> plain.pending != [] && !stop
      ensures !ret.Done? ==> plain.pending == []
      ensures Plain() == old(Plain()) || ret.Fail?
      ensures |arrivals| <= |old(arrivals)| - (if ret.Again? then 1 else 0)
      ensures ret.Again? ==> interruptable && !stop
      ensures ret.Fail? <==> stop
      ensures stop ==> old(stop) || old(Plain()) == []
    {
      var chunk;
      ret, chunk := ReadWire(BUFFER_SIZE);
      if ret.Done? {
        plain.Fill(chunk);
      }
    }

    /**
     * `vnc_connection_read`: fill a buffer with exactly `len` bytes.  Only an
     * interruptible read can come back short, and then it has lost nothing.
     */
    method Read(len: nat) returns (ret: Ret, data: seq<byte>)
      requires Valid()
      modifies Repr()
      ensures Valid() && Aside() == old(Aside())
      ensures ret.Done? ==> !stop && ret.n == |data| <= len && data + Rest() == old(Rest())
      ensures ret.Done? && !interruptable ==> ret.n == len
      ensures ret.Done? && 0 < len ==> data != []
      ensures ret.Again? ==> interruptable && !stop && data == [] && Rest() == old(Rest())
      ensures |arrivals| <= |old(arrivals)| - (if ret.Again? || (ret.Done? && ret.n < len) then 1 else 0)
      ensures ret.Fail? <==> stop
      ensures old(stop) ==> stop
      ensures stop ==> old(stop) || (|old(Rest())| < len && data == old(Rest()))
    {
      hide Rest, Aside;
      data := [];
      if stop {
        return Fail, data;
      }
      ghost var all := Rest();
      while |data| < len
        invariant Valid() && !stop && |data| <= len
        invariant Aside() == old(Aside()) && |arrivals| <= |old(arrivals)|
        invariant compressed ==> data == [] || |data| == len
        invariant data + Rest() == all
        decreases len - |data|
      {
        var r, tmp := ReadRound(len - |data|);
        if !r.Done? {
          data := data + if r.Fail? then tmp else [];
          return (if r.Again? && data != [] then Done(|data|) else r), data;
        }
        Append(data, tmp, Rest());
        data := data + tmp;
      }
      ret := Done(len);
    }

    /** A round of its loop: all that is wanted from zlib, or what the read buffer has. */
    method ReadRound(want: nat) returns (ret: Ret, tmp: seq<byte>)
      requires Valid() && !stop && 0 < want
      modifies Repr()
      ensures Valid() && Aside() == old(Aside()) && |arrivals| <= |old(arrivals)| - (if ret.Again? then 1 else 0)
      ensures ret.Done? ==> !stop && 0 < |tmp| <= want && tmp + Rest() == old(Rest()) && (compressed ==> |tmp| == want)
      ensures ret.Again? ==> interruptable && !compressed && !stop && Rest() == old(Rest())
      ensures ret.Fail? <==> stop
      ensures stop ==> |old(Rest())| < want && tmp == old(Rest())
    {
      if compressed {
        var ok;
        ok, tmp := ZRead(want);
        if ok {
          ret := Done(want);
        } else {
          stop, ret := true, Fail;
        }
      } else {
        ret, tmp := ReadNext(want);
      }
    }

    /** The next bytes of the read buffer, which is refilled first if it is empty. */
    method ReadNext(want: nat) returns (ret: Ret, tmp: seq<byte>)
      requires Valid() && !stop && 0 < want
      modifies this`arrivals, this`stop, plain, plain.data
      ensures Valid() && |arrivals| <= |old(arrivals)| - (if ret.Again? then 1 else 0)
      ensures ret.Done? ==> !stop && 0 < |tmp| <= want && tmp + Plain() == old(Plain())
      ensures ret.Again? ==> interruptable && !stop && Plain() == old(Plain())
      ensures ret.Fail? <==> stop
      ensures stop ==> old(Plain()) == [] && tmp == []
    {
      tmp := [];
      if plain.offset == plain.size {
        ret := ReadBuf();
        if !ret.Done? {
          return;
        }
      }
      tmp := DrainPlain(want);
      ret := Done(|tmp|);
    }

    method DrainPlain(want: nat) returns (out: seq<byte>)
      requires Valid()
      modifies plain
      ensures Valid() && |out| == Min(|old(plain.pending)|, want)
      ensures out + Plain() == old(Plain())
    {
      out := plain.Drain(want);
      Append(out, plain.pending, Wire(arrivals));
    }

    /** A read by a decoder: never interruptible, the result ignored. */
    method ReadBytes(n: nat) returns (data: seq<byte>)
      requires Usable()
      modifies Repr()
      ensures Usable() && Aside() == old(Aside())
      ensures (data, In()) == Take(old(In()), n)
      ensures stop <==> In().Dead?
    {
      ghost var all := Rest();
      var ret;
      ret, data := Read(n);
      if stop {
        data := Zeros(n);
      } else {
        TakePrefix(data, Rest());
      }
    }

    /** A read whose bytes go straight to where they belong, as far as they arrive. */
    method ReadArrived(n: nat) returns (data: seq<byte>)
      requires Usable()
      modifies Repr()
      ensures Usable() && Aside() == old(Aside())
      ensures data == Arrived(old(In()), n) && In() == Take(old(In()), n).1
      ensures stop <==> In().Dead?
    {
      if stop {
        return [];
      }
      var ret;
      ret, data := Read(n);
      if !stop {
        TakePrefix(data, Rest());
      }
    }

    /** A read with `wait_interruptable` set around it. */
    method ReadInterruptable(len: nat) returns (ret: Ret, data: seq<byte>)
      requires Valid() && !interruptable && 0 < len
      modifies Repr()
      ensures Valid() && !interruptable && Aside() == old(Aside())
      ensures !stop ==> |data| <= len && data + Rest() == old(Rest())
      ensures !stop ==> ret == if data == [] then Again else Done(|data|)
      ensures |data| < len ==> |arrivals| < |old(arrivals)| || stop
      ensures |arrivals| <= |old(arrivals)|
      ensures ret.Fail? <==> stop
      ensures old(stop) ==> stop
      ensures stop ==> old(stop) || |old(Rest())| < len
    {
      interruptable := true;
      ret, data := Read(len);
      interruptable := false;
    }

    /**
     * The greeting loop of `vnc_connection_initialize`: interruptible reads of
     * the bytes still wanted, until the timeout and the socket between them
     * have produced the 12-byte version.  Each time a wait is cut short with
     * nothing read, the start of the client's greeting is sent; `flushes` says
     * which of those sends succeed, and `sent` counts them.
     */
    method ReadGreeting(flushes: seq<bool>) returns (version: seq<byte>, sent: nat)
      requires Usable()
      modifies Repr()
      ensures Usable() && Aside() == old(Aside())
      ensures !stop ==> |version| == 12 && version + Rest() == old(Rest())
      ensures stop <==> old(stop) || |old(Rest())| < 12 || !Flushes(flushes, sent)
    {
      hide Rest, Aside, Flushes;
      version, sent := [], 0;
      ghost var all := Rest();
      FlushesMore(flushes, 0);
      while |version| < 12
        invariant Valid() && !interruptable && Aside() == old(Aside()) && |version| <= 12
        invariant version + Rest() == all && Flushes(flushes, sent)
        invariant version == [] && sent == 0 ==> stop == old(stop)
        invariant version != [] || sent != 0 ==> !stop && !old(stop)
        decreases |arrivals|, 12 - |version|
      {
        var ret, data := ReadInterruptable(12 - |version|);
        if stop {
          return;
        }
        Append(version, data, Rest());
        version := version + data;
        if ret.Again? {
          FlushesMore(flushes, sent);
          SendStart(sent < |flushes| && flushes[sent]);
          sent := sent + 1;
          if stop {
            return;
          }
        }
      }
    }

    /** Write and flush the start of the greeting. */
    method SendStart(sent: bool)
      requires Usable()
      modifies this`stop
      ensures Usable() && Aside() == old(Aside()) && Rest() == old(Rest()) && stop == (old(stop) || !sent)
    {
      if !sent {
        stop := true;
      }
    }

    /** Direct reads at `outputs`, the bytes zlib makes of a compressed buffer. */
    method StartInflating(outputs: seq<seq<byte>>)
      requires Valid() && !compressed && !interruptable
      requires forall i :: 0 <= i < |outputs| ==> |outputs[i]| <= BUFFER_SIZE
      modifies Repr()
      ensures Valid() && compressed && !interruptable && stop == old(stop)
      ensures Rest() == Concat(outputs) && Plain() == old(Plain())
    {
      inflated.Clear();
      this.outputs, compressed := outputs, true;
    }

    method StopInflating()
      requires Valid() && compressed && !interruptable
      modifies Repr()
      ensures Valid() && !compressed && !interruptable && stop == old(stop)
      ensures Rest() == old(Plain()) && Unzipped() == []
    {
      inflated.Clear();
      outputs, compressed := [], false;
    }

    method ReadU8() returns (b: byte)
      requires Usable()
      modifies Repr()
      ensures Usable() && Aside() == old(Aside())
      ensures (b, In()) == TakeU8(old(In()))
      ensures stop <==> In().Dead?
    {
      var d := ReadBytes(1);
      b := d[0];
    }

    method ReadU16() returns (n: int)
      requires Usable()
      modifies Repr()
      ensures Usable() && Aside() == old(Aside())
      ensures (n, In()) == TakeU16(old(In()))
      ensures stop <==> In().Dead?
    {
      var d := ReadBytes(2);
      n := U16(d);
    }

    method ReadU32() returns (n: int)
      requires Usable()
      modifies Repr()
      ensures Usable() && Aside() == old(Aside())
      ensures (n, In()) == TakeU32(old(In()))
      ensures stop <==> In().Dead?
    {
      var d := ReadBytes(4);
      n := U32(d);
    }
  }

  /** What taking up to `len` bytes of the first arrival leaves. */
  lemma WireFirst(arrivals: seq<Arrival>, len: nat)
    ensures arrivals == [] || arrivals[0] == Data([]) ==> Wire(arrivals) == []
    ensures arrivals != [] && arrivals[0].Block? ==> Wire(arrivals) == Wire(arrivals[1..])
    ensures arrivals != [] && arrivals[0].Data? && arrivals[0].bytes != [] ==>
              var b := arrivals[0].bytes;
              && (|b| <= len ==> Wire(arrivals) == b + Wire(arrivals[1..]))
              && (len < |b| ==> Wire(arrivals) == b[..len] + Wire([Data(b[len..])] + arrivals[1..]))
  {
    if arrivals != [] && arrivals[0].Data? && len < |arrivals[0].bytes| {
      var b, later := arrivals[0].bytes, arrivals[1..];
      WireOfData(b[len..], later);
      Append(b[..len], b[len..], Wire(later));
      assert b == b[..len] + b[len..];
    }
  }

  /** Data and waits in any order: what is delivered does not depend on the split. */
  lemma WireOfSplit(chunks: seq<seq<byte>>, waits: seq<seq<bool>>, tail: seq<Arrival>)
    requires |waits| == |chunks| && forall i :: 0 <= i < |chunks| ==> chunks[i] != []
    ensures Wire(Interleave(chunks, waits) + tail) == Concat(chunks) + Wire(tail)
  {
    if chunks == [] {
      assert Interleave(chunks, waits) + tail == tail;
    } else {
      var later := Interleave(chunks[1..], waits[1..]) + tail;
      var more := [Data(chunks[0])] + later;
      assert Interleave(chunks, waits) + tail == Blocks(waits[0]) + more;
      assert Concat(chunks) == chunks[0] + Concat(chunks[1..]);
      hide Wire, Concat, Interleave, Blocks;
      WireOfSplit(chunks[1..], waits[1..], tail);
      WireSkipsBlocks(waits[0], more);
      WireOfData(chunks[0], later);
      Append(chunks[0], Concat(chunks[1..]), Wire(tail));
    }
  }

  lemma WireOfData(b: seq<byte>, later: seq<Arrival>)
    requires b != []
    ensures Wire([Data(b)] + later) == b + Wire(later)
  {
    assert ([Data(b)] + later)[1..] == later;
  }

  ghost function Blocks(woken: seq<bool>): seq<Arrival>
  {
    if woken == [] then [] else [Block(woken[0])] + Blocks(woken[1..])
  }

  ghost function Interleave(chunks: seq<seq<byte>>, waits: seq<seq<bool>>): seq<Arrival>
    requires |waits| == |chunks|
  {
    if chunks == [] then [] else Blocks(waits[0]) + ([Data(chunks[0])] + Interleave(chunks[1..], waits[1..]))
  }

  lemma WireSkipsBlocks(woken: seq<bool>, tail: seq<Arrival>)
    ensures Wire(Blocks(woken) + tail) == Wire(tail)
  {
    if woken == [] {
      assert Blocks(woken) + tail == tail;
    } else {
      WireSkipsBlocks(woken[1..], tail);
      assert (Blocks(woken) + tail)[1..] == Blocks(woken[1..]) + tail;
    }
  }

  /** The data of reads of the given lengths, one after the other. */
  ghost function Reads(f: Feed, lens: seq<nat>): (r: (seq<seq<byte>>, Feed))
    ensures |r.0| == |lens|
    decreases lens
  {
    if lens == [] then ([], f)
    else
      var (d, g) := Take(f, lens[0]);
      var (ds, h) := Reads(g, lens[1..]);
      ([d] + ds, h)
  }

  ghost function Sum(lens: seq<nat>): nat
  {
    if lens == [] then 0 else lens[0] + Sum(lens[1..])
  }

  /** Successive reads return consecutive slices of the stream, whatever their lengths. */
  lemma ReadsAreSlices(s: seq<byte>, lens: seq<nat>)
    ensures |s| < Sum(lens) ==> Reads(Live(s), lens).1 == Dead
    ensures Sum(lens) <= |s| ==>
              Concat(Reads(Live(s), lens).0) == s[..Sum(lens)] && Reads(Live(s), lens).1 == Live(s[Sum(lens)..])
  {
    if lens == [] {
    } else if lens[0] <= |s| {
      ReadsAreSlices(s[lens[0]..], lens[1..]);
      if Sum(lens) <= |s| {
        assert s[..Sum(lens)] == s[..lens[0]] + s[lens[0]..][..Sum(lens[1..])];
        assert s[lens[0]..][Sum(lens[1..])..] == s[Sum(lens)..];
      }
    } else {
      DeadStaysDead(lens[1..]);
    }
  }

  lemma DeadStaysDead(lens: seq<nat>)
    ensures Reads(Dead, lens).1 == Dead
  {
  }

  /** The first `n` flushes succeed. */
  predicate Flushes(flushes: seq<bool>, n: nat)
  {
    n <= |flushes| && forall k :: 0 <= k < n ==> flushes[k]
  }

  lemma FlushesMore(flushes: seq<bool>, n: nat)
    ensures Flushes(flushes, 0)
    ensures Flushes(flushes, n + 1) <==> Flushes(flushes, n) && n < |flushes| && flushes[n]
  {
  }
}
