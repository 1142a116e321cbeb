/** Bytes, big-endian fields, and the view a decoder has of its input. */
module Bytes {

  type byte = n: int | 0 <= n < 256

  function Zeros(n: nat): (r: seq<byte>)
    ensures |r| == n
  {
    seq(n, _ => 0)
  }

  function EncU16(n: int): (r: seq<byte>)
    requires 0 <= n < 0x1_0000
    ensures |r| == 2
  {
    [n / 256, n % 256]
  }

  function EncU32(n: int): (r: seq<byte>)
    requires 0 <= n < 0x1_0000_0000
    ensures |r| == 4
  {
    EncU16(n / 0x1_0000) + EncU16(n % 0x1_0000)
  }

  function U16(b: seq<byte>): (n: int)
    requires |b| == 2
    ensures 0 <= n < 0x1_0000
  {
    var hi: int, lo: int := b[0], b[1];
    hi * 256 + lo
  }

  function U32(b: seq<byte>): (n: int)
    requires |b| == 4
    ensures 0 <= n < 0x1_0000_0000
  {
    U16(b[..2]) * 0x1_0000 + U16(b[2..])
  }

  lemma U16Inverts(n: int)
    requires 0 <= n < 0x1_0000
    ensures U16(EncU16(n)) == n
  {
  }

  lemma U32Inverts(n: int)
    requires 0 <= n < 0x1_0000_0000
    ensures U32(EncU32(n)) == n
  {
    var e := EncU32(n);
    assert e[..2] == EncU16(n / 0x1_0000) && e[2..] == EncU16(n % 0x1_0000);
  }

  lemma Append(a: seq<byte>, b: seq<byte>, c: seq<byte>)
    ensures (a + b) + c == a + (b + c)
  {
  }

  function Concat(ss: seq<seq<byte>>): (r: seq<byte>)
  {
    if ss == [] then [] else ss[0] + Concat(ss[1..])
  }

  lemma ConcatSnoc(ss: seq<seq<byte>>, s: seq<byte>)
    ensures Concat(ss + [s]) == Concat(ss) + s
  {
    if ss == [] {
      assert ss + [s] == [s];
    } else {
      assert (ss + [s])[1..] == ss[1..] + [s];
      ConcatSnoc(ss[1..], s);
    }
  }
}

/**
 * The input of a decoder.  `Live(rest)` are the bytes the server has still to
 * deliver on the current stream; `Dead` is a connection with `coroutine_stop`
 * set.  Reads of a dead connection, or past the end of a live one, leave it
 * dead and yield zeros, as the initialised locals of the source do.
 */
module Feed {
  import opened Bytes

  datatype Feed = Dead | Live(rest: seq<byte>)

  function Take(f: Feed, n: nat): (r: (seq<byte>, Feed))
    ensures |r.0| == n
  {
    if f.Live? && n <= |f.rest| then (f.rest[..n], Live(f.rest[n..])) else (Zeros(n), Dead)
  }

  /** What is there of `n` bytes wanted. */
  function Arrived(f: Feed, n: nat): (r: seq<byte>)
    ensures |r| <= n
  {
    if f.Dead? then [] else if n <= |f.rest| then f.rest[..n] else f.rest
  }

  function TakeU8(f: Feed): (r: (byte, Feed))
  {
    var (b, g) := Take(f, 1);
    (b[0], g)
  }

  function TakeU16(f: Feed): (r: (int, Feed))
    ensures 0 <= r.0 < 0x1_0000
  {
    var (b, g) := Take(f, 2);
    (U16(b), g)
  }

  function TakeU32(f: Feed): (r: (int, Feed))
    ensures 0 <= r.0 < 0x1_0000_0000
  {
    var (b, g) := Take(f, 4);
    (U32(b), g)
  }

  /** `Live(a + b)` yields `a` and leaves `b`. */
  lemma TakePrefix(a: seq<byte>, b: seq<byte>)
    ensures Take(Live(a + b), |a|) == (a, Live(b))
  {
    assert (a + b)[..|a|] == a && (a + b)[|a|..] == b;
  }

  lemma TakeU8Prefix(c: byte, b: seq<byte>)
    ensures TakeU8(Live([c] + b)) == (c, Live(b))
  {
    TakePrefix([c], b);
  }

  lemma TakeU16Prefix(n: int, b: seq<byte>)
    requires 0 <= n < 0x1_0000
    ensures TakeU16(Live(EncU16(n) + b)) == (n, Live(b))
  {
    TakePrefix(EncU16(n), b);
    U16Inverts(n);
  }

  lemma TakeU32Prefix(n: int, b: seq<byte>)
    requires 0 <= n < 0x1_0000_0000
    ensures TakeU32(Live(EncU32(n) + b)) == (n, Live(b))
  {
    TakePrefix(EncU32(n), b);
    U32Inverts(n);
  }
}
