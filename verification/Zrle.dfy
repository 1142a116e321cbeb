/** The ZRLE encoding (section 7.7.6 of RFC 6143) and how the client reads it. */
module ZrleCodec {
  import opened Arith
  import opened Bytes
  import opened Feed
  import opened Image
  import Words

  /** A compressed pixel: `size` bytes that stand at offset `at` of a pixel of `bpp`. */
  datatype CPixel = CPixel(bpp: nat, size: nat, at: nat) {

    predicate Fits()
    {
      0 < size && at + size <= bpp
    }

    /** The bytes of `p` that are not sent are zero. */
    predicate Compact(p: Pixel)
      requires Fits()
    {
      |p| == bpp && p == Zeros(at) + p[at..at + size] + Zeros(bpp - at - size)
    }

    function Encode(p: Pixel): (r: seq<byte>)
      requires Fits() && Compact(p)
      ensures |r| == size
    {
      p[at..at + size]
    }

    /** `vnc_connection_read_cpixel` */
    function Read(f: Feed): (r: (Pixel, Feed))
      requires Fits()
      ensures |r.0| == bpp
    {
      var (d, g) := Take(f, size);
      (Zeros(at) + d + Zeros(bpp - at - size), g)
    }

    lemma ReadInverts(p: Pixel, rest: seq<byte>)
      requires Fits() && Compact(p)
      ensures Read(Live(Encode(p) + rest)) == (p, Live(rest))
    {
      TakePrefix(Encode(p), rest);
    }

    /** `n` pixels in a row: a palette, or the pixels of a raw tile. */
    function ReadMany(f: Feed, n: nat): (r: (seq<Pixel>, Feed))
      requires Fits()
      ensures |r.0| == n && forall i :: 0 <= i < n ==> |r.0[i]| == bpp
      decreases n
    {
      if n == 0 then ([], f)
      else
        var (p, g) := Read(f);
        var (ps, h) := ReadMany(g, n - 1);
        ([p] + ps, h)
    }

    predicate AllCompact(ps: seq<Pixel>)
      requires Fits()
    {
      forall i :: 0 <= i < |ps| ==> Compact(ps[i])
    }

    function EncodeMany(ps: seq<Pixel>): seq<byte>
      requires Fits() && AllCompact(ps)
    {
      if ps == [] then [] else Encode(ps[0]) + EncodeMany(ps[1..])
    }

    lemma {:induction false} ReadManyInverts(ps: seq<Pixel>, rest: seq<byte>)
      requires Fits() && AllCompact(ps)
      ensures ReadMany(Live(EncodeMany(ps) + rest), |ps|) == (ps, Live(rest))
    {
      if ps == [] {
        assert EncodeMany(ps) + rest == rest;
      } else {
        Append(Encode(ps[0]), EncodeMany(ps[1..]), rest);
        ReadInverts(ps[0], EncodeMany(ps[1..]) + rest);
        ReadManyInverts(ps[1..], rest);
        assert ps == [ps[0]] + ps[1..];
      }
    }
  }

  /* Packed palette indices: `bits` at a time from the top of each byte, rows
     padded to whole bytes. */

  /** The weight of bit `n` of a byte, and 256. */
  function Weight(n: nat): (r: nat)
    requires n <= 8
    ensures 1 <= r <= 256
  {
    if n == 0 then 1 else if n == 1 then 2 else if n == 2 then 4 else if n == 3 then 8 else if n == 4 then 16
    else if n == 5 then 32 else if n == 6 then 64 else if n == 7 then 128 else 256
  }

  predicate IsWidth(bits: nat)
  {
    bits == 1 || bits == 2 || bits == 4
  }

  /** The width of an index as section 7.7.6 of RFC 6143 defines it: the least that tells the colours of the palette apart. */
  ghost predicate IsLeastWidth(bits: nat, colours: nat)
  {
    IsWidth(bits) && colours <= Words.Pow2(bits) && forall fewer :: 0 <= fewer < bits && IsWidth(fewer) ==> Words.Pow2(fewer) < colours
  }

  function LeastWidth(colours: nat): (bits: nat)
    requires 2 <= colours <= 16
    ensures IsLeastWidth(bits, colours)
  {
    assert Words.Pow2(1) == 2 && Words.Pow2(2) == 4 && Words.Pow2(4) == 16;
    if 4 < colours then 4 else if 2 < colours then 2 else 1
  }

  /** The client reads indices of that width, and of no other. */
  lemma IndexBitsLeast(colours: nat, bits: nat)
    requires 2 <= colours <= 16
    ensures IsLeastWidth(bits, colours) <==> bits == IndexBits(colours)
  {
    assert Words.Pow2(1) == 2 && Words.Pow2(2) == 4 && Words.Pow2(4) == 16;
  }

  /** Bits of an index into a palette of 2 to 16 colours. */
  function IndexBits(paletteSize: nat): (bits: nat)
    ensures IsWidth(bits)
  {
    if paletteSize == 2 then 1 else if paletteSize <= 4 then 2 else 4
  }

  /**
   * `left` low bits of the current byte are still free: what indices `ix` put
   * there, and the bytes that follow.  `pad` fills the bits no index uses.
   */
  function Pack(ix: seq<int>, bits: nat, left: nat, pad: nat): (r: (nat, seq<byte>))
    requires IsWidth(bits) && left <= 8 && left % bits == 0
    requires forall i :: 0 <= i < |ix| ==> 0 <= ix[i] < Weight(bits)
    ensures r.0 < Weight(left)
    decreases |ix|, left == 0
  {
    if ix == [] then (pad % Weight(left), [])
    else if left == 0 then
      var (v, bytes) := Pack(ix, bits, 8, pad);
      (0, [v] + bytes)
    else
      var (v, bytes) := Pack(ix[1..], bits, left - bits, pad);
      FieldFits(ix[0], v, bits, left);
      (ix[0] * Weight(left - bits) + v, bytes)
  }

  /** The `bits` bits of a byte that stand above its lowest `at`. */
  function Field(b: nat, at: nat, bits: nat): (r: nat)
    requires at <= 8 && IsWidth(bits)
    ensures r < 16
  {
    b / Weight(at) % Weight(bits)
  }

  function LowBits(b: nat, n: nat): nat
    requires n <= 8
  {
    b % Weight(n)
  }

  lemma FieldFits(i: int, v: nat, bits: nat, left: nat)
    requires IsWidth(bits) && 0 < left <= 8 && left % bits == 0
    requires 0 <= i < Weight(bits) && v < Weight(left - bits)
    ensures 0 <= i * Weight(left - bits) + v < Weight(left)
  {
    if bits == 1 {
      assert i == 0 || i == 1;
    } else if bits == 2 {
      assert i == 0 || i == 1 || i == 2 || i == 3;
    } else {
      assert left == 4 || left == 8;
    }
  }

  /** `vnc_connection_read_zrle_pi` on a row of `n` indices, `pi` the byte with `left` bits unread. */
  function ReadPacked(f: Feed, bits: nat, n: nat, pi: byte, left: nat): (r: (seq<int>, Feed))
    requires IsWidth(bits) && left <= 8 && left % bits == 0
    ensures |r.0| == n && forall i :: 0 <= i < n ==> 0 <= r.0[i] < 16
    decreases n
  {
    if n == 0 then ([], f)
    else
      var (b, g) := if left == 0 then TakeU8(f) else (pi, f);
      var have := if left == 0 then 8 else left;
      var (more, h) := ReadPacked(g, bits, n - 1, b, have - bits);
      ([Field(b, have - bits, bits)] + more, h)
  }

  /** The next field of a byte whose low bits are `i` then `v`. */
  lemma FieldReads(b: byte, i: int, v: nat, bits: nat, left: nat)
    requires IsWidth(bits) && 0 < left <= 8 && left % bits == 0
    requires 0 <= i < Weight(bits) && v < Weight(left - bits)
    requires LowBits(b, left) == i * Weight(left - bits) + v
    ensures Field(b, left - bits, bits) == i && LowBits(b, left - bits) == v
  {
    hide Weight;
    WeightSplits(bits, left);
    var q, unit, base := b / Weight(left), Weight(left - bits), Weight(bits);
    Division(b, Weight(left));
    Regroup(q, i, v, unit, base);
    MiddleDigit(b, q, i, v, unit, base);
  }

  lemma Regroup(q: int, i: int, v: int, unit: int, base: int)
    ensures q * (base * unit) + (i * unit + v) == (q * base + i) * unit + v
  {
    ProductsAssociate(q, base, unit);
    Distribute(q * base, i, unit);
  }

  lemma WholeByte(v: nat)
    requires v < Weight(8)
    ensures LowBits(v, 8) == v < 256
  {
  }

  lemma WeightSplits(bits: nat, left: nat)
    requires IsWidth(bits) && bits <= left <= 8
    ensures Weight(left) == Weight(bits) * Weight(left - bits)
  {
  }

  lemma {:induction false} ReadPackedInverts(ix: seq<int>, bits: nat, left: nat, pad: nat, pi: byte, rest: seq<byte>)
    requires IsWidth(bits) && left <= 8 && left % bits == 0
    requires forall i :: 0 <= i < |ix| ==> 0 <= ix[i] < Weight(bits)
    requires LowBits(pi, left) == Pack(ix, bits, left, pad).0
    ensures ReadPacked(Live(Pack(ix, bits, left, pad).1 + rest), bits, |ix|, pi, left) == (ix, Live(rest))
    decreases |ix|, left == 0
  {
    hide Weight, Field, LowBits, IsWidth, Pack, ReadPacked;
    if ix == [] {
      PackNothing(bits, left, pad);
      ReadPackedNothing(Live([] + rest), bits, pi, left);
      assert [] + rest == rest;
    } else if left == 0 {
      PackNewByte(ix, bits, pad);
      var (v, bytes) := Pack(ix, bits, 8, pad);
      Append([v], bytes, rest);
      WholeByte(v);
      TakeU8Prefix(v, bytes + rest);
      ReadPackedInverts(ix, bits, 8, pad, v, rest);
      ReadPackedNewByte(Live([v] + (bytes + rest)), bits, |ix|, pi);
    } else {
      PackStep(ix, bits, left, pad);
      FieldReads(pi, ix[0], Pack(ix[1..], bits, left - bits, pad).0, bits, left);
      ReadPackedInverts(ix[1..], bits, left - bits, pad, pi, rest);
      ReadPackedStep(Live(Pack(ix, bits, left, pad).1 + rest), bits, |ix|, pi, left);
      assert ix == [ix[0]] + ix[1..];
    }
  }

  lemma PackNothing(bits: nat, left: nat, pad: nat)
    requires IsWidth(bits) && left <= 8 && left % bits == 0
    ensures Pack([], bits, left, pad).1 == []
  {
  }

  lemma PackNewByte(ix: seq<int>, bits: nat, pad: nat)
    requires IsWidth(bits) && ix != [] && forall i :: 0 <= i < |ix| ==> 0 <= ix[i] < Weight(bits)
    ensures 8 % bits == 0
    ensures var (v, bytes) := Pack(ix, bits, 8, pad); v < Weight(8) == 256 && Pack(ix, bits, 0, pad) == (0, [v] + bytes)
  {
  }

  lemma PackStep(ix: seq<int>, bits: nat, left: nat, pad: nat)
    requires IsWidth(bits) && 0 < left <= 8 && left % bits == 0
    requires ix != [] && forall i :: 0 <= i < |ix| ==> 0 <= ix[i] < Weight(bits)
    ensures bits <= left && (left - bits) % bits == 0
    ensures var (v, bytes) := Pack(ix[1..], bits, left - bits, pad);
            v < Weight(left - bits) && Pack(ix, bits, left, pad) == (ix[0] * Weight(left - bits) + v, bytes)
  {
    hide Weight;
    WidthLeft(bits, left);
  }

  lemma WidthLeft(bits: nat, left: nat)
    requires IsWidth(bits) && 0 < left <= 8 && left % bits == 0
    ensures bits <= left && (left - bits) % bits == 0
  {
    if bits == 1 {
    } else if bits == 2 {
      assert left == 2 || left == 4 || left == 6 || left == 8;
    } else {
      assert left == 4 || left == 8;
    }
  }

  lemma ReadPackedNothing(f: Feed, bits: nat, pi: byte, left: nat)
    requires IsWidth(bits) && left <= 8 && left % bits == 0
    ensures ReadPacked(f, bits, 0, pi, left) == ([], f)
  {
  }

  lemma ReadPackedNewByte(f: Feed, bits: nat, n: nat, pi: byte)
    requires IsWidth(bits) && 0 < n
    ensures var (b, g) := TakeU8(f); ReadPacked(f, bits, n, pi, 0) == ReadPacked(g, bits, n, b, 8)
  {
  }

  lemma ReadPackedStep(f: Feed, bits: nat, n: nat, pi: byte, left: nat)
    requires IsWidth(bits) && bits <= left <= 8 && left % bits == 0 && (left - bits) % bits == 0 && 0 < n
    ensures var (more, h) := ReadPacked(f, bits, n - 1, pi, left - bits);
            ReadPacked(f, bits, n, pi, left) == ([Field(pi, left - bits, bits)] + more, h)
  {
    assert 0 < left;
    hide Field, IsWidth;
  }

  /** A row of indices takes whole bytes, as few as hold it. */
  lemma {:induction false} PackLength(ix: seq<int>, bits: nat, left: nat, pad: nat)
    requires IsWidth(bits) && left <= 8 && left % bits == 0
    requires forall i :: 0 <= i < |ix| ==> 0 <= ix[i] < Weight(bits)
    ensures |Pack(ix, bits, left, pad).1| == if |ix| * bits <= left then 0 else (|ix| * bits - left + 7) / 8
    decreases |ix|, left == 0
  {
    hide Weight;
    if ix == [] {
    } else if left == 0 {
      PackLength(ix, bits, 8, pad);
    } else {
      PackLength(ix[1..], bits, left - bits, pad);
      assert |ix| * bits == |ix[1..]| * bits + bits;
    }
  }

  /** Packed rows: eight, four or two indices to a byte, for palettes of 2, of up to 4 and of up to 16 colours. */
  lemma PackedRowLength(row: seq<int>, colours: nat, pad: nat)
    requires 2 <= colours <= 16 && forall i :: 0 <= i < |row| ==> 0 <= row[i] < colours
    requires forall i :: 0 <= i < |row| ==> 0 <= row[i] < Weight(LeastWidth(colours))
    ensures |Pack(row, LeastWidth(colours), 0, pad).1|
         == if colours == 2 then (|row| + 7) / 8 else if colours <= 4 then (|row| + 3) / 4 else (|row| + 1) / 2
  {
    PackLength(row, LeastWidth(colours), 0, pad);
  }

  /* Run lengths: one more than the sum of the bytes, 255 meaning another follows. */

  function EncodeRun(n: nat): seq<byte>
    requires 1 <= n
  {
    if 256 <= n then [255] + EncodeRun(n - 255) else [n - 1]
  }

  /** `vnc_connection_read_zrle_rl` */
  function ReadRun(f: Feed): (r: (nat, Feed))
    ensures 1 <= r.0
    decreases if f.Live? then |f.rest| else 0
  {
    var (b, g) := TakeU8(f);
    if g.Live? && b == 255 then
      var (n, h) := ReadRun(g);
      (n + 255, h)
    else (b + 1, g)
  }

  lemma {:induction false} ReadRunInverts(n: nat, rest: seq<byte>)
    requires 1 <= n
    ensures ReadRun(Live(EncodeRun(n) + rest)) == (n, Live(rest))
  {
    if 256 <= n {
      Append([255], EncodeRun(n - 255), rest);
      TakeU8Prefix(255, EncodeRun(n - 255) + rest);
      ReadRunInverts(n - 255, rest);
    } else {
      TakeU8Prefix(n - 1, rest);
    }
  }

  /* Plain runs of a pixel. */

  datatype Run = Run(pixel: Pixel, n: nat)

  function Repeat<T>(x: T, n: nat): (r: seq<T>)
    ensures |r| == n
  {
    seq(n, _ => x)
  }

  lemma RepeatNone<T>(x: T, more: seq<T>)
    ensures Repeat(x, 0) + more == more
  {
  }

  lemma RepeatStep<T>(x: T, n: nat, more: seq<T>)
    requires 0 < n
    ensures Repeat(x, n) + more == [x] + (Repeat(x, n - 1) + more)
  {
  }

  function Expand(runs: seq<Run>): seq<Pixel>
  {
    if runs == [] then [] else Repeat(runs[0].pixel, runs[0].n) + Expand(runs[1..])
  }

  predicate LegalRuns(c: CPixel, runs: seq<Run>)
    requires c.Fits()
  {
    forall i :: 0 <= i < |runs| ==> 1 <= runs[i].n && c.Compact(runs[i].pixel)
  }

  function EncodeRuns(c: CPixel, runs: seq<Run>): seq<byte>
    requires c.Fits() && LegalRuns(c, runs)
  {
    if runs == [] then [] else c.Encode(runs[0].pixel) + (EncodeRun(runs[0].n) + EncodeRuns(c, runs[1..]))
  }

  /** `n` pixels of the plain RLE loops, `rl` of them still due from the current run of `p`. */
  function ReadRuns(f: Feed, c: CPixel, n: nat, p: Pixel, rl: nat): (r: (seq<Pixel>, Feed))
    requires c.Fits()
    ensures |r.0| == n
    decreases n
  {
    if n == 0 then ([], f)
    else
      var (q, g) := if rl == 0 then c.Read(f) else (p, f);
      var (k, h) := if rl == 0 then ReadRun(g) else (rl, g);
      var (ps, e) := ReadRuns(h, c, n - 1, q, k - 1);
      ([q] + ps, e)
  }

  lemma {:induction false} ReadRunsInverts(c: CPixel, p: Pixel, rl: nat, runs: seq<Run>, rest: seq<byte>)
    requires c.Fits() && LegalRuns(c, runs)
    ensures ReadRuns(Live(EncodeRuns(c, runs) + rest), c, rl + |Expand(runs)|, p, rl)
         == (Repeat(p, rl) + Expand(runs), Live(rest))
    decreases |runs|, rl
  {
    hide Repeat, ReadRun, EncodeRun, CPixel.Read, CPixel.Encode;
    if rl > 0 {
      ReadRunsInverts(c, p, rl - 1, runs, rest);
      RepeatStep(p, rl, Expand(runs));
    } else if runs == [] {
      assert EncodeRuns(c, runs) + rest == rest;
      RepeatNone(p, Expand(runs));
    } else {
      var r, more := runs[0], EncodeRuns(c, runs[1..]);
      Append(c.Encode(r.pixel), EncodeRun(r.n) + more, rest);
      Append(EncodeRun(r.n), more, rest);
      c.ReadInverts(r.pixel, EncodeRun(r.n) + (more + rest));
      ReadRunInverts(r.n, more + rest);
      ReadRunsInverts(c, r.pixel, r.n - 1, runs[1..], rest);
      RepeatStep(r.pixel, r.n, Expand(runs[1..]));
      RepeatNone(p, Expand(runs));
    }
  }

  /* Runs of a palette entry; a run of one can be sent without a length. */

  datatype PRun = PRun(index: nat, n: nat, bare: bool)

  predicate LegalPRuns(size: nat, runs: seq<PRun>)
  {
    forall i :: 0 <= i < |runs| ==> runs[i].index < size && 1 <= runs[i].n && (runs[i].bare ==> runs[i].n == 1)
  }

  function ExpandP(runs: seq<PRun>, palette: seq<Pixel>): seq<Pixel>
    requires LegalPRuns(|palette|, runs)
  {
    if runs == [] then [] else Repeat(palette[runs[0].index], runs[0].n) + ExpandP(runs[1..], palette)
  }

  function EncodePRun(r: PRun): seq<byte>
    requires r.index < 128 && 1 <= r.n
  {
    if r.bare then [r.index] else [r.index + 128] + EncodeRun(r.n)
  }

  function EncodePRuns(runs: seq<PRun>): seq<byte>
    requires LegalPRuns(127, runs)
  {
    if runs == [] then [] else EncodePRun(runs[0]) + EncodePRuns(runs[1..])
  }

  /** The start of a run: its palette index and its length. */
  function ReadPRun(f: Feed): (r: (nat, nat, Feed))
    ensures r.0 < 128 && 1 <= r.1
  {
    var (pi, g) := TakeU8(f);
    if 128 <= pi then
      var (n, h) := ReadRun(g);
      (pi - 128, n, h)
    else (pi, 1, g)
  }

  lemma ReadPRunInverts(r: PRun, rest: seq<byte>)
    requires r.index < 128 && 1 <= r.n && (r.bare ==> r.n == 1)
    ensures ReadPRun(Live(EncodePRun(r) + rest)) == (r.index, r.n, Live(rest))
  {
    if r.bare {
      TakeU8Prefix(r.index, rest);
    } else {
      Append([r.index + 128], EncodeRun(r.n), rest);
      TakeU8Prefix(r.index + 128, EncodeRun(r.n) + rest);
      ReadRunInverts(r.n, rest);
    }
  }

  function ReadPRuns(f: Feed, palette: seq<Pixel>, n: nat, pi: nat, rl: nat): (r: (seq<Pixel>, Feed))
    requires |palette| == 128 && pi < 128
    ensures |r.0| == n
    decreases n
  {
    if n == 0 then ([], f)
    else
      var (i, k, g) := if rl == 0 then ReadPRun(f) else (pi, rl, f);
      var (ps, h) := ReadPRuns(g, palette, n - 1, i, k - 1);
      ([palette[i]] + ps, h)
  }

  lemma {:induction false} ReadPRunsInverts(palette: seq<Pixel>, stack: seq<Pixel>, pi: nat, rl: nat,
                                            runs: seq<PRun>, rest: seq<byte>)
    requires |palette| <= 127 && |stack| == 128 && palette <= stack && pi < 128
    requires LegalPRuns(|palette|, runs)
    ensures ReadPRuns(Live(EncodePRuns(runs) + rest), stack, rl + |ExpandP(runs, palette)|, pi, rl)
         == (Repeat(stack[pi], rl) + ExpandP(runs, palette), Live(rest))
    decreases |runs|, rl
  {
    hide Repeat, ReadPRun, EncodePRun;
    if rl > 0 {
      ReadPRunsInverts(palette, stack, pi, rl - 1, runs, rest);
      RepeatStep(stack[pi], rl, ExpandP(runs, palette));
    } else if runs == [] {
      assert EncodePRuns(runs) + rest == rest;
      RepeatNone(stack[pi], ExpandP(runs, palette));
    } else {
      var r, more := runs[0], EncodePRuns(runs[1..]);
      Append(EncodePRun(r), more, rest);
      ReadPRunInverts(r, more + rest);
      ReadPRunsInverts(palette, stack, r.index, r.n - 1, runs[1..], rest);
      assert palette[r.index] == stack[r.index];
      RepeatStep(palette[r.index], r.n, ExpandP(runs[1..], palette));
      RepeatNone(stack[pi], ExpandP(runs, palette));
    }
  }
}
