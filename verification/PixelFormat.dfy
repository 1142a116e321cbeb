/** Pixel formats, pixel values and their bytes (src/vncpixelformat.h, src/vncconnection.c). */
module PixelFormats {
  import opened Bytes
  import opened Image
  import opened Words
  import ZrleCodec

  /** A colour channel: `bits` wide, so of maximum 2^bits - 1, its lowest bit at `shift`. */
  datatype Channel = Channel(bits: nat, shift: nat) {

    /** Bit `i` of a pixel value belongs to the channel. */
    predicate Covers(i: int)
    {
      shift <= i < shift + bits
    }

    function Max(): nat
    {
      Pow2(bits) - 1
    }

    /** COMPONENT: the channel's value, as a word. */
    function Component(v: Word): Word
    {
      And(Shr(v, shift), Low(bits))
    }
  }

  predicate Apart(c: Channel, d: Channel)
  {
    c.shift + c.bits <= d.shift || d.shift + d.bits <= c.shift || c.bits == 0 || d.bits == 0
  }

  /** A format of `bpp` bytes; its channels fit in them and do not overlap. */
  datatype Format = Format(bpp: nat, depth: nat, bigEndian: bool, trueColour: bool, red: Channel, green: Channel, blue: Channel) {

    predicate Valid()
    {
      && (bpp == 1 || bpp == 2 || bpp == 4)
      && InWidth(red) && InWidth(green) && InWidth(blue)
      && Apart(red, green) && Apart(red, blue) && Apart(green, blue)
    }

    predicate InWidth(c: Channel)
    {
      c.bits <= 16 && c.shift + c.bits <= 8 * bpp
    }

    predicate Covers(i: int)
    {
      red.Covers(i) || green.Covers(i) || blue.Covers(i)
    }

    /** A value this format can hold: no bit outside its channels. */
    predicate Holds(v: Word)
    {
      forall i :: 0 <= i < 32 && v[i] ==> Covers(i)
    }

    /** The significance of byte `k` in memory. */
    function Rank(k: int): int
    {
      if bigEndian then bpp - 1 - k else k
    }

    /** Byte `j` in order of significance. */
    function ByteOf(v: Word, j: nat): (r: byte)
      requires j < 4
    {
      assert Pow2(8) == 256;
      Number(v[8 * j..8 * j + 8])
    }

    /** The bytes of a value as the server's byte order lays them out. */
    function Memory(v: Word): (r: Pixel)
      requires bpp <= 4
      ensures |r| == bpp
      ensures forall k :: 0 <= k < bpp ==> r[k] == ByteOf(v, Rank(k))
    {
      seq(bpp, k requires 0 <= k < bpp => ByteOf(v, Rank(k)))
    }

    /** The value that bytes in the server's order stand for (SWAP_RFB of the loaded word). */
    function Value(m: Pixel): (r: Word)
      requires |m| == bpp <= 4
      ensures forall i :: 0 <= i < 32 ==>
                r[i] == (i < 8 * bpp && Bits(m[if bigEndian then bpp - 1 - i / 8 else i / 8], 8)[i % 8])
    {
      Make(i => 0 <= i < 8 * bpp && Bits(m[if bigEndian then bpp - 1 - i / 8 else i / 8], 8)[i % 8])
    }

    lemma ValueInverts(v: Word)
      requires bpp <= 4 && forall i :: 8 * bpp <= i < 32 ==> !v[i]
      ensures Value(Memory(v)) == v
    {
      hide ByteOf;
      forall i | 0 <= i < 8 * bpp
        ensures Bits(Memory(v)[if bigEndian then bpp - 1 - i / 8 else i / 8], 8)[i % 8] == v[i]
      {
        BitOfByte(v, i / 8, i % 8);
      }
    }

    lemma BitOfByte(v: Word, j: nat, k: nat)
      requires j < 4 && k < 8
      ensures Bits(ByteOf(v, j), 8)[k] == v[8 * j + k]
    {
      BitsOfNumber(v[8 * j..8 * j + 8]);
    }

    predicate FitsInMsb()
    {
      red.shift > 7 && green.shift > 7 && blue.shift > 7
    }

    /** `(max << shift) < (1 << 24)` in signed 32-bit arithmetic, where the sign bit makes it negative. */
    predicate Below24(c: Channel)
    {
      c.bits == 0 || c.shift + c.bits <= 24 || c.shift + c.bits == 32
    }

    predicate FitsInLsb()
    {
      Below24(red) && Below24(green) && Below24(blue)
    }

    /** `vnc_connection_read_cpixel`: how many bytes are read, and where they go. */
    function Compressed(): (c: ZrleCodec.CPixel)
      requires Valid()
      ensures c.Fits() && c.bpp == bpp
    {
      if bpp == 4 && trueColour && (FitsInMsb() || FitsInLsb())
      then ZrleCodec.CPixel(bpp, 3, if depth == 24 && bigEndian then 1 else 0)
      else ZrleCodec.CPixel(bpp, bpp, 0)
    }

    /** Which byte of a pixel value the client does not read (4: none). */
    function Dropped(): (j: nat)
      requires Valid()
      ensures j == 4 || (bpp == 4 && (j == 0 || j == 3))
    {
      if Compressed().size == bpp then 4 else if bigEndian && depth != 24 then 0 else 3
    }

    /** No channel has a bit in byte `j`. */
    ghost predicate Unused(j: nat)
    {
      forall i :: 8 * j <= i < 8 * j + 8 ==> !Covers(i)
    }

    /** The value with every channel at its maximum. */
    function White(): (r: Word)
      ensures forall i :: 0 <= i < 32 ==> r[i] == Covers(i)
    {
      Make(i => Covers(i))
    }
  }

  /** Four bytes survive exactly when the one left out is zero. */
  lemma CompactBytes(m: Pixel, at: nat)
    requires |m| == 4 && at <= 1
    ensures ZrleCodec.CPixel(4, 3, at).Compact(m) <==> m[if at == 0 then 3 else 0] == 0
  {
    if at == 0 {
      assert Zeros(0) + m[0..3] + Zeros(1) == [m[0], m[1], m[2], 0];
    } else {
      assert Zeros(1) + m[1..4] + Zeros(0) == [0, m[1], m[2], m[3]];
    }
    assert m == [m[0], m[1], m[2], m[3]];
  }

  lemma WholePixel(m: Pixel)
    requires 0 < |m|
    ensures ZrleCodec.CPixel(|m|, |m|, 0).Compact(m)
  {
    assert Zeros(0) + m[0..|m|] + Zeros(0) == m;
  }

  /** A value survives the client's compression exactly when the byte it drops is zero. */
  lemma CompactValue(f: Format, v: Word)
    requires f.Valid()
    ensures f.Compressed().Compact(f.Memory(v)) <==> f.Dropped() == 4 || f.ByteOf(v, f.Dropped()) == 0
  {
    hide ZrleCodec.CPixel.Compact, Format.ByteOf, Format.FitsInMsb, Format.FitsInLsb;
    if f.Dropped() == 4 {
      WholePixel(f.Memory(v));
    } else {
      CompactBytes(f.Memory(v), 0);
      CompactBytes(f.Memory(v), 1);
    }
  }

  lemma ByteZero(f: Format, v: Word, j: nat)
    requires j < 4
    ensures f.ByteOf(v, j) == 0 <==> forall i :: 8 * j <= i < 8 * j + 8 ==> !v[i]
  {
    var b := v[8 * j..8 * j + 8];
    NumberZero(b);
    assert forall i :: 0 <= i < 8 ==> b[i] == v[8 * j + i];
    assert forall i :: 8 * j <= i < 8 * j + 8 ==> v[i] == b[i - 8 * j];
  }

  /** No channel uses the byte that is dropped. */
  ghost predicate Lossless(f: Format)
    requires f.Valid()
  {
    f.Dropped() == 4 || f.Unused(f.Dropped())
  }

  /**
   * CPIXELs lose nothing of any value the format can hold exactly when no
   * channel uses the byte that the client's placement drops.
   */
  lemma CPixelsLossless(f: Format)
    requires f.Valid()
    ensures (forall v: Word :: f.Holds(v) ==> f.Compressed().Compact(f.Memory(v)))
        <==> Lossless(f)
  {
    hide ZrleCodec.CPixel.Compact, Format.Memory, Format.Compressed, Format.ByteOf, Format.Dropped, Format.Covers;
    var j := f.Dropped();
    if j == 4 || f.Unused(j) {
      forall v: Word | f.Holds(v)
        ensures f.Compressed().Compact(f.Memory(v))
      {
        CompactValue(f, v);
        if j != 4 { ByteZero(f, v, j); }
      }
    } else {
      var v := f.White();
      CompactValue(f, v);
      ByteZero(f, v, j);
      var i :| 8 * j <= i < 8 * j + 8 && f.Covers(i);
      assert v[i] && f.Holds(v);
    }
  }

  /** Formats in the low three bytes, little-endian or of depth 24, are among the lossless ones ... */
  lemma LowFormatsLossless(f: Format)
    requires f.Valid() && f.Unused(3) && (!f.bigEndian || f.depth == 24)
    ensures Lossless(f)
  {
  }

  /** ... and a little-endian format in the high three bytes is not. */
  lemma HighFormatLosesTop()
    ensures var f := Format(4, 24, false, true, Channel(8, 24), Channel(8, 16), Channel(8, 8));
            f.Valid() && f.Dropped() == 3 && !f.Unused(3)
  {
    var f := Format(4, 24, false, true, Channel(8, 24), Channel(8, 16), Channel(8, 8));
    assert f.Covers(24);
  }

  /** Nor is one whose only channel in the top byte the signed test takes for a small one. */
  lemma SignTestLosesTop(f: Format, c: Channel)
    requires f.Valid() && f.bpp == 4 && f.trueColour && (!f.bigEndian || f.depth == 24) && f.FitsInLsb()
    requires (c == f.red || c == f.green || c == f.blue) && 0 < c.bits && 24 < c.shift + c.bits
    ensures f.Dropped() == 3 && !f.Unused(3)
    ensures c.shift + c.bits == 32
  {
    assert f.Covers(31);
  }

  /* The length of a CPIXEL (section 7.7.5 of RFC 6143). */

  /** Three bytes if the depth is at most 24 and the channels fit in the low or in the high three bytes. */
  ghost function DefinedSize(f: Format): nat
    requires f.Valid()
  {
    if f.bpp == 4 && f.trueColour && f.depth <= 24 && (f.Unused(3) || f.Unused(0)) then 3 else f.bpp
  }

  /** Every channel ends below bit 24, or at the top bit, or has no bits: taken for low. */
  predicate EndsLow(c: Channel)
  {
    c.bits == 0 || c.shift + c.bits <= 24 || c.shift + c.bits == 32
  }

  predicate AllEndLow(f: Format)
  {
    EndsLow(f.red) && EndsLow(f.green) && EndsLow(f.blue)
  }

  /** Every channel starts at bit 8 or above, one without bits included: taken for high. */
  predicate AllStartHigh(f: Format)
  {
    8 <= f.red.shift && 8 <= f.green.shift && 8 <= f.blue.shift
  }

  /** A channel that reaches the top bit passes for a small one, though all four bytes are used. */
  ghost predicate TopTakenForLow(f: Format)
  {
    AllEndLow(f) && !f.Unused(3) && !f.Unused(0)
  }

  /** The high three bytes would do, but for the shift of a channel that has no bits. */
  ghost predicate EmptyInTheWay(f: Format)
  {
    f.Unused(0) && !AllStartHigh(f) && !AllEndLow(f)
  }

  /**
   * The client reads as many bytes for a CPIXEL as the protocol defines exactly
   * if, where it matters, the depth is at most 24 and neither of these cases
   * arises, or the depth is more and the channels fit in no three bytes.
   */
  lemma SizeAsDefined(f: Format)
    requires f.Valid()
    ensures f.Compressed().size == DefinedSize(f)
        <==> f.bpp != 4 || !f.trueColour
             || if f.depth <= 24 then !TopTakenForLow(f) && !EmptyInTheWay(f) else !AllStartHigh(f) && !AllEndLow(f)
  {
    if f.bpp == 4 && f.trueColour {
      LowFits(f, f.red);
      LowFits(f, f.green);
      LowFits(f, f.blue);
      assert f.FitsInMsb() ==> f.Unused(0);
    }
  }

  /** Formats of 8, 16 and 32 bits are among those the results are about, with channels of up to 16 bits. */
  lemma UsualFormats(bigEndian: bool)
    ensures Format(1, 8, bigEndian, true, Channel(3, 0), Channel(3, 3), Channel(2, 6)).Valid()
    ensures Format(2, 16, bigEndian, true, Channel(5, 11), Channel(6, 5), Channel(5, 0)).Valid()
    ensures Format(4, 24, bigEndian, true, Channel(8, 16), Channel(8, 8), Channel(8, 0)).Valid()
    ensures Format(4, 32, bigEndian, true, Channel(16, 16), Channel(16, 0), Channel(0, 0)).Valid()
  {
  }

  lemma LowFits(f: Format, c: Channel)
    requires f.Valid() && (c == f.red || c == f.green || c == f.blue)
    ensures f.Unused(3) ==> f.Below24(c)
  {
    if 0 < c.bits && 24 < c.shift + c.bits {
      var top := c.shift + c.bits - 1;
      assert c.Covers(top) && f.Covers(top);
    }
  }

  /** A format in the low three bytes that declares a depth above 24 is read in three bytes where four are defined. */
  lemma DeepLowDiffers(f: Format)
    requires f.Valid() && f.bpp == 4 && f.trueColour && 24 < f.depth && f.Unused(3)
    ensures f.Compressed().size == 3 && DefinedSize(f) == 4
  {
    LowFits(f, f.red);
    LowFits(f, f.green);
    LowFits(f, f.blue);
  }
}
