/** The gradient filter of the Tight encoding (src/vncconnection.c, src/vncconnectionblt.h). */
module Gradient {
  import opened Arith
  import opened Bytes
  import opened Feed
  import opened Image
  import opened PixelFormats
  import opened Words
  import opened ZrleCodec

  /** The value of a channel in a pixel. */
  function Part(c: Channel, v: Word): (n: nat)
    requires c.shift + c.bits <= 32
    ensures n < Pow2(c.bits)
  {
    Number(v[c.shift..c.shift + c.bits])
  }

  /** (r << red_shift) | (g << green_shift) | (b << blue_shift), for values that fit their channels. */
  function Pack(f: Format, r: nat, g: nat, b: nat): (v: Word)
    requires f.Valid()
    ensures forall i :: 0 <= i < 32 ==> (v[i] <==>
                            || (f.red.Covers(i) && Bits(r, f.red.bits)[i - f.red.shift])
                            || (f.green.Covers(i) && Bits(g, f.green.bits)[i - f.green.shift])
                            || (f.blue.Covers(i) && Bits(b, f.blue.bits)[i - f.blue.shift]))
  {
    Make(i =>
      (f.red.Covers(i) && Bits(r, f.red.bits)[i - f.red.shift])
      || (f.green.Covers(i) && Bits(g, f.green.bits)[i - f.green.shift])
      || (f.blue.Covers(i) && Bits(b, f.blue.bits)[i - f.blue.shift]))
  }

  lemma PartIs(c: Channel, v: Word, n: nat)
    requires c.shift + c.bits <= 32 && n < Pow2(c.bits)
    requires forall i :: c.Covers(i) ==> v[i] == Bits(n, c.bits)[i - c.shift]
    ensures Part(c, v) == n
  {
    hide Bits, Number, Pow2;
    forall j | 0 <= j < c.bits
      ensures v[c.shift + j] == Bits(n, c.bits)[j]
    {
      assert c.Covers(c.shift + j);
    }
    assert v[c.shift..c.shift + c.bits] == Bits(n, c.bits);
    NumberOfBits(n, c.bits);
    SmallMod(n, Pow2(c.bits));
  }

  lemma SmallMod(n: nat, m: nat)
    requires n < m
    ensures n % m == n
  {
  }

  lemma PartsOfPack(f: Format, r: nat, g: nat, b: nat)
    requires f.Valid() && r < Pow2(f.red.bits) && g < Pow2(f.green.bits) && b < Pow2(f.blue.bits)
    ensures Part(f.red, Pack(f, r, g, b)) == r
    ensures Part(f.green, Pack(f, r, g, b)) == g
    ensures Part(f.blue, Pack(f, r, g, b)) == b
  {
    hide Part, Bits, Pow2;
    var v := Pack(f, r, g, b);
    PartIs(f.red, v, r);
    PartIs(f.green, v, g);
    PartIs(f.blue, v, b);
  }

  lemma BitOfPart(c: Channel, v: Word, i: int)
    requires c.shift + c.bits <= 32 && c.Covers(i)
    ensures Bits(Part(c, v), c.bits)[i - c.shift] == v[i]
  {
    hide Bits, Number, Pow2;
    BitsOfNumber(v[c.shift..c.shift + c.bits]);
  }

  /** A value of the format is its channels, packed. */
  lemma PackOfParts(f: Format, v: Word)
    requires f.Valid() && f.Holds(v)
    ensures Pack(f, Part(f.red, v), Part(f.green, v), Part(f.blue, v)) == v
  {
    hide Part, Bits;
    var p := Pack(f, Part(f.red, v), Part(f.green, v), Part(f.blue, v));
    forall i | 0 <= i < 32
      ensures p[i] == v[i]
    {
      if f.red.Covers(i) { BitOfPart(f.red, v, i); }
      if f.green.Covers(i) { BitOfPart(f.green, v, i); }
      if f.blue.Covers(i) { BitOfPart(f.blue, v, i); }
    }
  }

  /* One channel. */

  function Clamp(n: int, max: nat): (r: nat)
    ensures r <= max
  {
    if n < 0 then 0 else if max < n then max else n
  }

  /** Assignment to a signed integer that holds `m` different values. */
  function Wrap(n: int, m: nat): int
    requires 0 < m
  {
    if n % m < m / 2 then n % m else n % m - m
  }

  /** ... of `width` bits. */
  function Signed(n: int, width: nat): int
  {
    Wrap(n, Pow2(width))
  }

  /** The prediction that the encoding defines ... */
  function Ideal(left: nat, up: nat, upLeft: nat, bits: nat): (r: nat)
    ensures r < Pow2(bits)
  {
    var n, max := left + up - upLeft, Pow2(bits) - 1;
    if max <= n then max else if 0 <= n then n else 0
  }

  /** ... and the one the client computes in a signed integer as wide as the pixel. */
  function Predict(left: nat, up: nat, upLeft: nat, bits: nat, width: nat): (r: nat)
    ensures r < Pow2(bits)
  {
    Clamp(Signed(left + up - upLeft, width), Pow2(bits) - 1)
  }

  /** The client's prediction is the defined one, for all neighbours, exactly when two bits are to spare. */
  lemma PredictionExact(bits: nat, width: nat, l: nat, u: nat, ul: nat)
    requires 1 <= bits <= width && l < Pow2(bits) && u < Pow2(bits) && ul < Pow2(bits)
    ensures bits + 2 <= width ==> Predict(l, u, ul, bits, width) == Ideal(l, u, ul, bits)
    ensures width < bits + 2 ==>
              var m := Pow2(bits) - 1; 0 < m && Predict(m, m, 0, bits, width) == 0 && Ideal(m, m, 0, bits) == m
  {
    hide Wrap, Pow2;
    Pow2Steps(bits, width);
    if bits + 2 <= width {
      WrapSmall(l + u - ul, Pow2(width));
    } else {
      TwiceMaxWraps(Pow2(bits), Pow2(width));
      var m := Pow2(bits) - 1;
      assert m + m - 0 == 2 * Pow2(bits) - 2;
    }
  }

  lemma Pow2Steps(bits: nat, width: nat)
    requires 1 <= bits <= width
    ensures 2 <= Pow2(bits)
    ensures bits + 2 <= width ==> 4 * Pow2(bits) <= Pow2(width)
    ensures width < bits + 2 ==> Pow2(width) == Pow2(bits) || Pow2(width) == 2 * Pow2(bits)
  {
    Pow2Monotone(1, bits);
    if bits + 2 <= width {
      Pow2Monotone(bits + 2, width);
      assert Pow2(bits + 2) == 2 * Pow2(bits + 1);
    }
  }

  lemma WrapSmall(n: int, m: nat)
    requires 2 <= m && -(m as int) <= 2 * n && 2 * n < m - 1
    ensures Wrap(n, m) == n
  {
    var q, r := if n < 0 then -1 else 0, if n < 0 then n + m else n;
    DigitsUnique(n / m, n % m, q, r, m);
  }

  /** Twice the maximum of a channel that leaves no two bits to spare wraps to -2. */
  lemma TwiceMaxWraps(p: nat, m: nat)
    requires 2 <= p && (m == p || m == 2 * p)
    ensures Wrap(2 * p - 2, m) <= 0
  {
    var n, q := 2 * p - 2, if m == p then 1 else 0;
    assert n == q * m + (m - 2);
    DigitsUnique(n / m, n % m, q, m - 2, m);
  }

  function Difference(n: nat, p: nat, bits: nat): (r: nat)
    ensures r < Pow2(bits)
  {
    (n - p) % Pow2(bits)
  }

  function Sum(d: nat, p: nat, bits: nat): (r: nat)
    ensures r < Pow2(bits)
  {
    (d + p) % Pow2(bits)
  }

  /** Adding a prediction back undoes taking it away exactly if it is the same prediction. */
  lemma SumUndoes(n: nat, p: nat, q: nat, bits: nat)
    requires n < Pow2(bits) && p < Pow2(bits) && q < Pow2(bits)
    ensures Sum(Difference(n, p, bits), q, bits) == n <==> p == q
  {
    ModUndoes(n, p, q, Pow2(bits));
  }

  lemma ModUndoes(n: nat, p: nat, q: nat, m: nat)
    requires n < m && p < m && q < m
    ensures ((n - p) % m + q) % m == n <==> p == q
  {
    var d := if p <= n then n - p else n - p + m;
    DigitsUnique((n - p) / m, (n - p) % m, if p <= n then 0 else -1, d, m);
    var s := if d + q < m then d + q else d + q - m;
    DigitsUnique((d + q) / m, (d + q) % m, if d + q < m then 0 else 1, s, m);
  }

  /* Pixels. */

  /** No channel is too wide for the client's arithmetic. */
  predicate Narrow(f: Format)
  {
    Spare(f.red, f.bpp) && Spare(f.green, f.bpp) && Spare(f.blue, f.bpp)
  }

  predicate Spare(c: Channel, bpp: nat)
  {
    c.bits == 0 || c.bits + 2 <= 8 * bpp
  }

  /** TIGHT_COMPUTE_PREDICTED */
  function PredictPixel(f: Format, left: Word, up: Word, upLeft: Word): Word
    requires f.Valid()
  {
    var w := 8 * f.bpp;
    Pack(f, Predict(Part(f.red, left), Part(f.red, up), Part(f.red, upLeft), f.red.bits, w),
            Predict(Part(f.green, left), Part(f.green, up), Part(f.green, upLeft), f.green.bits, w),
            Predict(Part(f.blue, left), Part(f.blue, up), Part(f.blue, upLeft), f.blue.bits, w))
  }

  /** TIGHT_SUM_PIXEL */
  function SumPixel(f: Format, d: Word, p: Word): Word
    requires f.Valid()
  {
    Pack(f, Sum(Part(f.red, d), Part(f.red, p), f.red.bits),
            Sum(Part(f.green, d), Part(f.green, p), f.green.bits),
            Sum(Part(f.blue, d), Part(f.blue, p), f.blue.bits))
  }

  /** What an encoder sends for a pixel with the given neighbours. */
  function DifferencePixel(f: Format, v: Word, left: Word, up: Word, upLeft: Word): Word
    requires f.Valid()
  {
    Pack(f, Difference(Part(f.red, v), Ideal(Part(f.red, left), Part(f.red, up), Part(f.red, upLeft), f.red.bits), f.red.bits),
            Difference(Part(f.green, v), Ideal(Part(f.green, left), Part(f.green, up), Part(f.green, upLeft), f.green.bits), f.green.bits),
            Difference(Part(f.blue, v), Ideal(Part(f.blue, left), Part(f.blue, up), Part(f.blue, upLeft), f.blue.bits), f.blue.bits))
  }

  /** One channel of a pixel comes back exactly when the two predictions agree. */
  ghost predicate Agrees(c: Channel, bpp: nat, left: Word, up: Word, upLeft: Word)
    requires c.shift + c.bits <= 32
  {
    Predict(Part(c, left), Part(c, up), Part(c, upLeft), c.bits, 8 * bpp) == Ideal(Part(c, left), Part(c, up), Part(c, upLeft), c.bits)
  }

  lemma PixelInverts(f: Format, v: Word, left: Word, up: Word, upLeft: Word)
    requires f.Valid() && f.Holds(v)
    ensures SumPixel(f, DifferencePixel(f, v, left, up, upLeft), PredictPixel(f, left, up, upLeft)) == v
        <==> Agrees(f.red, f.bpp, left, up, upLeft) && Agrees(f.green, f.bpp, left, up, upLeft) && Agrees(f.blue, f.bpp, left, up, upLeft)
  {
    hide Predict, Ideal, Difference, Sum, Part, Pack, Format.Holds;
    var w := 8 * f.bpp;
    var r, g, b := Part(f.red, v), Part(f.green, v), Part(f.blue, v);
    var ir := Ideal(Part(f.red, left), Part(f.red, up), Part(f.red, upLeft), f.red.bits);
    var ig := Ideal(Part(f.green, left), Part(f.green, up), Part(f.green, upLeft), f.green.bits);
    var ib := Ideal(Part(f.blue, left), Part(f.blue, up), Part(f.blue, upLeft), f.blue.bits);
    var pr := Predict(Part(f.red, left), Part(f.red, up), Part(f.red, upLeft), f.red.bits, w);
    var pg := Predict(Part(f.green, left), Part(f.green, up), Part(f.green, upLeft), f.green.bits, w);
    var pb := Predict(Part(f.blue, left), Part(f.blue, up), Part(f.blue, upLeft), f.blue.bits, w);
    var dr, dg, db := Difference(r, ir, f.red.bits), Difference(g, ig, f.green.bits), Difference(b, ib, f.blue.bits);
    PartsOfPack(f, pr, pg, pb);
    PartsOfPack(f, dr, dg, db);
    PartsOfPack(f, Sum(dr, pr, f.red.bits), Sum(dg, pg, f.green.bits), Sum(db, pb, f.blue.bits));
    SumUndoes(r, ir, pr, f.red.bits);
    SumUndoes(g, ig, pg, f.green.bits);
    SumUndoes(b, ib, pb, f.blue.bits);
    PackOfParts(f, v);
  }

  lemma NarrowAgrees(f: Format, c: Channel, left: Word, up: Word, upLeft: Word)
    requires c.shift + c.bits <= 32 && c.bits <= 8 * f.bpp && Spare(c, f.bpp)
    ensures Agrees(c, f.bpp, left, up, upLeft)
  {
    if c.bits != 0 {
      PredictionExact(c.bits, 8 * f.bpp, Part(c, left), Part(c, up), Part(c, upLeft));
    }
  }

  /** In a narrow format every pixel comes back, whatever its neighbours ... */
  lemma NarrowInverts(f: Format, v: Word, left: Word, up: Word, upLeft: Word)
    requires f.Valid() && f.Holds(v) && Narrow(f)
    ensures SumPixel(f, DifferencePixel(f, v, left, up, upLeft), PredictPixel(f, left, up, upLeft)) == v
  {
    hide SumPixel, DifferencePixel, PredictPixel, Agrees, Format.Holds;
    PixelInverts(f, v, left, up, upLeft);
    NarrowAgrees(f, f.red, left, up, upLeft);
    NarrowAgrees(f, f.green, left, up, upLeft);
    NarrowAgrees(f, f.blue, left, up, upLeft);
  }

  /** ... and in any other, no pixel does whose left and upper neighbours are white beside a black one. */
  lemma WideLoses(f: Format, v: Word)
    requires f.Valid() && f.Holds(v) && !Narrow(f)
    ensures SumPixel(f, DifferencePixel(f, v, f.White(), f.White(), Low(0)), PredictPixel(f, f.White(), f.White(), Low(0))) != v
  {
    hide SumPixel, DifferencePixel, PredictPixel, Agrees;
    var w, k := f.White(), Low(0);
    PixelInverts(f, v, w, w, k);
    if !Spare(f.red, f.bpp) {
      WideDisagrees(f, f.red);
    } else if !Spare(f.green, f.bpp) {
      WideDisagrees(f, f.green);
    } else {
      WideDisagrees(f, f.blue);
    }
  }

  lemma WideDisagrees(f: Format, c: Channel)
    requires c.shift + c.bits <= 32 && c.bits <= 8 * f.bpp && !Spare(c, f.bpp)
    requires forall i :: c.Covers(i) ==> f.Covers(i)
    ensures !Agrees(c, f.bpp, f.White(), f.White(), Low(0))
  {
    hide Predict, Ideal, Part, Pow2, Format.White;
    PartOfWhite(f, c);
    PartOfBlack(c);
    PredictionExact(c.bits, 8 * f.bpp, 0, 0, 0);
  }

  lemma PartOfWhite(f: Format, c: Channel)
    requires c.shift + c.bits <= 32 && forall i :: c.Covers(i) ==> f.Covers(i)
    ensures Part(c, f.White()) == Pow2(c.bits) - 1
  {
    var w := f.White();
    assert forall i {:trigger w[i]} :: c.shift <= i < c.shift + c.bits ==> c.Covers(i) && w[i];
    AllOnes(w[c.shift..c.shift + c.bits]);
  }

  lemma PartOfBlack(c: Channel)
    requires c.shift + c.bits <= 32
    ensures Part(c, Low(0)) == 0
  {
    NumberZero(Low(0)[c.shift..c.shift + c.bits]);
  }

  /** Beside black pixels, every pixel comes back in every format. */
  lemma BesideBlackInverts(f: Format, v: Word)
    requires f.Valid() && f.Holds(v)
    ensures SumPixel(f, DifferencePixel(f, v, Low(0), Low(0), Low(0)), PredictPixel(f, Low(0), Low(0), Low(0))) == v
  {
    hide SumPixel, DifferencePixel, PredictPixel, Agrees;
    PixelInverts(f, v, Low(0), Low(0), Low(0));
    BlackAgrees(f.red, f.bpp);
    BlackAgrees(f.green, f.bpp);
    BlackAgrees(f.blue, f.bpp);
  }

  lemma BlackAgrees(c: Channel, bpp: nat)
    requires c.shift + c.bits <= 32 && 0 < bpp
    ensures Agrees(c, bpp, Low(0), Low(0), Low(0))
  {
    hide Part;
    PartOfBlack(c);
    Pow2Monotone(1, 8 * bpp);
  }

  lemma {:induction false} AllOnes(bits: seq<bool>)
    requires forall i :: 0 <= i < |bits| ==> bits[i]
    ensures Number(bits) == Pow2(|bits|) - 1
  {
    if bits != [] {
      AllOnes(bits[1..]);
    }
  }

  /* On the wire. */

  /** Formats for which the client's 3-byte TPIXEL is the one of the encoding. */
  predicate TightFormat(f: Format)
  {
    f.Valid() && (f.depth == 24 ==> f.bpp == 4 && f.red.bits == f.green.bits == f.blue.bits == 8)
  }

  /** The usual formats are among them. */
  lemma UsualTight(bigEndian: bool)
    ensures TightFormat(Format(2, 16, bigEndian, true, Channel(5, 11), Channel(6, 5), Channel(5, 0)))
    ensures TightFormat(Format(4, 24, bigEndian, true, Channel(8, 16), Channel(8, 8), Channel(8, 0)))
  {
  }

  function ByteWord(b: byte): Word
  {
    Make(i => 0 <= i < 8 && Bits(b, 8)[i])
  }

  /** `vnc_connection_read_tpixel`, as a value */
  function ReadTPixel(f: Format, s: Feed): (Word, Feed)
    requires f.Valid()
  {
    var (m, g) := Take(s, if f.depth == 24 then 3 else f.bpp);
    if f.depth == 24 then
      (Or(Or(Shl(ByteWord(m[0]), f.red.shift), Shl(ByteWord(m[1]), f.green.shift)), Shl(ByteWord(m[2]), f.blue.shift)), g)
    else (f.Value(m), g)
  }

  function EncodeTPixel(f: Format, v: Word): seq<byte>
    requires TightFormat(f)
  {
    if f.depth == 24 then
      Pow2Eight();
      [Part(f.red, v), Part(f.green, v), Part(f.blue, v)]
    else f.Memory(v)
  }

  lemma Pow2Eight()
    ensures Pow2(8) == 256
  {
  }

  lemma ReadTPixelInverts(f: Format, v: Word, rest: seq<byte>)
    requires TightFormat(f) && f.Holds(v)
    ensures ReadTPixel(f, Live(EncodeTPixel(f, v) + rest)) == (v, Live(rest))
  {
    if f.depth == 24 {
      ReadThreeBytes(f, v, rest);
    } else {
      hide Format.Value, Format.Memory, Take;
      f.ValueInverts(v);
      TakePrefix(f.Memory(v), rest);
    }
  }

  lemma ReadThreeBytes(f: Format, v: Word, rest: seq<byte>)
    requires TightFormat(f) && f.Holds(v) && f.depth == 24
    ensures ReadTPixel(f, Live(EncodeTPixel(f, v) + rest)) == (v, Live(rest))
  {
    hide Part, Bits, Take, Or, Shl, ByteWord;
    Pow2Eight();
    TakePrefix(EncodeTPixel(f, v), rest);
    PackOfParts(f, v);
    PackOfBytes(f, Part(f.red, v), Part(f.green, v), Part(f.blue, v));
  }

  lemma ByteInPlace(c: Channel, b: byte, i: nat)
    requires c.bits == 8 && c.shift <= 24 && i < 32
    ensures Shl(ByteWord(b), c.shift)[i] <==> c.Covers(i) && Bits(b, c.bits)[i - c.shift]
  {
    hide Bits;
  }

  /** Three bytes put in their places are the channels of a pixel. */
  lemma PackOfBytes(f: Format, r: byte, g: byte, b: byte)
    requires TightFormat(f) && f.depth == 24
    ensures Or(Or(Shl(ByteWord(r), f.red.shift), Shl(ByteWord(g), f.green.shift)), Shl(ByteWord(b), f.blue.shift)) == Pack(f, r, g, b)
  {
    hide Bits, Shl, ByteWord, Or, Pack, Channel.Covers;
    var (x, y) := (Or(Or(Shl(ByteWord(r), f.red.shift), Shl(ByteWord(g), f.green.shift)), Shl(ByteWord(b), f.blue.shift)), Pack(f, r, g, b));
    forall i: nat | i < 32
      ensures x[i] == y[i]
    {
      ByteInPlace(f.red, r, i);
      ByteInPlace(f.green, g, i);
      ByteInPlace(f.blue, b, i);
    }
  }

  function Before(row: seq<Word>, i: nat): Word
    requires i <= |row|
  {
    if i == 0 then Low(0) else row[i - 1]
  }

  /** The rest of a row of |last| pixels, `row` being what is decoded of it. */
  function DecodeRow(f: Format, s: Feed, last: seq<Word>, row: seq<Word>): (r: (seq<Word>, Feed))
    requires f.Valid() && |row| <= |last|
    ensures |r.0| == |last|
    decreases |last| - |row|
  {
    var i := |row|;
    if i == |last| then (row, s)
    else
      var (d, g) := ReadTPixel(f, s);
      DecodeRow(f, g, last, row + [SumPixel(f, d, PredictPixel(f, Before(row, i), last[i], Before(last, i)))])
  }

  function EncodeRow(f: Format, row: seq<Word>, last: seq<Word>, i: nat): seq<byte>
    requires TightFormat(f) && i <= |row| == |last|
    decreases |row| - i
  {
    if i == |row| then []
    else EncodeTPixel(f, DifferencePixel(f, row[i], Before(row, i), last[i], Before(last, i))) + EncodeRow(f, row, last, i + 1)
  }

  ghost predicate AllHold(f: Format, row: seq<Word>)
  {
    forall i :: 0 <= i < |row| ==> f.Holds(row[i])
  }

  /** Pixel `i` of a row, as it is decoded after the pixels before it came back. */
  function Decoded(f: Format, row: seq<Word>, last: seq<Word>, i: nat): Word
    requires f.Valid() && i < |row| == |last|
  {
    SumPixel(f, DifferencePixel(f, row[i], Before(row, i), last[i], Before(last, i)),
             PredictPixel(f, Before(row, i), last[i], Before(last, i)))
  }

  lemma DecodeNext(f: Format, row: seq<Word>, last: seq<Word>, i: nat, rest: seq<byte>)
    requires TightFormat(f) && AllHold(f, row) && i < |row| == |last|
    ensures DecodeRow(f, Live(EncodeRow(f, row, last, i) + rest), last, row[..i])
         == DecodeRow(f, Live(EncodeRow(f, row, last, i + 1) + rest), last, row[..i] + [Decoded(f, row, last, i)])
  {
    hide SumPixel, PredictPixel, DifferencePixel, ReadTPixel, EncodeTPixel, Format.Holds;
    var d := DifferencePixel(f, row[i], Before(row, i), last[i], Before(last, i));
    var more := EncodeRow(f, row, last, i + 1);
    Append(EncodeTPixel(f, d), more, rest);
    DifferenceHolds(f, row[i], Before(row, i), last[i], Before(last, i));
    ReadTPixelInverts(f, d, more + rest);
    assert Before(row[..i], i) == Before(row, i);
  }

  lemma {:induction false} DecodeRowInverts(f: Format, row: seq<Word>, last: seq<Word>, i: nat, rest: seq<byte>)
    requires TightFormat(f) && AllHold(f, row) && i <= |row| == |last|
    requires Narrow(f) || forall j :: i <= j < |row| ==> Decoded(f, row, last, j) == row[j]
    ensures DecodeRow(f, Live(EncodeRow(f, row, last, i) + rest), last, row[..i]) == (row, Live(rest))
    decreases |row| - i
  {
    hide SumPixel, PredictPixel, DifferencePixel, ReadTPixel, EncodeTPixel, Narrow, Format.Holds;
    if i == |row| {
      assert row[..i] == row && EncodeRow(f, row, last, i) + rest == rest;
    } else {
      DecodeNext(f, row, last, i, rest);
      if Narrow(f) { NarrowInverts(f, row[i], Before(row, i), last[i], Before(last, i)); }
      assert row[..i] + [row[i]] == row[..i + 1];
      DecodeRowInverts(f, row, last, i + 1, rest);
    }
  }

  lemma DifferenceHolds(f: Format, v: Word, left: Word, up: Word, upLeft: Word)
    requires f.Valid()
    ensures f.Holds(DifferencePixel(f, v, left, up, upLeft))
  {
  }

  /** The rows of an image, each filtered against the one above. */
  function EncodeRows(f: Format, rows: seq<seq<Word>>, last: seq<Word>): seq<byte>
    requires TightFormat(f) && forall j :: 0 <= j < |rows| ==> |rows[j]| == |last|
  {
    if rows == [] then [] else EncodeRow(f, rows[0], last, 0) + EncodeRows(f, rows[1..], rows[0])
  }

  /** The rows that `h` rounds of the outer loop decode. */
  function DecodeRows(f: Format, s: Feed, last: seq<Word>, h: nat): (r: (seq<seq<Word>>, Feed))
    requires f.Valid()
    ensures |r.0| == h
    decreases h
  {
    if h == 0 then ([], s)
    else
      var (row, g) := DecodeRow(f, s, last, []);
      var (rows, t) := DecodeRows(f, g, row, h - 1);
      ([row] + rows, t)
  }

  /** Rows of `w` values that the format can hold. */
  ghost predicate Picture(f: Format, rows: seq<seq<Word>>, w: nat)
  {
    forall j :: 0 <= j < |rows| ==> |rows[j]| == w && AllHold(f, rows[j])
  }

  function Blank(w: nat): (r: seq<Word>)
    ensures |r| == w
  {
    seq(w, _ => Low(0))
  }

  /** The picture encoded comes back, and nothing that follows it is consumed. */
  ghost predicate Restored(f: Format, rows: seq<seq<Word>>, w: nat, rest: seq<byte>)
    requires TightFormat(f) && Picture(f, rows, w)
  {
    DecodeRows(f, Live(EncodeRows(f, rows, Blank(w)) + rest), Blank(w), |rows|) == (rows, Live(rest))
  }

  lemma {:induction false} DecodeRowsInverts(f: Format, rows: seq<seq<Word>>, last: seq<Word>, rest: seq<byte>)
    requires TightFormat(f) && Narrow(f) && Picture(f, rows, |last|)
    ensures DecodeRows(f, Live(EncodeRows(f, rows, last) + rest), last, |rows|) == (rows, Live(rest))
  {
    hide DecodeRow, EncodeRow, Narrow, Decoded;
    if rows == [] {
      assert EncodeRows(f, rows, last) + rest == rest;
    } else {
      var more := EncodeRows(f, rows[1..], rows[0]);
      Append(EncodeRow(f, rows[0], last, 0), more, rest);
      DecodeRowInverts(f, rows[0], last, 0, more + rest);
      DecodeRowsInverts(f, rows[1..], rows[0], rest);
      assert rows == [rows[0]] + rows[1..];
    }
  }

  /** The filter is undone for every picture exactly in the formats that leave two bits to spare. */
  lemma RestoredIffNarrow(f: Format)
    requires TightFormat(f)
    ensures Narrow(f) <==> forall rows, w: nat, rest | Picture(f, rows, w) :: Restored(f, rows, w, rest)
  {
    hide Narrow, EncodeRows, DecodeRows, Picture;
    if Narrow(f) {
      forall rows, w: nat, rest | Picture(f, rows, w)
        ensures Restored(f, rows, w, rest)
      {
        DecodeRowsInverts(f, rows, Blank(w), rest);
      }
    } else {
      TwoByTwoLost(f, []);
    }
  }

  /** A picture of one black pixel and three white ones, which no wide format restores. */
  function TwoByTwo(f: Format): seq<seq<Word>>
  {
    [[Low(0), f.White()], [f.White(), f.White()]]
  }

  lemma TwoByTwoLost(f: Format, rest: seq<byte>)
    requires TightFormat(f) && !Narrow(f)
    ensures Picture(f, TwoByTwo(f), 2) && !Restored(f, TwoByTwo(f), 2, rest)
  {
    hide EncodeRow, EncodeRows, DecodeRow, DecodeRows, Decoded, Narrow, Format.White;
    var rows := TwoByTwo(f);
    var k, w := Low(0), f.White();
    assert AllHold(f, rows[0]) && AllHold(f, rows[1]) by { WhiteHolds(f); }
    var first, second := EncodeRow(f, rows[0], Blank(2), 0), EncodeRow(f, rows[1], rows[0], 0);
    EncodeTwoRows(f, rows[0], rows[1], Blank(2));
    Append(first, second, rest);
    FirstRowComesBack(f, second + rest);
    SecondRowLost(f, rest);
    DecodeTwoRows(f, Live(first + (second + rest)), Blank(2), rows[0], Live(second + rest));
  }

  lemma EncodeTwoRows(f: Format, row: seq<Word>, next: seq<Word>, last: seq<Word>)
    requires TightFormat(f) && |row| == |next| == |last|
    ensures EncodeRows(f, [row, next], last) == EncodeRow(f, row, last, 0) + EncodeRow(f, next, row, 0)
  {
    hide EncodeRow;
    assert [row, next][1..] == [next] && [next][1..] == [];
    assert EncodeRows(f, [next], row) == EncodeRow(f, next, row, 0);
  }

  lemma DecodeTwoRows(f: Format, s: Feed, last: seq<Word>, row: seq<Word>, g: Feed)
    requires f.Valid() && |row| == |last| && DecodeRow(f, s, last, []) == (row, g)
    ensures DecodeRows(f, s, last, 2).0 == [row, DecodeRow(f, g, row, []).0]
  {
    hide DecodeRow;
    assert DecodeRows(f, g, row, 1).0 == [DecodeRow(f, g, row, []).0];
  }

  lemma WhiteHolds(f: Format)
    ensures f.Holds(f.White()) && f.Holds(Low(0))
  {
  }

  lemma FirstRowComesBack(f: Format, rest: seq<byte>)
    requires TightFormat(f)
    ensures DecodeRow(f, Live(EncodeRow(f, TwoByTwo(f)[0], Blank(2), 0) + rest), Blank(2), []) == (TwoByTwo(f)[0], Live(rest))
  {
    hide EncodeRow, DecodeRow, SumPixel, PredictPixel, DifferencePixel, Narrow, Format.White, Format.Holds;
    var row := TwoByTwo(f)[0];
    WhiteHolds(f);
    BesideBlackInverts(f, Low(0));
    BesideBlackInverts(f, f.White());
    DecodeRowInverts(f, row, Blank(2), 0, rest);
    assert row[..0] == [];
  }

  lemma SecondRowLost(f: Format, rest: seq<byte>)
    requires TightFormat(f) && !Narrow(f)
    ensures var last, row := TwoByTwo(f)[0], TwoByTwo(f)[1];
            DecodeRow(f, Live(EncodeRow(f, row, last, 0) + rest), last, []).0 != row
  {
    hide EncodeRow, SumPixel, PredictPixel, DifferencePixel, Narrow, Format.White, Format.Holds;
    var last, row := TwoByTwo(f)[0], TwoByTwo(f)[1];
    WhiteHolds(f);
    BesideBlackInverts(f, f.White());
    WideLoses(f, f.White());
    DecodeNext(f, row, last, 0, rest);
    DecodeNext(f, row, last, 1, rest);
    assert row[..0] == [] && row[..0] + [row[0]] == row[..1];
  }

  /** A row as it is handed to the framebuffer. */
  function RowPixels(f: Format, row: seq<Word>): (r: seq<Pixel>)
    requires f.Valid()
    ensures |r| == |row| && forall i :: 0 <= i < |row| ==> r[i] == f.Memory(row[i])
  {
    seq(|row|, i requires 0 <= i < |row| => f.Memory(row[i]))
  }
}

/** `vnc_connection_tight_update_gradient` */
module GradientDecoder {
  import opened Bytes
  import opened Feed
  import opened Framebuffers
  import opened Gradient
  import opened Image
  import opened Input
  import opened PixelFormats
  import opened Words
  import opened ZrleDecoder

  method ReadT(rd: Reader, f: Format) returns (v: Word)
    requires rd.Usable() && f.Valid()
    modifies rd.Repr()
    ensures rd.Usable() && rd.Aside() == old(rd.Aside())
    ensures (v, rd.In()) == ReadTPixel(f, old(rd.In()))
  {
    var m := rd.ReadBytes(if f.depth == 24 then 3 else f.bpp);
    if f.depth == 24 {
      v := Or(Or(Shl(ByteWord(m[0]), f.red.shift), Shl(ByteWord(m[1]), f.green.shift)), Shl(ByteWord(m[2]), f.blue.shift));
    } else {
      v := f.Value(m);
    }
  }

  /** The body of the inner loop. */
  method NextPixel(rd: Reader, f: Format, last: array<Word>, row: array<Word>, i: nat, left: Word, upLeft: Word)
    requires rd.Usable() && f.Valid() && last != row && i < last.Length == row.Length
    requires last !in rd.Repr() && row !in rd.Repr()
    requires left == Before(row[..i], i) && upLeft == Before(last[..], i)
    modifies rd.Repr(), row
    ensures rd.Usable() && rd.Aside() == old(rd.Aside()) && row[..i + 1] == old(row[..i]) + [row[i]]
    ensures DecodeRow(f, rd.In(), last[..], row[..i + 1]) == old(DecodeRow(f, rd.In(), last[..], row[..i]))
  {
    hide SumPixel, PredictPixel, ReadTPixel, DecodeRow, Before, Reader.In;
    DecodeRowStep(f, rd.In(), last[..], row[..i]);
    var predicted := PredictPixel(f, left, last[i], upLeft);
    ghost var done := row[..i];
    var d := ReadT(rd, f);
    row[i] := SumPixel(f, d, predicted);
    assert row[..i + 1] == done + [row[i]];
  }

  /** The inner loop: one row, decoded in place over whatever `row` held. */
  method GradientRow(rd: Reader, f: Format, last: array<Word>, row: array<Word>)
    requires rd.Usable() && f.Valid() && last != row && last.Length == row.Length
    requires last !in rd.Repr() && row !in rd.Repr()
    modifies rd.Repr(), row
    ensures rd.Usable() && rd.Aside() == old(rd.Aside()) && last[..] == old(last[..])
    ensures (row[..], rd.In()) == DecodeRow(f, old(rd.In()), last[..], [])
  {
    hide SumPixel, PredictPixel, ReadTPixel, DecodeRow, Before, Reader.In, Reader.Aside, Format.Valid;
    BeforeAt(last[..], 0);
    BeforeAt([], 0);
    assert row[..0] == [];
    var upLeft, left := Low(0), Low(0);
    for i := 0 to row.Length
      invariant rd.Usable() && rd.Aside() == old(rd.Aside()) && last[..] == old(last[..])
      invariant left == Before(row[..i], i) && upLeft == Before(last[..], i)
      invariant DecodeRow(f, rd.In(), last[..], row[..i]) == old(DecodeRow(f, rd.In(), last[..], []))
    {
      ghost var done := row[..i];
      NextPixel(rd, f, last, row, i, left, upLeft);
      BeforeNext(done, row[i]);
      BeforeAt(last[..], i + 1);
      upLeft, left := last[i], row[i];
    }
    DecodeRowEnd(f, rd.In(), last[..], row[..]);
    assert row[..row.Length] == row[..];
  }

  lemma BeforeNext(row: seq<Word>, v: Word)
    ensures Before(row + [v], |row| + 1) == v
  {
  }

  lemma BeforeAt(row: seq<Word>, i: nat)
    requires i <= |row|
    ensures Before(row, i) == if i == 0 then Low(0) else row[i - 1]
  {
  }

  lemma DecodeRowStep(f: Format, s: Feed, last: seq<Word>, row: seq<Word>)
    requires f.Valid() && |row| < |last|
    ensures var (d, g) := ReadTPixel(f, s);
            DecodeRow(f, s, last, row)
            == DecodeRow(f, g, last, row + [SumPixel(f, d, PredictPixel(f, Before(row, |row|), last[|row|], Before(last, |row|)))])
  {
  }

  lemma DecodeRowEnd(f: Format, s: Feed, last: seq<Word>, row: seq<Word>)
    requires f.Valid() && |row| == |last|
    ensures DecodeRow(f, s, last, row) == (row, s)
  {
  }

  /** Input and picture after the last `h` rows of a rectangle, `last` being the row above them. */
  ghost function RunRows(fb: Framebuffer, f: Format, s: Feed, img: Image, last: seq<Word>, x: int, y: int, h: nat): (Feed, Image)
    requires f.Valid()
    decreases h
  {
    if h == 0 then (s, img)
    else
      var (row, g) := DecodeRow(f, s, last, []);
      RunRows(fb, f, g, PutRow(img, fb.Show(RowPixels(f, row)), x, y), row, x, y + 1, h - 1)
  }

  lemma RunRowsStep(fb: Framebuffer, f: Format, s: Feed, img: Image, last: seq<Word>, x: int, y: int, h: nat)
    requires f.Valid() && 0 < h
    ensures var (row, g) := DecodeRow(f, s, last, []);
            RunRows(fb, f, s, img, last, x, y, h)
            == RunRows(fb, f, g, PutRow(img, fb.Show(RowPixels(f, row)), x, y), row, x, y + 1, h - 1)
  {
  }

  lemma RunRowsEnd(fb: Framebuffer, f: Format, s: Feed, img: Image, last: seq<Word>, x: int, y: int)
    requires f.Valid()
    ensures RunRows(fb, f, s, img, last, x, y, 0) == (s, img)
  {
  }

  method DecodeAndBlt(rd: Reader, fb: Framebuffer, f: Format, lastRow: array<Word>, row: array<Word>, x: nat, y: nat, w: nat)
    requires Ready(rd, fb) && fb.Inside(x, y, w, 1) && f.Valid() && f.bpp == fb.remoteBpp
    requires lastRow != row && lastRow.Length == row.Length == w && lastRow !in rd.Repr() && row !in rd.Repr()
    modifies rd.Repr(), row, fb.buffer
    ensures Ready(rd, fb) && Surroundings(rd, fb) == old(Surroundings(rd, fb))
    ensures (row[..], rd.In()) == DecodeRow(f, old(rd.In()), old(lastRow[..]), [])
    ensures fb.Img() == PutRow(old(fb.Img()), fb.Show(RowPixels(f, row[..])), x, y)
  {
    hide PutRow, DecodeRow, Join, Pixels, Reader.In, Reader.Aside, Framebuffer.Img, Framebuffer.Slack, Framebuffer.Show;
    GradientRow(rd, f, lastRow, row);
    BytesOfRow(f, row[..]);
    fb.BltRow(Join(RowPixels(f, row[..])), x, y, w);
  }

  /** One round of the outer loop, `h` rows being to come. */
  method NextRow(rd: Reader, fb: Framebuffer, f: Format, lastRow: array<Word>, row: array<Word>, x: nat, y: nat, w: nat, ghost h: nat)
    requires Ready(rd, fb) && fb.Inside(x, y, w, 1) && f.Valid() && f.bpp == fb.remoteBpp && 0 < h
    requires lastRow != row && lastRow.Length == row.Length == w && lastRow !in rd.Repr() && row !in rd.Repr()
    modifies rd.Repr(), row, fb.buffer
    ensures Ready(rd, fb) && Surroundings(rd, fb) == old(Surroundings(rd, fb))
    ensures RunRows(fb, f, rd.In(), fb.Img(), row[..], x, y + 1, h - 1) == old(RunRows(fb, f, rd.In(), fb.Img(), lastRow[..], x, y, h))
  {
    hide RunRows, PutRow, DecodeRow, Surroundings, Format.Valid, Reader.In, Framebuffer.Img, Framebuffer.Show;
    RunRowsStep(fb, f, rd.In(), fb.Img(), lastRow[..], x, y, h);
    DecodeAndBlt(rd, fb, f, lastRow, row, x, y, w);
  }

  /**
   * The gradient rectangle.  With a depth of 24 the code stores four bytes for
   * a pixel, and, if pixels have fewer, `past` the end of the row.
   */
  method GradientUpdate(rd: Reader, fb: Framebuffer, f: Format, x: nat, y: nat, w: nat, h: nat) returns (past: bool)
    requires Ready(rd, fb) && fb.Inside(x, y, w, h) && f.Valid() && f.bpp == fb.remoteBpp
    modifies rd.Repr(), fb.buffer
    ensures Ready(rd, fb) && Surroundings(rd, fb) == old(Surroundings(rd, fb))
    ensures past <==> f.depth == 24 && f.bpp < 4 && 0 < w && 0 < h
    ensures !past ==> (rd.In(), fb.Img()) == RunRows(fb, f, old(rd.In()), old(fb.Img()), Blank(w), x, y, h)
  {
    past := f.depth == 24 && f.bpp < 4 && 0 < w && 0 < h;
    if !past {
      GradientRows(rd, fb, f, x, y, w, h);
    }
  }

  /** The outer loop. */
  method GradientRows(rd: Reader, fb: Framebuffer, f: Format, x: nat, y: nat, w: nat, h: nat)
    requires Ready(rd, fb) && fb.Inside(x, y, w, h) && f.Valid() && f.bpp == fb.remoteBpp
    modifies rd.Repr(), fb.buffer
    ensures Ready(rd, fb) && Surroundings(rd, fb) == old(Surroundings(rd, fb))
    ensures (rd.In(), fb.Img()) == RunRows(fb, f, old(rd.In()), old(fb.Img()), Blank(w), x, y, h)
  {
    hide RunRows, PutRow, DecodeRow, Surroundings, Format.Valid, Reader.In, Framebuffer.Img, Framebuffer.Show;
    ghost var end := RunRows(fb, f, rd.In(), fb.Img(), Blank(w), x, y, h);
    var lastRow := new Word[w](_ => Low(0));
    var row := new Word[w](_ => Low(0));
    assert lastRow[..] == Blank(w);
    for j := 0 to h
      invariant Ready(rd, fb) && Surroundings(rd, fb) == old(Surroundings(rd, fb))
      invariant lastRow != row && fresh(lastRow) && fresh(row) && lastRow.Length == row.Length == w
      invariant RunRows(fb, f, rd.In(), fb.Img(), lastRow[..], x, y + j, h - j) == end
    {
      NextRow(rd, fb, f, lastRow, row, x, y + j, w, h - j);
      lastRow, row := row, lastRow;
    }
    RunRowsEnd(fb, f, rd.In(), fb.Img(), lastRow[..], x, y + h);
  }

  lemma BytesOfRow(f: Format, row: seq<Word>)
    requires f.Valid()
    ensures |Join(RowPixels(f, row))| == |row| * f.bpp && Pixels(Join(RowPixels(f, row)), f.bpp) == RowPixels(f, row)
  {
    JoinLength(RowPixels(f, row), f.bpp);
    JoinPixels(RowPixels(f, row), f.bpp);
  }

  function ShownRows(fb: Framebuffer, f: Format, rows: seq<seq<Word>>): (r: seq<seq<Pixel>>)
    requires f.Valid()
    ensures |r| == |rows| && forall j :: 0 <= j < |rows| ==> r[j] == fb.Show(RowPixels(f, rows[j]))
  {
    seq(|rows|, j requires 0 <= j < |rows| => fb.Show(RowPixels(f, rows[j])))
  }

  lemma {:induction false} RunRowsDecodes(fb: Framebuffer, f: Format, s: Feed, img: Image, last: seq<Word>, x: int, y: int, h: nat)
    requires f.Valid()
    ensures var (rows, g) := DecodeRows(f, s, last, h);
            RunRows(fb, f, s, img, last, x, y, h) == (g, PutRows(img, ShownRows(fb, f, rows), x, y))
    decreases h
  {
    hide DecodeRow, Framebuffer.Show, PutRow, PutRows;
    if h == 0 {
      PutRowsNothing(img, x, y);
    } else {
      var (row, g) := DecodeRow(f, s, last, []);
      var (rows, t) := DecodeRows(f, g, row, h - 1);
      var first := fb.Show(RowPixels(f, row));
      RunRowsDecodes(fb, f, g, PutRow(img, first, x, y), row, x, y + 1, h - 1);
      assert ShownRows(fb, f, [row] + rows) == [first] + ShownRows(fb, f, rows);
      PutFirstRow(img, first, ShownRows(fb, f, rows), x, y);
    }
  }

  /**
   * The gradient filter is undone: an image of any size, in a format with two
   * bits to spare, arrives pixel for pixel and exactly its bytes are consumed.
   */
  lemma GradientInverts(fb: Framebuffer, f: Format, img: Image, rows: seq<seq<Word>>, last: seq<Word>, x: int, y: int, rest: seq<byte>)
    requires TightFormat(f) && Narrow(f) && Picture(f, rows, |last|)
    ensures RunRows(fb, f, Live(EncodeRows(f, rows, last) + rest), img, last, x, y, |rows|)
         == (Live(rest), PutRows(img, ShownRows(fb, f, rows), x, y))
  {
    hide RunRows, Narrow;
    DecodeRowsInverts(f, rows, last, rest);
    RunRowsDecodes(fb, f, Live(EncodeRows(f, rows, last) + rest), img, last, x, y, |rows|);
  }
}
