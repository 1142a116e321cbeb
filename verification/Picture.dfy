/** ZRLE pictures of pixel values, from the values meant to the colours shown. */
module Pictures {
  import opened Arith
  import opened Bytes
  import opened Feed
  import opened Framebuffers
  import opened Image
  import opened PixelFormats
  import opened Screen
  import opened Tiles
  import opened Words
  import opened ZrleCodec
  import opened ZrleRect
  import opened ZrleTiles

  /** The picture as the server lays its values out in bytes. */
  function InBytes(f: Format, pic: Pt -> Word): Pt -> Pixel
    requires f.Valid()
  {
    q requires f.Valid() => f.Memory(pic(q))
  }

  /** Every value of the `w` by `h` picture is one of the format's. */
  ghost predicate Held(f: Format, pic: Pt -> Word, w: nat, h: nat)
  {
    forall i, j | 0 <= i < w && 0 <= j < h :: f.Holds(pic(Pt(i, j)))
  }

  /** Some choice of encodings sends the whole picture. */
  ghost predicate Sendable(f: Format, pic: Pt -> Word, w: nat, h: nat)
    requires f.Valid()
  {
    exists es :: SendsAll(es, f.Compressed(), Walk(w, h, 64, 0, 0), InBytes(f, pic))
  }

  /* With no channel in the byte that is dropped, raw tiles send anything. */

  function RawPixels(f: Format, pic: Pt -> Word, t: Tile): (r: seq<Pixel>)
    requires f.Valid()
    ensures |r| == Area(t.w, t.h)
  {
    seq(Area(t.w, t.h), k requires 0 <= k < Area(t.w, t.h) => if t.w == 0 then [] else f.Memory(pic(Pt(t.x + k % t.w, t.y + k / t.w))))
  }

  lemma RawPixelAt(f: Format, pic: Pt -> Word, t: Tile, i: nat, j: nat)
    requires f.Valid() && i < t.w && j < t.h
    ensures SendsAt(RawPixels(f, pic, t), t, InBytes(f, pic), i, j)
  {
    hide Cell, Format.Memory;
    CellWalk(i, j, t.w, t.h);
    CellDigits(i, j, t.w);
  }

  lemma RawTileSends(f: Format, pic: Pt -> Word, t: Tile, w: nat, h: nat)
    requires f.Valid() && Lossless(f) && Held(f, pic, w, h) && t.x + t.w <= w && t.y + t.h <= h
    ensures Sends(RawTile(RawPixels(f, pic, t)), f.Compressed(), t, InBytes(f, pic))
  {
    hide Lossless, Format.Compressed, SendsAt, CPixel.Compact, Format.Memory, Format.Holds;
    var c, ps := f.Compressed(), RawPixels(f, pic, t);
    CPixelsLossless(f);
    forall k | 0 <= k < |ps|
      ensures c.Compact(ps[k])
    {
      InTile(k, t.w, t.h);
      assert f.Holds(pic(Pt(t.x + k % t.w, t.y + k / t.w)));
    }
    forall i, j | 0 <= i < t.w && 0 <= j < t.h
      ensures SendsAt(ps, t, InBytes(f, pic), i, j)
    {
      RawPixelAt(f, pic, t, i, j);
    }
  }

  lemma InTile(k: nat, w: nat, h: nat)
    requires k < Area(w, h)
    ensures 0 < w && 0 <= k % w < w && 0 <= k / w < h
  {
    assert 0 < w;
    if h <= k / w {
      StrideMonotone(h, k / w, w);
    }
  }

  lemma RawTilesSend(f: Format, pic: Pt -> Word, w: nat, h: nat)
    requires f.Valid() && Lossless(f) && Held(f, pic, w, h)
    ensures Sendable(f, pic, w, h)
  {
    hide Lossless, Sends, Walk, Held;
    var tiles := Walk(w, h, 64, 0, 0);
    var es := seq(|tiles|, k requires 0 <= k < |tiles| => RawTile(RawPixels(f, pic, tiles[k])));
    forall k | 0 <= k < |tiles|
      ensures Sends(es[k], f.Compressed(), tiles[k], InBytes(f, pic))
    {
      WalkInside(w, h, 64, 0, 0, k);
      RawTileSends(f, pic, tiles[k], w, h);
    }
    assert SendsAll(es, f.Compressed(), tiles, InBytes(f, pic));
  }

  /* Otherwise some picture cannot be sent: every encoding is made of compressed pixels. */

  lemma MeaningCompact(e: Encoding, c: CPixel, w: nat, h: nat)
    requires c.Fits() && Legal(e, c, w, h)
    ensures c.AllCompact(Meaning(e, c, w, h))
  {
    hide CPixel.Compact;
    match e
    case RawTile(ps) =>
    case SolidTile(p) =>
    case PackedTile(pal, rows, pads) => FlattenFits(rows, w, |pal|);
    case RunsTile(runs) => ExpandCompact(c, runs);
    case PaletteRunsTile(pal, runs) => ExpandPCompact(c, pal, runs);
  }

  lemma {:induction false} FlattenFits(rows: seq<seq<int>>, w: nat, size: nat)
    requires forall j :: 0 <= j < |rows| ==> LegalRow(rows[j], w, size)
    ensures forall i :: 0 <= i < |Flatten(rows)| ==> 0 <= Flatten(rows)[i] < size
  {
    if rows != [] {
      assert LegalRow(rows[0], w, size);
      FlattenFits(rows[1..], w, size);
    }
  }

  lemma {:induction false} ExpandCompact(c: CPixel, runs: seq<Run>)
    requires c.Fits() && LegalRuns(c, runs)
    ensures c.AllCompact(Expand(runs))
  {
    hide CPixel.Compact;
    if runs != [] {
      ExpandCompact(c, runs[1..]);
    }
  }

  lemma {:induction false} ExpandPCompact(c: CPixel, palette: seq<Pixel>, runs: seq<PRun>)
    requires c.Fits() && c.AllCompact(palette) && LegalPRuns(|palette|, runs)
    ensures c.AllCompact(ExpandP(runs, palette))
  {
    hide CPixel.Compact;
    if runs != [] {
      ExpandPCompact(c, palette, runs[1..]);
    }
  }

  /** Every picture of values of the format can be sent exactly if its CPIXELs lose nothing. */
  lemma SendableIffLossless(f: Format, w: nat, h: nat)
    requires f.Valid() && 0 < w && 0 < h
    ensures Lossless(f) <==> forall pic | Held(f, pic, w, h) :: Sendable(f, pic, w, h)
  {
    hide Lossless, Format.Holds, Format.Memory, Format.Compressed, CPixel.Compact, CPixel.Fits, SendsAll, Walk;
    if Lossless(f) {
      forall pic | Held(f, pic, w, h)
        ensures Sendable(f, pic, w, h)
      {
        RawTilesSend(f, pic, w, h);
      }
    } else {
      CPixelsLossless(f);
      var v: Word :| f.Holds(v) && !f.Compressed().Compact(f.Memory(v));
      var plain: Pt -> Word := _ => v;
      assert Held(f, plain, w, h);
      if es :| SendsAll(es, f.Compressed(), Walk(w, h, 64, 0, 0), InBytes(f, plain)) {
        FirstCompact(f, plain, es, w, h);
      }
    }
  }

  lemma FirstCompact(f: Format, pic: Pt -> Word, es: seq<Encoding>, w: nat, h: nat)
    requires f.Valid() && 0 < w && 0 < h && SendsAll(es, f.Compressed(), Walk(w, h, 64, 0, 0), InBytes(f, pic))
    ensures f.Compressed().Compact(f.Memory(pic(Pt(0, 0))))
  {
    hide Meaning, Legal, Format.Compressed, CPixel.Compact;
    var c, t := f.Compressed(), Walk(w, h, 64, 0, 0)[0];
    assert Sends(es[0], c, t, InBytes(f, pic));
    MeaningCompact(es[0], c, t.w, t.h);
    assert SendsAt(Meaning(es[0], c, t.w, t.h), t, InBytes(f, pic), 0, 0);
  }

  /**
   * From the values meant to the colours shown: when a framebuffer opened for
   * the two formats has decoded a ZRLE rectangle, in whatever encodings it was
   * sent, each of its pixels shows the colours of the value meant for it.
   */
  lemma ZrleShowsColours(fb: Framebuffer, remote: Format, local: Format, colours: ColourMap, hostBigEndian: bool, img: Image,
                         es: seq<Encoding>, pic: Pt -> Word, data: seq<byte>, inflate: seq<byte> -> seq<seq<byte>>,
                         stacks: Tile -> seq<Pixel>, x: int, y: int, w: nat, h: nat, rest: seq<byte>)
    requires remote.Valid() && local.Valid() && AlphaApart(local) && InOrder(remote, hostBigEndian)
    requires RendersFor(fb, remote, local, colours, hostBigEndian)
    requires Held(remote, pic, w, h) && Stacks(stacks) && |data| < 0x1_0000_0000 && (data != [] || w == 0 || h == 0)
    requires SendsAll(es, remote.Compressed(), Walk(w, h, 64, 0, 0), InBytes(remote, pic))
    requires Concat(inflate(data)) == EncodeTiles(es, remote.Compressed(), Walk(w, h, 64, 0, 0))
    ensures var (g, img') := RunRect(fb, Live(EncU32(|data|) + (data + rest)), img, remote.Compressed(), inflate, stacks, x, y, w, h);
            && g == Live(rest) && img'.Keys == img.Keys
            && forall p :: p in img ==>
                 if InRect(p, x, y, w, h) then ShowsColours(remote, local, colours, pic(Pt(p.x - x, p.y - y)), img'[p])
                 else img'[p] == img[p]
  {
    hide SendsAll, Walk, RunRect, Renders, RendersFor, ShowsColours, Format.Compressed, Format.Memory, Format.Value, Format.Holds;
    RectShowsPicture(fb, img, remote.Compressed(), es, InBytes(remote, pic), data, inflate, stacks, x, y, w, h, rest);
    var img' := RunRect(fb, Live(EncU32(|data|) + (data + rest)), img, remote.Compressed(), inflate, stacks, x, y, w, h).1;
    forall p | p in img && InRect(p, x, y, w, h)
      ensures ShowsColours(remote, local, colours, pic(Pt(p.x - x, p.y - y)), img'[p])
    {
      var v := pic(Pt(p.x - x, p.y - y));
      HeldReadsBack(remote, v);
      EitherPathShowsColours(fb, remote, local, colours, hostBigEndian, remote.Memory(v), img'[p]);
    }
  }

  lemma HeldReadsBack(f: Format, v: Word)
    requires f.Valid() && f.Holds(v)
    ensures f.Value(f.Memory(v)) == v
  {
    f.ValueInverts(v);
  }
}
