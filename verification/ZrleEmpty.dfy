/** What becomes of a ZRLE rectangle that comes with no data. */
module ZrleEmpty {
  import opened Arith
  import opened Bytes
  import opened Feed
  import opened Framebuffers
  import opened Image
  import opened Tiles
  import opened ZrleCodec
  import ZrleDecoder
  import opened ZrleRect
  import opened ZrleTiles

  /** Reading has not made the input longer ... */
  predicate NoLonger(f: Feed, g: Feed)
  {
    g.Dead? || (f.Live? && |g.rest| <= |f.rest|)
  }

  /** ... but shorter, or ended it. */
  predicate Shorter(f: Feed, g: Feed)
  {
    g.Dead? || (f.Live? && |g.rest| < |f.rest|)
  }

  lemma {:induction false} ReadManyNoLonger(f: Feed, c: CPixel, n: nat)
    requires c.Fits()
    ensures NoLonger(f, c.ReadMany(f, n).1)
    decreases n
  {
    if n != 0 {
      ReadManyNoLonger(c.Read(f).1, c, n - 1);
    }
  }

  lemma {:induction false} ReadPackedNoLonger(f: Feed, bits: nat, n: nat, pi: byte, left: nat)
    requires IsWidth(bits) && left <= 8 && left % bits == 0
    ensures NoLonger(f, ReadPacked(f, bits, n, pi, left).1)
    decreases n
  {
    hide Field;
    if n != 0 {
      var (b, g) := if left == 0 then TakeU8(f) else (pi, f);
      ReadPackedNoLonger(g, bits, n - 1, b, (if left == 0 then 8 else left) - bits);
    }
  }

  lemma {:induction false} ReadIndicesNoLonger(f: Feed, bits: nat, w: nat, h: nat)
    requires IsWidth(bits)
    ensures NoLonger(f, ReadIndices(f, bits, w, h).1)
    decreases h
  {
    hide ReadPacked;
    if h != 0 {
      ReadPackedNoLonger(f, bits, w, 0, 0);
      ReadIndicesNoLonger(ReadPacked(f, bits, w, 0, 0).1, bits, w, h - 1);
    }
  }

  lemma {:induction false} ReadRunNoLonger(f: Feed)
    ensures NoLonger(f, ReadRun(f).1)
    decreases if f.Live? then |f.rest| else 0
  {
    var (b, g) := TakeU8(f);
    if g.Live? && b == 255 {
      ReadRunNoLonger(g);
    }
  }

  lemma {:induction false} ReadRunsNoLonger(f: Feed, c: CPixel, n: nat, p: Pixel, rl: nat)
    requires c.Fits()
    ensures NoLonger(f, ReadRuns(f, c, n, p, rl).1)
    decreases n
  {
    hide ReadRun;
    if n != 0 {
      var (q, g) := if rl == 0 then c.Read(f) else (p, f);
      var (k, h) := if rl == 0 then ReadRun(g) else (rl, g);
      ReadRunNoLonger(g);
      ReadRunsNoLonger(h, c, n - 1, q, k - 1);
    }
  }

  lemma {:induction false} ReadPRunsNoLonger(f: Feed, palette: seq<Pixel>, n: nat, pi: nat, rl: nat)
    requires |palette| == 128 && pi < 128
    ensures NoLonger(f, ReadPRuns(f, palette, n, pi, rl).1)
    decreases n
  {
    hide ReadRun;
    if n != 0 {
      var (i, k, g) := if rl == 0 then ReadPRun(f) else (pi, rl, f);
      ReadRunNoLonger(TakeU8(f).1);
      ReadPRunsNoLonger(g, palette, n - 1, i, k - 1);
    }
  }

  /** Every tile takes at least its subencoding byte. */
  lemma ReadTileShorter(f: Feed, c: CPixel, w: nat, h: nat, stack: seq<Pixel>)
    requires c.Fits() && |stack| == 128
    ensures Shorter(f, ReadTile(f, c, w, h, stack).1)
  {
    hide CPixel.ReadMany, ReadIndices, ReadRuns, ReadPRuns, Area;
    var (s, g) := TakeU8(f);
    ReadManyNoLonger(g, c, Area(w, h));
    if 2 <= s <= 16 {
      var (pal, d) := c.ReadMany(g, s);
      ReadManyNoLonger(g, c, s);
      ReadIndicesNoLonger(d, IndexBits(s), w, h);
    } else if s == 128 {
      ReadRunsNoLonger(g, c, Area(w, h), [], 0);
    } else if 130 <= s {
      var (pal, d) := c.ReadMany(g, s - 128);
      ReadManyNoLonger(g, c, s - 128);
      ReadPRunsNoLonger(d, Overlay(pal, stack), Area(w, h), 0, 0);
    }
  }

  lemma {:induction false} TilesShorter(fb: Framebuffer, f: Feed, img: Image, c: CPixel, tiles: seq<Tile>,
                                        stacks: Tile -> seq<Pixel>, x: int, y: int)
    requires c.Fits() && Stacks(stacks)
    ensures NoLonger(f, RunTiles(fb, f, img, c, tiles, stacks, x, y).0)
    ensures tiles != [] ==> Shorter(f, RunTiles(fb, f, img, c, tiles, stacks, x, y).0)
    decreases |tiles|
  {
    hide ReadTile, ZrleDecoder.Draw;
    if tiles != [] {
      var t := tiles[0];
      ReadTileShorter(f, c, t.w, t.h, stacks(t));
      var (d, g) := ReadTile(f, c, t.w, t.h, stacks(t));
      TilesShorter(fb, g, ZrleDecoder.Draw(fb, img, d, x + t.x, y + t.y, t.w), c, tiles[1..], stacks, x, y);
    }
  }

  /**
   * A rectangle whose tiles decode is taken off the stream with exactly its
   * data if and only if it has data, or no tiles.  One without data goes on to
   * eat into what follows it.
   */
  lemma TakesItsDataIffAny(fb: Framebuffer, img: Image, c: CPixel, data: seq<byte>, inflate: seq<byte> -> seq<seq<byte>>,
                           stacks: Tile -> seq<Pixel>, x: int, y: int, w: nat, h: nat, rest: seq<byte>)
    requires c.Fits() && Stacks(stacks) && |data| < 0x1_0000_0000
    requires data != [] ==> RunTiles(fb, Live(Concat(inflate(data))), img, c, Walk(w, h, 64, 0, 0), stacks, x, y).0.Live?
    ensures RunRect(fb, Live(EncU32(|data|) + (data + rest)), img, c, inflate, stacks, x, y, w, h).0 == Live(rest)
        <==> data != [] || w == 0 || h == 0
  {
    NoTiles(w, h);
    TilesShorter(fb, Live(rest), img, c, Walk(w, h, 64, 0, 0), stacks, x, y);
    RunNothing(fb, Live(rest), img, c, stacks, x, y);
    hide RunTiles, Walk, TakeU32, Take, EncU32;
    assert [] + rest == rest;
    TakeU32Prefix(|data|, data + rest);
    TakePrefix(data, rest);
  }
}
