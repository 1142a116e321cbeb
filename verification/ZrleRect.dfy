/** A ZRLE rectangle: the zlib stream, the walk over its tiles, and the picture that results. */
module ZrleRect {
  import opened Arith
  import opened Bytes
  import opened Feed
  import opened Framebuffers
  import opened Image
  import opened Input
  import opened Tiles
  import opened ZrleCodec
  import opened ZrleDecoder
  import opened ZrleTiles

  /** What the palette array happens to hold when a tile is started. */
  ghost predicate Stacks(stacks: Tile -> seq<Pixel>)
  {
    forall t :: |stacks(t)| == 128
  }

  /** Input and picture after the tiles have been decoded one after the other. */
  ghost function RunTiles(fb: Framebuffer, f: Feed, img: Image, c: CPixel, tiles: seq<Tile>,
                          stacks: Tile -> seq<Pixel>, x: int, y: int): (Feed, Image)
    requires c.Fits() && Stacks(stacks)
    decreases tiles
  {
    if tiles == [] then (f, img)
    else
      var t := tiles[0];
      var (d, g) := ReadTile(f, c, t.w, t.h, stacks(t));
      RunTiles(fb, g, Draw(fb, img, d, x + t.x, y + t.y, t.w), c, tiles[1..], stacks, x, y)
  }

  lemma RunTilesStep(fb: Framebuffer, f: Feed, img: Image, c: CPixel, w: nat, h: nat, i: nat, j: nat,
                     stacks: Tile -> seq<Pixel>, x: int, y: int)
    requires c.Fits() && Stacks(stacks) && i < w && j < h
    ensures var t := Tile(i, j, Min(64, w - i), Min(64, h - j));
            var (d, g) := ReadTile(f, c, t.w, t.h, stacks(t));
            RunTiles(fb, f, img, c, Walk(w, h, 64, i, j), stacks, x, y)
            == RunTiles(fb, g, Draw(fb, img, d, x + t.x, y + t.y, t.w), c, Walk(w, h, 64, i + 64, j), stacks, x, y)
  {
    hide ReadTile, Draw;
    var t := Tile(i, j, Min(64, w - i), Min(64, h - j));
    assert Walk(w, h, 64, i, j) == [t] + Walk(w, h, 64, i + 64, j);
    assert ([t] + Walk(w, h, 64, i + 64, j))[1..] == Walk(w, h, 64, i + 64, j);
  }

  /** A 16-bit counter within its range steps by 64. */
  lemma CounterStep(i: nat, extent: nat)
    requires i < extent <= 65472 && i % 64 == 0
    ensures (i + 64) % 0x1_0000 == i + 64 && (i + 64) % 64 == 0
  {
  }

  /** The inner of the tile loops of `vnc_connection_zrle_update`, with its 16-bit counter. */
  method DecodeTileRow(rd: Reader, fb: Framebuffer, c: CPixel, stacks: Tile -> seq<Pixel>, x: nat, y: nat, w: nat, h: nat, j: nat)
    requires Ready(rd, fb) && fb.Inside(x, y, w, h) && c.Fits() && c.bpp == fb.remoteBpp && Stacks(stacks)
    requires w <= 65472 && j < h
    modifies rd.Repr(), fb.buffer
    ensures Ready(rd, fb) && Surroundings(rd, fb) == old(Surroundings(rd, fb))
    ensures RunTiles(fb, rd.In(), fb.Img(), c, Walk(w, h, 64, 0, j + 64), stacks, x, y)
         == RunTiles(fb, old(rd.In()), old(fb.Img()), c, Walk(w, h, 64, 0, j), stacks, x, y)
  {
    hide RunTiles, ReadTile, Draw, Surroundings, Reader.In, Framebuffer.Img, Walk;
    ghost var end := RunTiles(fb, rd.In(), fb.Img(), c, Walk(w, h, 64, 0, j), stacks, x, y);
    var i := 0;
    while i < w
      invariant Ready(rd, fb) && Surroundings(rd, fb) == old(Surroundings(rd, fb)) && 0 <= i && i % 64 == 0
      invariant RunTiles(fb, rd.In(), fb.Img(), c, Walk(w, h, 64, i, j), stacks, x, y) == end
      decreases w - i
    {
      var tw, th := Min(w - i, 64), Min(h - j, 64);
      RunTilesStep(fb, rd.In(), fb.Img(), c, w, h, i, j, stacks, x, y);
      DecodeTile(rd, fb, c, stacks(Tile(i, j, tw, th)), x + i, y + j, tw, th);
      CounterStep(i, w);
      i := (i + 64) % 0x1_0000;
    }
    WalkRowEnds(w, h, i, j);
  }

  /** The tile loops. */
  method DecodeTiles(rd: Reader, fb: Framebuffer, c: CPixel, stacks: Tile -> seq<Pixel>, x: nat, y: nat, w: nat, h: nat)
    requires Ready(rd, fb) && fb.Inside(x, y, w, h) && c.Fits() && c.bpp == fb.remoteBpp && Stacks(stacks)
    requires w <= 65472 && h <= 65472
    modifies rd.Repr(), fb.buffer
    ensures Ready(rd, fb) && Surroundings(rd, fb) == old(Surroundings(rd, fb))
    ensures (rd.In(), fb.Img()) == RunTiles(fb, old(rd.In()), old(fb.Img()), c, Walk(w, h, 64, 0, 0), stacks, x, y)
  {
    hide RunTiles, ReadTile, Draw, Surroundings, Reader.In, Framebuffer.Img, Walk;
    ghost var end := RunTiles(fb, rd.In(), fb.Img(), c, Walk(w, h, 64, 0, 0), stacks, x, y);
    var j := 0;
    while j < h
      invariant Ready(rd, fb) && Surroundings(rd, fb) == old(Surroundings(rd, fb)) && 0 <= j && j % 64 == 0
      invariant RunTiles(fb, rd.In(), fb.Img(), c, Walk(w, h, 64, 0, j), stacks, x, y) == end
      decreases h - j
    {
      DecodeTileRow(rd, fb, c, stacks, x, y, w, h, j);
      CounterStep(j, h);
      j := (j + 64) % 0x1_0000;
    }
    WalkEnds(w, h, j);
    RunNothing(fb, rd.In(), fb.Img(), c, stacks, x, y);
  }

  lemma WalkRowEnds(w: nat, h: nat, i: nat, j: nat)
    requires w <= i && j < h
    ensures Walk(w, h, 64, i, j) == Walk(w, h, 64, 0, j + 64)
  {
  }

  lemma WalkEnds(w: nat, h: nat, j: nat)
    requires h <= j
    ensures Walk(w, h, 64, 0, j) == []
  {
  }

  lemma RunNothing(fb: Framebuffer, f: Feed, img: Image, c: CPixel, stacks: Tile -> seq<Pixel>, x: int, y: int)
    requires c.Fits() && Stacks(stacks)
    ensures RunTiles(fb, f, img, c, [], stacks, x, y) == (f, img)
  {
  }

  /**
   * Input and picture after a whole rectangle; `inflate` is what zlib makes of
   * the rectangle's data.  No data leave the compressed buffer NULL, and reads
   * are not directed at it: the tiles then come off the socket's stream.
   */
  ghost function RunRect(fb: Framebuffer, f: Feed, img: Image, c: CPixel, inflate: seq<byte> -> seq<seq<byte>>,
                         stacks: Tile -> seq<Pixel>, x: int, y: int, w: nat, h: nat): (Feed, Image)
    requires c.Fits() && Stacks(stacks)
  {
    var (length, g) := TakeU32(f);
    if length == 0 then RunTiles(fb, g, img, c, Walk(w, h, 64, 0, 0), stacks, x, y)
    else
      var (data, e) := Take(g, length);
      var (d, img') := RunTiles(fb, if e.Live? then Live(Concat(inflate(data))) else Dead, img, c, Walk(w, h, 64, 0, 0), stacks, x, y);
      (if d.Live? then e else Dead, img')
  }

  /** `vnc_connection_zrle_update` */
  method ZrleUpdate(rd: Reader, fb: Framebuffer, c: CPixel, inflate: seq<byte> -> seq<seq<byte>>,
                    stacks: Tile -> seq<Pixel>, x: nat, y: nat, w: nat, h: nat)
    requires Ready(rd, fb) && !rd.compressed && fb.Inside(x, y, w, h) && c.Fits() && c.bpp == fb.remoteBpp && Stacks(stacks)
    requires forall d, i :: 0 <= i < |inflate(d)| ==> |inflate(d)[i]| <= BUFFER_SIZE
    requires w <= 65472 && h <= 65472
    modifies rd.Repr(), fb.buffer
    ensures Ready(rd, fb) && !rd.compressed && fb.Slack() == old(fb.Slack())
    ensures (rd.In(), fb.Img()) == RunRect(fb, old(rd.In()), old(fb.Img()), c, inflate, stacks, x, y, w, h)
  {
    hide RunTiles, Walk, TakeU32, Take, Reader.In, Surroundings, Framebuffer.Img, Framebuffer.Slack;
    var length := rd.ReadU32();
    TakeNothing(rd.In());
    var zlibData := rd.ReadBytes(length);
    if length == 0 {
      DecodeDirect(rd, fb, c, stacks, x, y, w, h);
    } else {
      DecodeInflated(rd, fb, c, inflate(zlibData), stacks, x, y, w, h);
    }
  }

  lemma TakeNothing(f: Feed)
    ensures Take(f, 0) == ([], f)
  {
    assert f.Live? ==> f.rest[..0] == [] && f.rest[0..] == f.rest;
  }

  /** With the reads left at the socket. */
  method DecodeDirect(rd: Reader, fb: Framebuffer, c: CPixel, stacks: Tile -> seq<Pixel>, x: nat, y: nat, w: nat, h: nat)
    requires Ready(rd, fb) && !rd.compressed && fb.Inside(x, y, w, h) && c.Fits() && c.bpp == fb.remoteBpp && Stacks(stacks)
    requires w <= 65472 && h <= 65472
    modifies rd.Repr(), fb.buffer
    ensures Ready(rd, fb) && !rd.compressed && fb.Slack() == old(fb.Slack())
    ensures (rd.In(), fb.Img()) == RunTiles(fb, old(rd.In()), old(fb.Img()), c, Walk(w, h, 64, 0, 0), stacks, x, y)
  {
    hide RunTiles, Walk, Framebuffer.Img, Framebuffer.Slack;
    DecodeTiles(rd, fb, c, stacks, x, y, w, h);
  }

  /** With the reads directed at the inflated data. */
  method DecodeInflated(rd: Reader, fb: Framebuffer, c: CPixel, outputs: seq<seq<byte>>,
                        stacks: Tile -> seq<Pixel>, x: nat, y: nat, w: nat, h: nat)
    requires Ready(rd, fb) && !rd.compressed && fb.Inside(x, y, w, h) && c.Fits() && c.bpp == fb.remoteBpp && Stacks(stacks)
    requires forall i :: 0 <= i < |outputs| ==> |outputs[i]| <= BUFFER_SIZE
    requires w <= 65472 && h <= 65472
    modifies rd.Repr(), fb.buffer
    ensures Ready(rd, fb) && !rd.compressed && fb.Slack() == old(fb.Slack())
    ensures var f := old(rd.In());
            var (d, img) := RunTiles(fb, if f.Live? then Live(Concat(outputs)) else Dead, old(fb.Img()), c,
                                     Walk(w, h, 64, 0, 0), stacks, x, y);
            rd.In() == (if d.Live? then f else Dead) && fb.Img() == img
  {
    hide RunTiles, Walk, Framebuffer.Img, Framebuffer.Slack;
    RunFromDead(fb, fb.Img(), c, Walk(w, h, 64, 0, 0), stacks, x, y);
    rd.StartInflating(outputs);
    DecodeTiles(rd, fb, c, stacks, x, y, w, h);
    rd.StopInflating();
  }

  lemma {:induction false} ReadManyFromDead(c: CPixel, n: nat)
    requires c.Fits()
    ensures c.ReadMany(Dead, n).1 == Dead
  {
    if n != 0 {
      ReadManyFromDead(c, n - 1);
    }
  }

  lemma {:induction false} RunFromDead(fb: Framebuffer, img: Image, c: CPixel, tiles: seq<Tile>,
                                       stacks: Tile -> seq<Pixel>, x: int, y: int)
    requires c.Fits() && Stacks(stacks)
    ensures RunTiles(fb, Dead, img, c, tiles, stacks, x, y).0 == Dead
    decreases |tiles|
  {
    hide Draw;
    if tiles != [] {
      var t := tiles[0];
      ReadManyFromDead(c, t.w * t.h);
      RunFromDead(fb, Draw(fb, img, ReadTile(Dead, c, t.w, t.h, stacks(t)).0, x + t.x, y + t.y, t.w), c, tiles[1..], stacks, x, y);
    }
  }

  /* The picture that an encoder meant. */

  /** Encoding `e` sends the part of picture `pic` that tile `t` covers. */
  ghost predicate Sends(e: Encoding, c: CPixel, t: Tile, pic: Pt -> Pixel)
    requires c.Fits()
  {
    && Legal(e, c, t.w, t.h) && |Meaning(e, c, t.w, t.h)| == t.w * t.h
    && forall i, j :: 0 <= i < t.w && 0 <= j < t.h ==> SendsAt(Meaning(e, c, t.w, t.h), t, pic, i, j)
  }

  ghost predicate SendsAt(pixels: seq<Pixel>, t: Tile, pic: Pt -> Pixel, i: int, j: int)
  {
    0 <= Cell(i, j, t.w) < |pixels| && pixels[Cell(i, j, t.w)] == pic(Pt(t.x + i, t.y + j))
  }

  ghost predicate SendsAll(es: seq<Encoding>, c: CPixel, tiles: seq<Tile>, pic: Pt -> Pixel)
    requires c.Fits()
  {
    |es| == |tiles| && forall k :: 0 <= k < |es| ==> Sends(es[k], c, tiles[k], pic)
  }

  ghost function EncodeTiles(es: seq<Encoding>, c: CPixel, tiles: seq<Tile>): seq<byte>
    requires c.Fits() && |es| == |tiles| && forall k :: 0 <= k < |es| ==> Legal(es[k], c, tiles[k].w, tiles[k].h)
  {
    if es == [] then [] else Encode(es[0], c, tiles[0].w, tiles[0].h) + EncodeTiles(es[1..], c, tiles[1..])
  }

  /** `img'` shows `pic` on the pixels that some tile covers and agrees with `img` elsewhere. */
  ghost predicate Shows(fb: Framebuffer, img': Image, img: Image, tiles: seq<Tile>, pic: Pt -> Pixel, x: int, y: int)
  {
    img'.Keys == img.Keys && forall p :: p in img ==> ShowsAt(fb, img', img, tiles, pic, p, Pt(p.x - x, p.y - y))
  }

  ghost predicate ShowsAt(fb: Framebuffer, img': Image, img: Image, tiles: seq<Tile>, pic: Pt -> Pixel, p: Pt, q: Pt)
    requires p in img && p in img'
  {
    if 0 < Hits(tiles, q) then Renders(fb, pic(q), img'[p]) else img'[p] == img[p]
  }

  lemma DrawShows(fb: Framebuffer, img: Image, d: Drawn, t: Tile, pic: Pt -> Pixel, x: int, y: int, p: Pt)
    requires p in img && |d.pixels| == t.w * t.h
    requires forall i, j :: 0 <= i < t.w && 0 <= j < t.h ==> SendsAt(d.pixels, t, pic, i, j)
    ensures ShowsAt(fb, Draw(fb, img, d, x + t.x, y + t.y, t.w), img, [t], pic, p, Pt(p.x - x, p.y - y))
  {
    hide Cell, Renders;
    var i, j := p.x - x - t.x, p.y - y - t.y;
    HitsOne(t, Pt(p.x - x, p.y - y));
    assert p.x - (x + t.x) == i && p.y - (y + t.y) == j;
    if 0 <= i < t.w {
      RowOfCell(i, j, t.h, t.w);
      CellWalk(0, 0, t.w, t.h);
      if 0 <= j < t.h {
        assert SendsAt(d.pixels, t, pic, i, j);
        var k := Cell(i, j, t.w);
        RenderedEitherWay(fb, d, k);
        assert Pt(t.x + i, t.y + j) == Pt(p.x - x, p.y - y);
      }
    }
  }

  lemma RenderedEitherWay(fb: Framebuffer, d: Drawn, k: nat)
    requires k < |d.pixels|
    ensures Renders(fb, d.pixels[k], (if d.direct then fb.Show(d.pixels) else fb.Stored(d.pixels))[k])
  {
  }

  lemma ShowsInTurn(fb: Framebuffer, img': Image, mid: Image, img: Image, tiles: seq<Tile>, pic: Pt -> Pixel, p: Pt, q: Pt)
    requires tiles != [] && p in img && p in mid && p in img'
    requires ShowsAt(fb, mid, img, [tiles[0]], pic, p, q) && ShowsAt(fb, img', mid, tiles[1..], pic, p, q)
    ensures ShowsAt(fb, img', img, tiles, pic, p, q)
  {
    HitsOne(tiles[0], q);
  }

  /**
   * Decoding the tiles of a picture, each in any legal encoding, shows that
   * picture on exactly the pixels the tiles cover and consumes exactly their
   * bytes.
   */
  lemma {:induction false} TilesShowPicture(fb: Framebuffer, img: Image, c: CPixel, es: seq<Encoding>, tiles: seq<Tile>,
                                            pic: Pt -> Pixel, stacks: Tile -> seq<Pixel>, x: int, y: int, rest: seq<byte>)
    requires c.Fits() && Stacks(stacks) && SendsAll(es, c, tiles, pic)
    ensures var (g, img') := RunTiles(fb, Live(EncodeTiles(es, c, tiles) + rest), img, c, tiles, stacks, x, y);
            g == Live(rest) && Shows(fb, img', img, tiles, pic, x, y)
    decreases |tiles|
  {
    hide ReadTile, Draw, Encode, Legal, Meaning, Shows;
    if tiles == [] {
      assert EncodeTiles(es, c, tiles) + rest == rest;
      ShowsNothing(fb, img, pic, x, y);
    } else {
      var t, more := tiles[0], EncodeTiles(es[1..], c, tiles[1..]);
      assert Sends(es[0], c, t, pic);
      Append(Encode(es[0], c, t.w, t.h), more, rest);
      TileInverts(es[0], c, t.w, t.h, stacks(t), more + rest);
      var (d, g) := ReadTile(Live(EncodeTiles(es, c, tiles) + rest), c, t.w, t.h, stacks(t));
      var mid := Draw(fb, img, d, x + t.x, y + t.y, t.w);
      DrawShowsTile(fb, img, d, t, pic, x, y);
      TilesShowPicture(fb, mid, c, es[1..], tiles[1..], pic, stacks, x, y, rest);
      ShowsAfter(fb, RunTiles(fb, g, mid, c, tiles[1..], stacks, x, y).1, mid, img, tiles, pic, x, y);
    }
  }

  lemma DrawShowsTile(fb: Framebuffer, img: Image, d: Drawn, t: Tile, pic: Pt -> Pixel, x: int, y: int)
    requires |d.pixels| == t.w * t.h
    requires forall i, j :: 0 <= i < t.w && 0 <= j < t.h ==> SendsAt(d.pixels, t, pic, i, j)
    ensures Shows(fb, Draw(fb, img, d, x + t.x, y + t.y, t.w), img, [t], pic, x, y)
  {
    hide Draw, ShowsAt, SendsAt;
    DrawKeys(fb, img, d, x + t.x, y + t.y, t.w);
    forall p | p in img
      ensures ShowsAt(fb, Draw(fb, img, d, x + t.x, y + t.y, t.w), img, [t], pic, p, Pt(p.x - x, p.y - y))
    {
      DrawShows(fb, img, d, t, pic, x, y, p);
    }
  }

  lemma ShowsAfter(fb: Framebuffer, img': Image, mid: Image, img: Image, tiles: seq<Tile>, pic: Pt -> Pixel, x: int, y: int)
    requires tiles != [] && Shows(fb, mid, img, [tiles[0]], pic, x, y) && Shows(fb, img', mid, tiles[1..], pic, x, y)
    ensures Shows(fb, img', img, tiles, pic, x, y)
  {
    hide ShowsAt;
    forall p | p in img
      ensures ShowsAt(fb, img', img, tiles, pic, p, Pt(p.x - x, p.y - y))
    {
      ShowsInTurn(fb, img', mid, img, tiles, pic, p, Pt(p.x - x, p.y - y));
    }
  }

  lemma ShowsNothing(fb: Framebuffer, img: Image, pic: Pt -> Pixel, x: int, y: int)
    ensures Shows(fb, img, img, [], pic, x, y)
  {
  }

  lemma DrawKeys(fb: Framebuffer, img: Image, d: Drawn, x: int, y: int, w: int)
    ensures Draw(fb, img, d, x, y, w).Keys == img.Keys
  {
  }

  lemma NoTiles(w: nat, h: nat)
    ensures Walk(w, h, 64, 0, 0) == [] <==> w == 0 || h == 0
  {
    if w == 0 {
      NoTilesBelow(h, 0);
    }
  }

  lemma {:induction false} NoTilesBelow(h: nat, j: nat)
    ensures Walk(0, h, 64, 0, j) == []
    decreases h - j
  {
    if j < h {
      NoTilesBelow(h, j + 64);
    }
  }

  /**
   * ZRLE round trip: a rectangle whose zlib data inflates to the encodings of
   * its tiles ends up showing the picture, every pixel of it, and nothing
   * outside it changes; the stream is left right behind the rectangle.  (There
   * are always data unless there are no tiles.)
   */
  lemma RectShowsPicture(fb: Framebuffer, img: Image, c: CPixel, es: seq<Encoding>, pic: Pt -> Pixel,
                         data: seq<byte>, inflate: seq<byte> -> seq<seq<byte>>, stacks: Tile -> seq<Pixel>,
                         x: int, y: int, w: nat, h: nat, rest: seq<byte>)
    requires c.Fits() && Stacks(stacks) && |data| < 0x1_0000_0000 && (data != [] || w == 0 || h == 0)
    requires SendsAll(es, c, Walk(w, h, 64, 0, 0), pic)
    requires Concat(inflate(data)) == EncodeTiles(es, c, Walk(w, h, 64, 0, 0))
    ensures var (g, img') := RunRect(fb, Live(EncU32(|data|) + (data + rest)), img, c, inflate, stacks, x, y, w, h);
            && g == Live(rest) && img'.Keys == img.Keys
            && forall p :: p in img ==>
                 if InRect(p, x, y, w, h) then Renders(fb, pic(Pt(p.x - x, p.y - y)), img'[p]) else img'[p] == img[p]
  {
    hide RunTiles, Walk, Hits, Renders, TakeU32, Take, EncU32, EncodeTiles;
    NoTiles(w, h);
    RunNothing(fb, Live(rest), img, c, stacks, x, y);
    var tiles := Walk(w, h, 64, 0, 0);
    assert [] + rest == rest;
    TakeU32Prefix(|data|, data + rest);
    TakePrefix(data, rest);
    TilesShowPicture(fb, img, c, es, tiles, pic, stacks, x, y, []);
    assert EncodeTiles(es, c, tiles) + [] == EncodeTiles(es, c, tiles);
    var (g, img') := RunRect(fb, Live(EncU32(|data|) + (data + rest)), img, c, inflate, stacks, x, y, w, h);
    forall p | p in img
      ensures if InRect(p, x, y, w, h) then Renders(fb, pic(Pt(p.x - x, p.y - y)), img'[p]) else img'[p] == img[p]
    {
      WalkPartitions(w, h, 64, Pt(p.x - x, p.y - y));
      assert ShowsAt(fb, img', img, tiles, pic, p, Pt(p.x - x, p.y - y));
    }
  }
}
