/** The ZRLE drawing loops of src/vncconnection.c. */
module ZrleDecoder {
  import opened Arith
  import opened Bytes
  import opened Feed
  import opened Framebuffers
  import opened Image
  import opened Input
  import opened Tiles
  import opened ZrleCodec
  import opened ZrleTiles

  /** Reader and framebuffer usable, and sharing no memory. */
  ghost predicate Ready(rd: Reader, fb: Framebuffer)
    reads rd.Repr(), fb.buffer
  {
    rd.Usable() && fb.Valid() && fb.buffer !in rd.Repr()
  }

  /** What drawing leaves alone: the stream not drawn on, and the bytes of no pixel. */
  ghost function Surroundings(rd: Reader, fb: Framebuffer): ((bool, bool, seq<byte>), map<int, byte>)
    requires Ready(rd, fb)
    reads rd.Repr(), fb.buffer
  {
    (rd.Aside(), fb.Slack())
  }

  /** The picture after a tile is drawn at (x, y). */
  ghost function Draw(fb: Framebuffer, img: Image, d: Drawn, x: int, y: int, w: int): Image
  {
    Blit(img, if d.direct then fb.Show(d.pixels) else fb.Stored(d.pixels), x, y, w)
  }

  method ReadCPixel(rd: Reader, c: CPixel) returns (p: Pixel)
    requires rd.Usable() && c.Fits()
    modifies rd.Repr()
    ensures rd.Usable() && rd.Aside() == old(rd.Aside())
    ensures (p, rd.In()) == c.Read(old(rd.In()))
  {
    var d := rd.ReadBytes(c.size);
    p := Zeros(c.at) + d + Zeros(c.bpp - c.at - c.size);
  }

  /** `i` of the `n` pixels that `f` holds are read; the others come from `g`. */
  ghost predicate PixelsSoFar(c: CPixel, f: Feed, n: nat, i: nat, g: Feed)
    requires c.Fits()
  {
    i <= n && c.ReadMany(g, n - i) == (c.ReadMany(f, n).0[i..], c.ReadMany(f, n).1)
  }

  lemma PixelsStep(c: CPixel, f: Feed, n: nat, i: nat, g: Feed)
    requires c.Fits() && PixelsSoFar(c, f, n, i, g) && i < n
    ensures c.Read(g).0 == c.ReadMany(f, n).0[i] && PixelsSoFar(c, f, n, i + 1, c.Read(g).1)
  {
    var (p, h) := c.Read(g);
    var more := c.ReadMany(h, n - i - 1).0;
    assert c.ReadMany(f, n).0[i..] == [p] + more;
    assert ([p] + more)[1..] == more;
  }

  method ReadPixels(rd: Reader, c: CPixel, n: nat) returns (ps: seq<Pixel>)
    requires rd.Usable() && c.Fits()
    modifies rd.Repr()
    ensures rd.Usable() && rd.Aside() == old(rd.Aside())
    ensures (ps, rd.In()) == c.ReadMany(old(rd.In()), n)
  {
    hide CPixel.ReadMany, CPixel.Read, PixelsSoFar, Reader.In;
    ghost var f := rd.In();
    ghost var all := c.ReadMany(f, n).0;
    ps := [];
    PixelsEnds(c, f, n, f);
    for i := 0 to n
      invariant rd.Usable() && rd.Aside() == old(rd.Aside())
      invariant ps == all[..i] && PixelsSoFar(c, f, n, i, rd.In())
    {
      PixelsStep(c, f, n, i, rd.In());
      OneMore(all, i);
      var p := ReadCPixel(rd, c);
      ps := ps + [p];
    }
    PixelsEnds(c, f, n, rd.In());
    assert all[..n] == all;
  }

  lemma OneMore(all: seq<Pixel>, i: nat)
    requires i < |all|
    ensures all[..i + 1] == all[..i] + [all[i]]
  {
  }

  lemma PixelsEnds(c: CPixel, f: Feed, n: nat, g: Feed)
    requires c.Fits()
    ensures PixelsSoFar(c, f, n, 0, f)
    ensures PixelsSoFar(c, f, n, n, g) ==> g == c.ReadMany(f, n).1
  {
    var all := c.ReadMany(f, n).0;
    assert all[0..] == all;
  }

  /** `rl` counts the run read so far; from `g` on its length starts over. */
  ghost predicate RunSoFar(f: Feed, rl: nat, g: Feed)
  {
    1 <= rl && ReadRun(f) == (rl - 1 + ReadRun(g).0, ReadRun(g).1)
  }

  function Size(f: Feed): nat
  {
    if f.Live? then |f.rest| else 0
  }

  lemma RunStart(f: Feed)
    ensures RunSoFar(f, 1, f) && (f.Dead? ==> ReadRun(f) == (1, f))
  {
  }

  lemma RunStep(f: Feed, rl: nat, g: Feed)
    requires RunSoFar(f, rl, g)
    ensures var (b, h) := TakeU8(g);
            && (if h.Live? && b == 255 then RunSoFar(f, rl + b, h) else ReadRun(f) == (rl + b, h))
            && (Size(h) < Size(g) || (Size(h) == Size(g) && b == 0))
  {
    hide ReadRun, Take;
    ReadRunStep(g);
    var (b, h) := TakeU8(g);
    TakeShrinks(g);
  }

  lemma ReadRunStep(g: Feed)
    ensures var (b, h) := TakeU8(g);
            ReadRun(g) == if h.Live? && b == 255 then (b + ReadRun(h).0, ReadRun(h).1) else (b + 1, h)
  {
    hide TakeU8;
  }

  lemma TakeShrinks(g: Feed)
    ensures var (b, h) := TakeU8(g); Size(h) < Size(g) || (Size(h) == Size(g) && b == 0)
  {
  }

  method ReadRunLength(rd: Reader) returns (rl: nat)
    requires rd.Usable()
    modifies rd.Repr()
    ensures rd.Usable() && rd.Aside() == old(rd.Aside())
    ensures (rl, rd.In()) == ReadRun(old(rd.In()))
  {
    hide RunSoFar, ReadRun, TakeU8, Size, Reader.Rest, Reader.Aside;
    rl := 1;
    ghost var f := rd.In();
    RunStart(f);
    var b: byte := 255;
    while !rd.stop && b == 255
      invariant rd.Usable() && rd.Aside() == old(rd.Aside())
      invariant b == 255 && !rd.stop ==> RunSoFar(f, rl, rd.In())
      invariant b != 255 || rd.stop ==> ReadRun(f) == (rl, rd.In())
      decreases Size(rd.In()), b
    {
      RunStep(f, rl, rd.In());
      b := rd.ReadU8();
      rl := rl + b;
    }
  }

  /* A row of a packed-palette tile. */

  /** The unread bits of a byte are whole indices. */
  predicate Aligned(bits: nat, left: nat)
    requires IsWidth(bits)
  {
    left <= 8 && left % bits == 0
  }

  /** `i` of the `n` indices of a row are drawn; the others come from `g`, `left` bits of `pi` first. */
  ghost predicate RowSoFar(f: Feed, bits: nat, n: nat, i: nat, g: Feed, pi: byte, left: nat)
    requires IsWidth(bits)
  {
    && i <= n && Aligned(bits, left)
    && ReadPacked(g, bits, n - i, pi, left) == (ReadPacked(f, bits, n, 0, 0).0[i..], ReadPacked(f, bits, n, 0, 0).1)
  }

  lemma RowStep(f: Feed, bits: nat, n: nat, i: nat, g: Feed, pi: byte, left: nat, g': Feed, pi': byte, left': int)
    requires IsWidth(bits) && RowSoFar(f, bits, n, i, g, pi, left) && i < n
    requires (pi', g') == if left == 0 then TakeU8(g) else (pi, g)
    requires left' == (if left == 0 then 8 else left) - bits
    ensures 0 <= left' && RowSoFar(f, bits, n, i + 1, g', pi', left')
    ensures left' <= 8 && ReadPacked(f, bits, n, 0, 0).0[i] == Field(pi', left', bits)
  {
    hide Field, TakeU8;
    var more := ReadPacked(g', bits, n - i - 1, pi', left').0;
    var row := ReadPacked(f, bits, n, 0, 0).0;
    assert row[i..] == [Field(pi', left', bits)] + more;
    assert row[i + 1..] == row[i..][1..] == more;
  }

  lemma RowEnds(f: Feed, bits: nat, n: nat, g: Feed, pi: byte, left: nat)
    requires IsWidth(bits)
    ensures RowSoFar(f, bits, n, 0, f, 0, 0)
    ensures RowSoFar(f, bits, n, n, g, pi, left) ==> g == ReadPacked(f, bits, n, 0, 0).1
  {
    var row := ReadPacked(f, bits, n, 0, 0).0;
    assert row[0..] == row && row[n..] == [];
  }

  /** `vnc_connection_read_zrle_pi` */
  method ReadIndex(rd: Reader, bits: nat, pi: byte, left: nat) returns (index: nat, pi': byte, left': nat)
    requires rd.Usable() && IsWidth(bits) && left <= 8 && left % bits == 0
    modifies rd.Repr()
    ensures rd.Usable() && rd.Aside() == old(rd.Aside())
    ensures (pi', rd.In()) == if left == 0 then TakeU8(old(rd.In())) else (pi, old(rd.In()))
    ensures bits <= (if left == 0 then 8 else left) && left' == (if left == 0 then 8 else left) - bits
    ensures index == Field(pi', left', bits)
  {
    pi', left' := pi, left;
    if left' == 0 {
      pi' := rd.ReadU8();
      left' := 8;
    }
    left' := left' - bits;
    index := Field(pi', left', bits);
  }

  /** One pixel of the loops of `vnc_connection_zrle_update_tile_palette`. */
  method PalettePixel(rd: Reader, fb: Framebuffer, palette: seq<Pixel>, bits: nat, pi: byte, left: nat, x: nat, y: nat)
    returns (pi': byte, left': nat)
    requires Ready(rd, fb) && fb.Inside(x, y, 1, 1) && |palette| == 128
    requires IsWidth(bits) && Aligned(bits, left)
    modifies rd.Repr(), fb.buffer
    ensures Ready(rd, fb) && Surroundings(rd, fb) == old(Surroundings(rd, fb))
    ensures (pi', rd.In()) == if left == 0 then TakeU8(old(rd.In())) else (pi, old(rd.In()))
    ensures bits <= (if left == 0 then 8 else left) && left' == (if left == 0 then 8 else left) - bits
    ensures fb.Img() == old(fb.Img())[Pt(x, y) := fb.setPixel(palette[Field(pi', left', bits)])]
  {
    var ind;
    ind, pi', left' := ReadIndex(rd, bits, pi, left);
    fb.SetPixelAt(palette[ind], x, y);
  }

  lemma LookupAt(fb: Framebuffer, row: seq<int>, palette: seq<Pixel>, i: nat)
    requires i < |row| && 0 <= row[i] < |palette|
    ensures |fb.Stored(Lookup(row, palette))| == |row| && fb.Stored(Lookup(row, palette))[i] == fb.setPixel(palette[row[i]])
  {
  }

  /** One turn of the loop below, for the input `f` where the row starts; `all` is what the row shows. */
  method PaletteStep(rd: Reader, fb: Framebuffer, palette: seq<Pixel>, bits: nat, pi: byte, left: nat, x: nat, y: nat, w: nat, i: nat,
                     ghost f: Feed, ghost all: seq<Pixel>)
    returns (pi': byte, left': nat)
    requires Ready(rd, fb) && fb.Inside(x + i, y, 1, 1) && i < w && |palette| == 128
    requires IsWidth(bits) && RowSoFar(f, bits, w, i, rd.In(), pi, left)
    requires all == fb.Stored(Lookup(ReadPacked(f, bits, w, 0, 0).0, palette)) && |all| == w
    modifies rd.Repr(), fb.buffer
    ensures Ready(rd, fb) && Surroundings(rd, fb) == old(Surroundings(rd, fb))
    ensures RowSoFar(f, bits, w, i + 1, rd.In(), pi', left')
    ensures fb.Img() == old(fb.Img())[Pt(x + i, y) := all[i]]
  {
    hide RowSoFar, Aligned, ReadPacked, Field, TakeU8, Lookup, Surroundings, Reader.In, Framebuffer.Img, Framebuffer.Stored;
    ghost var row := ReadPacked(f, bits, w, 0, 0).0;
    RowLeft(f, bits, w, i, rd.In(), pi, left);
    pi', left' := PalettePixel(rd, fb, palette, bits, pi, left, x + i, y);
    RowStep(f, bits, w, i, old(rd.In()), pi, left, rd.In(), pi', left');
    LookupAt(fb, row, palette, i);
  }

  lemma RowLeft(f: Feed, bits: nat, n: nat, i: nat, g: Feed, pi: byte, left: nat)
    requires IsWidth(bits) && RowSoFar(f, bits, n, i, g, pi, left)
    ensures Aligned(bits, left)
  {
  }

  method PaletteRow(rd: Reader, fb: Framebuffer, palette: seq<Pixel>, bits: nat, x: nat, y: nat, w: nat)
    requires Ready(rd, fb) && fb.Inside(x, y, w, 1) && IsWidth(bits) && |palette| == 128
    modifies rd.Repr(), fb.buffer
    ensures Ready(rd, fb) && Surroundings(rd, fb) == old(Surroundings(rd, fb))
    ensures rd.In() == ReadPacked(old(rd.In()), bits, w, 0, 0).1
    ensures fb.Img() == PutRow(old(fb.Img()), fb.Stored(Lookup(ReadPacked(old(rd.In()), bits, w, 0, 0).0, palette)), x, y)
  {
    hide RowSoFar, PutRow, ReadPacked, Lookup, Surroundings, Reader.In, Framebuffer.Img, Framebuffer.Stored;
    ghost var f, was := rd.In(), fb.Img();
    ghost var all := fb.Stored(Lookup(ReadPacked(f, bits, w, 0, 0).0, palette));
    var pi: byte, left: nat := 0, 0;     // discard any padding bits
    RowEnds(f, bits, w, f, 0, 0);
    PutRowNothing(was, x, y);
    for i := 0 to w
      invariant Ready(rd, fb) && Surroundings(rd, fb) == old(Surroundings(rd, fb))
      invariant RowSoFar(f, bits, w, i, rd.In(), pi, left)
      invariant fb.Img() == PutRow(was, all[..i], x, y)
    {
      pi, left := PaletteStep(rd, fb, palette, bits, pi, left, x, y, w, i, f, all);
      PutRowStep(was, all, x, y, i);
    }
    RowEnds(f, bits, w, rd.In(), pi, left);
    assert all[..w] == all;
  }

  /* Packed-palette tiles: `ReadIndices` row by row. */

  ghost predicate IndicesSoFar(f: Feed, bits: nat, w: nat, h: nat, j: nat, g: Feed)
    requires IsWidth(bits)
  {
    && j <= h && 0 <= Cell(0, j, w) <= |ReadIndices(f, bits, w, h).0|
    && ReadIndices(g, bits, w, h - j) == (ReadIndices(f, bits, w, h).0[Cell(0, j, w)..], ReadIndices(f, bits, w, h).1)
  }

  lemma IndicesStep(f: Feed, bits: nat, w: nat, h: nat, j: nat, g: Feed)
    requires IsWidth(bits) && IndicesSoFar(f, bits, w, h, j, g) && j < h
    ensures var all := ReadIndices(f, bits, w, h).0;
            var (row, g') := ReadPacked(g, bits, w, 0, 0);
            var k := Cell(0, j, w);
            && 0 <= k && k + w <= |all| && row == all[k..k + w]
            && IndicesSoFar(f, bits, w, h, j + 1, g')
  {
    var all := ReadIndices(f, bits, w, h).0;
    var (row, g') := ReadPacked(g, bits, w, 0, 0);
    var more := ReadIndices(g', bits, w, h - j - 1).0;
    var k := Cell(0, j, w);
    assert all[k..] == row + more;
    assert all[k..k + w] == all[k..][..w];
    CellWalk(0, j, w, h);
    assert all[k + w..] == all[k..][w..];
  }

  lemma IndicesEnds(f: Feed, bits: nat, w: nat, h: nat, g: Feed)
    requires IsWidth(bits)
    ensures IndicesSoFar(f, bits, w, h, 0, f)
    ensures IndicesSoFar(f, bits, w, h, h, g) ==>
              g == ReadIndices(f, bits, w, h).1 && Cell(0, h, w) == |ReadIndices(f, bits, w, h).0|
  {
    var all := ReadIndices(f, bits, w, h).0;
    assert all[0..] == all;
  }

  method PaletteTile(rd: Reader, fb: Framebuffer, palette: seq<Pixel>, bits: nat, x: nat, y: nat, w: nat, h: nat)
    requires Ready(rd, fb) && fb.Inside(x, y, w, h) && IsWidth(bits) && |palette| == 128
    modifies rd.Repr(), fb.buffer
    ensures Ready(rd, fb) && Surroundings(rd, fb) == old(Surroundings(rd, fb))
    ensures rd.In() == ReadIndices(old(rd.In()), bits, w, h).1
    ensures fb.Img() == Blit(old(fb.Img()), fb.Stored(Lookup(ReadIndices(old(rd.In()), bits, w, h).0, palette)), x, y, w)
  {
    hide Cell, IndicesSoFar, ReadIndices, ReadPacked, Blit, PutRow, Lookup, Surroundings, Reader.In, Framebuffer.Img, Framebuffer.Stored;
    ghost var f, was := rd.In(), fb.Img();
    ghost var ix := ReadIndices(f, bits, w, h).0;
    ghost var all := fb.Stored(Lookup(ix, palette));
    IndicesEnds(f, bits, w, h, f);
    CellWalk(0, 0, w, h);
    BlitNothing(was, x, y, w);
    assert all[..0] == [];
    for j := 0 to h
      invariant Ready(rd, fb) && Surroundings(rd, fb) == old(Surroundings(rd, fb))
      invariant IndicesSoFar(f, bits, w, h, j, rd.In())
      invariant 0 <= Cell(0, j, w) <= |all| && fb.Img() == Blit(was, all[..Cell(0, j, w)], x, y, w)
    {
      IndicesStep(f, bits, w, h, j, rd.In());
      LookupSlice(fb, ix, palette, Cell(0, j, w), w);
      PaletteRow(rd, fb, palette, bits, x, y + j, w);
      BlitRowStep(was, all, x, y, w, j);
      CellAdds(j, w);
    }
    IndicesEnds(f, bits, w, h, rd.In());
    assert all[..Cell(0, h, w)] == all;
  }

  lemma LookupSlice(fb: Framebuffer, ix: seq<int>, palette: seq<Pixel>, a: nat, n: nat)
    requires a + n <= |ix|
    ensures fb.Stored(Lookup(ix[a..a + n], palette)) == fb.Stored(Lookup(ix, palette))[a..a + n]
  {
    assert Lookup(ix[a..a + n], palette) == Lookup(ix, palette)[a..a + n];
  }

  /* Plain runs: the loops carry the pixel and what is left of its run across rows. */

  ghost predicate RunsSoFar(f: Feed, c: CPixel, n: nat, k: nat, g: Feed, p: Pixel, rl: nat)
    requires c.Fits()
  {
    k <= n && ReadRuns(g, c, n - k, p, rl) == (ReadRuns(f, c, n, [], 0).0[k..], ReadRuns(f, c, n, [], 0).1)
  }

  lemma RunsStep(f: Feed, c: CPixel, n: nat, k: nat, g: Feed, p: Pixel, rl: nat)
    requires c.Fits() && RunsSoFar(f, c, n, k, g, p, rl) && k < n
    ensures var (q, h) := if rl == 0 then c.Read(g) else (p, g);
            var (m, e) := if rl == 0 then ReadRun(h) else (rl, h);
            q == ReadRuns(f, c, n, [], 0).0[k] && RunsSoFar(f, c, n, k + 1, e, q, m - 1)
  {
    hide CPixel.Read, ReadRun;
    var (q, h) := if rl == 0 then c.Read(g) else (p, g);
    var (m, e) := if rl == 0 then ReadRun(h) else (rl, h);
    var all, more := ReadRuns(f, c, n, [], 0).0, ReadRuns(e, c, n - k - 1, q, m - 1).0;
    assert all[k..] == [q] + more;
    assert all[k + 1..] == all[k..][1..];
  }

  lemma RunsEnds(f: Feed, c: CPixel, n: nat, g: Feed, p: Pixel, rl: nat)
    requires c.Fits()
    ensures RunsSoFar(f, c, n, 0, f, [], 0)
    ensures RunsSoFar(f, c, n, n, g, p, rl) ==> g == ReadRuns(f, c, n, [], 0).1
  {
    var all := ReadRuns(f, c, n, [], 0).0;
    assert all[0..] == all;
  }

  /** One pixel of the loops of `vnc_connection_zrle_update_tile_rle`. */
  method RunPixel(rd: Reader, fb: Framebuffer, c: CPixel, p: Pixel, rl: nat, x: nat, y: nat)
    returns (p': Pixel, rl': nat)
    requires Ready(rd, fb) && fb.Inside(x, y, 1, 1) && c.Fits()
    modifies rd.Repr(), fb.buffer
    ensures Ready(rd, fb) && Surroundings(rd, fb) == old(Surroundings(rd, fb))
    ensures var (q, h) := if rl == 0 then c.Read(old(rd.In())) else (p, old(rd.In()));
            var (m, e) := if rl == 0 then ReadRun(h) else (rl, h);
            p' == q && rl' == m - 1 && rd.In() == e
    ensures fb.Img() == old(fb.Img())[Pt(x, y) := fb.setPixel(p')]
  {
    p', rl' := p, rl;
    if rl' == 0 {
      p' := ReadCPixel(rd, c);
      rl' := ReadRunLength(rd);
    }
    fb.SetPixelAt(p', x, y);
    rl' := rl' - 1;
  }

  /** The same, as a step of the walk over the tile. */
  method RunCell(rd: Reader, fb: Framebuffer, c: CPixel, p: Pixel, rl: nat, x: nat, y: nat, w: nat, i: nat, j: nat,
                 ghost f: Feed, ghost n: nat, ghost k: nat, ghost was: Image) returns (p': Pixel, rl': nat)
    requires Ready(rd, fb) && c.Fits() && fb.Inside(x, y, w, j + 1) && i < w
    requires k == Cell(i, j, w) < n && RunsSoFar(f, c, n, k, rd.In(), p, rl)
    requires was.Keys == fb.layout.Points() && fb.Img() == Blit(was, fb.Stored(ReadRuns(f, c, n, [], 0).0)[..k], x, y, w)
    modifies rd.Repr(), fb.buffer
    ensures Ready(rd, fb) && Surroundings(rd, fb) == old(Surroundings(rd, fb))
    ensures RunsSoFar(f, c, n, k + 1, rd.In(), p', rl')
    ensures fb.Img() == Blit(was, fb.Stored(ReadRuns(f, c, n, [], 0).0)[..k + 1], x, y, w)
  {
    hide RunsSoFar, ReadRuns, ReadRun, Blit, Surroundings, CPixel.Read, Reader.In, Framebuffer.Img, Framebuffer.Stored;
    RunsStep(f, c, n, k, rd.In(), p, rl);
    p', rl' := RunPixel(rd, fb, c, p, rl, x + i, y + j);
    ghost var all := fb.Stored(ReadRuns(f, c, n, [], 0).0);
    assert all[k] == fb.setPixel(p') && Pt(x + i, y + j) in fb.layout.Points();
    BlitStep(was, all[..k], all[k], x, y, w, i, j);
    assert all[..k + 1] == all[..k] + [all[k]];
  }

  /** `vnc_connection_zrle_update_tile_rle` */
  method RunsTile(rd: Reader, fb: Framebuffer, c: CPixel, x: nat, y: nat, w: nat, h: nat)
    requires Ready(rd, fb) && fb.Inside(x, y, w, h) && c.Fits()
    modifies rd.Repr(), fb.buffer
    ensures Ready(rd, fb) && Surroundings(rd, fb) == old(Surroundings(rd, fb))
    ensures rd.In() == ReadRuns(old(rd.In()), c, Area(w, h), [], 0).1
    ensures fb.Img() == Blit(old(fb.Img()), fb.Stored(ReadRuns(old(rd.In()), c, Area(w, h), [], 0).0), x, y, w)
  {
    hide Cell, RunsSoFar, ReadRuns, ReadRun, Blit, Surroundings, CPixel.Read, Reader.In, Framebuffer.Img, Framebuffer.Stored;
    ghost var f, was, n := rd.In(), fb.Img(), Area(w, h);
    ghost var all := fb.Stored(ReadRuns(f, c, n, [], 0).0);
    var p: Pixel, rl: nat := [], 0;
    ghost var k: nat := 0;
    RunsEnds(f, c, n, f, p, rl);
    CellWalk(0, 0, w, h);
    BlitNothing(was, x, y, w);
    assert all[..0] == [];
    for j := 0 to h
      invariant Ready(rd, fb) && Surroundings(rd, fb) == old(Surroundings(rd, fb))
      invariant k == Cell(0, j, w) <= n && RunsSoFar(f, c, n, k, rd.In(), p, rl)
      invariant fb.Img() == Blit(was, all[..k], x, y, w)
    {
      CellWalk(0, j, w, h);
      for i := 0 to w
        invariant Ready(rd, fb) && Surroundings(rd, fb) == old(Surroundings(rd, fb))
        invariant k == Cell(i, j, w) <= n && RunsSoFar(f, c, n, k, rd.In(), p, rl)
        invariant fb.Img() == Blit(was, all[..k], x, y, w)
      {
        CellWalk(i, j, w, h);
        p, rl := RunCell(rd, fb, c, p, rl, x, y, w, i, j, f, n, k, was);
        k := k + 1;
      }
    }
    RunsEnds(f, c, n, rd.In(), p, rl);
    assert all[..n] == all;
  }

  /* Palette runs, likewise. */

  ghost predicate PRunsSoFar(f: Feed, palette: seq<Pixel>, n: nat, k: nat, g: Feed, pi: nat, rl: nat)
    requires |palette| == 128 && pi < 128
  {
    k <= n && ReadPRuns(g, palette, n - k, pi, rl) == (ReadPRuns(f, palette, n, 0, 0).0[k..], ReadPRuns(f, palette, n, 0, 0).1)
  }

  lemma PRunsStep(f: Feed, palette: seq<Pixel>, n: nat, k: nat, g: Feed, pi: nat, rl: nat)
    requires |palette| == 128 && pi < 128 && PRunsSoFar(f, palette, n, k, g, pi, rl) && k < n
    ensures var (i, m, e) := if rl == 0 then ReadPRun(g) else (pi, rl, g);
            palette[i] == ReadPRuns(f, palette, n, 0, 0).0[k] && PRunsSoFar(f, palette, n, k + 1, e, i, m - 1)
  {
    hide ReadPRun;
    var (i, m, e) := if rl == 0 then ReadPRun(g) else (pi, rl, g);
    var all, more := ReadPRuns(f, palette, n, 0, 0).0, ReadPRuns(e, palette, n - k - 1, i, m - 1).0;
    assert all[k..] == [palette[i]] + more;
    assert all[k + 1..] == all[k..][1..];
  }

  lemma PRunsEnds(f: Feed, palette: seq<Pixel>, n: nat, g: Feed, pi: nat, rl: nat)
    requires |palette| == 128 && pi < 128
    ensures PRunsSoFar(f, palette, n, 0, f, 0, 0)
    ensures PRunsSoFar(f, palette, n, n, g, pi, rl) ==> g == ReadPRuns(f, palette, n, 0, 0).1
  {
    var all := ReadPRuns(f, palette, n, 0, 0).0;
    assert all[0..] == all;
  }

  method ReadPRunStart(rd: Reader) returns (pi: nat, rl: nat)
    requires rd.Usable()
    modifies rd.Repr()
    ensures rd.Usable() && rd.Aside() == old(rd.Aside())
    ensures (pi, rl, rd.In()) == ReadPRun(old(rd.In()))
    ensures pi < 128 && 1 <= rl
  {
    hide TakeU8, ReadRun, Reader.In, Reader.Aside;
    pi := rd.ReadU8();
    if 128 <= pi {
      rl := ReadRunLength(rd);
      pi := pi - 128;
    } else {
      rl := 1;
    }
  }

  /** One pixel of the loops of `vnc_connection_zrle_update_tile_prle`. */
  method PRunPixel(rd: Reader, fb: Framebuffer, palette: seq<Pixel>, pi: nat, rl: nat, x: nat, y: nat)
    returns (pi': nat, rl': nat)
    requires Ready(rd, fb) && fb.Inside(x, y, 1, 1) && |palette| == 128 && pi < 128
    modifies rd.Repr(), fb.buffer
    ensures Ready(rd, fb) && Surroundings(rd, fb) == old(Surroundings(rd, fb))
    ensures var (i, m, e) := if rl == 0 then ReadPRun(old(rd.In())) else (pi, rl, old(rd.In()));
            pi' == i && rl' == m - 1 && rd.In() == e && pi' < 128
    ensures fb.Img() == old(fb.Img())[Pt(x, y) := fb.setPixel(palette[pi'])]
  {
    hide ReadPRun;
    pi', rl' := pi, rl;
    if rl' == 0 {
      pi', rl' := ReadPRunStart(rd);
    }
    fb.SetPixelAt(palette[pi'], x, y);
    rl' := rl' - 1;
  }

  /** The same, as a step of the walk over the tile. */
  method PRunCell(rd: Reader, fb: Framebuffer, palette: seq<Pixel>, pi: nat, rl: nat, x: nat, y: nat, w: nat, i: nat, j: nat,
                 ghost f: Feed, ghost n: nat, ghost k: nat, ghost was: Image) returns (pi': nat, rl': nat)
    requires Ready(rd, fb) && |palette| == 128 && pi < 128 && fb.Inside(x, y, w, j + 1) && i < w
    requires k == Cell(i, j, w) < n && PRunsSoFar(f, palette, n, k, rd.In(), pi, rl)
    requires was.Keys == fb.layout.Points() && fb.Img() == Blit(was, fb.Stored(ReadPRuns(f, palette, n, 0, 0).0)[..k], x, y, w)
    modifies rd.Repr(), fb.buffer
    ensures Ready(rd, fb) && Surroundings(rd, fb) == old(Surroundings(rd, fb))
    ensures pi' < 128 && PRunsSoFar(f, palette, n, k + 1, rd.In(), pi', rl')
    ensures fb.Img() == Blit(was, fb.Stored(ReadPRuns(f, palette, n, 0, 0).0)[..k + 1], x, y, w)
  {
    hide PRunsSoFar, ReadPRuns, ReadPRun, Blit, Surroundings, Reader.In, Framebuffer.Img, Framebuffer.Stored;
    PRunsStep(f, palette, n, k, rd.In(), pi, rl);
    pi', rl' := PRunPixel(rd, fb, palette, pi, rl, x + i, y + j);
    ghost var all := fb.Stored(ReadPRuns(f, palette, n, 0, 0).0);
    assert all[k] == fb.setPixel(palette[pi']) && Pt(x + i, y + j) in fb.layout.Points();
    BlitStep(was, all[..k], all[k], x, y, w, i, j);
    assert all[..k + 1] == all[..k] + [all[k]];
  }

  /** `vnc_connection_zrle_update_tile_prle`, its palette read */
  method PRunsTile(rd: Reader, fb: Framebuffer, palette: seq<Pixel>, x: nat, y: nat, w: nat, h: nat)
    requires Ready(rd, fb) && fb.Inside(x, y, w, h) && |palette| == 128
    modifies rd.Repr(), fb.buffer
    ensures Ready(rd, fb) && Surroundings(rd, fb) == old(Surroundings(rd, fb))
    ensures rd.In() == ReadPRuns(old(rd.In()), palette, Area(w, h), 0, 0).1
    ensures fb.Img() == Blit(old(fb.Img()), fb.Stored(ReadPRuns(old(rd.In()), palette, Area(w, h), 0, 0).0), x, y, w)
  {
    hide Cell, PRunsSoFar, ReadPRuns, ReadPRun, Blit, Surroundings, Reader.In, Framebuffer.Img, Framebuffer.Stored;
    ghost var f, was, n := rd.In(), fb.Img(), Area(w, h);
    ghost var all := fb.Stored(ReadPRuns(f, palette, n, 0, 0).0);
    var pi: nat, rl: nat := 0, 0;
    ghost var k: nat := 0;
    PRunsEnds(f, palette, n, f, pi, rl);
    CellWalk(0, 0, w, h);
    BlitNothing(was, x, y, w);
    assert all[..0] == [];
    for j := 0 to h
      invariant Ready(rd, fb) && Surroundings(rd, fb) == old(Surroundings(rd, fb))
      invariant k == Cell(0, j, w) <= n && pi < 128 && PRunsSoFar(f, palette, n, k, rd.In(), pi, rl)
      invariant fb.Img() == Blit(was, all[..k], x, y, w)
    {
      CellWalk(0, j, w, h);
      for i := 0 to w
        invariant Ready(rd, fb) && Surroundings(rd, fb) == old(Surroundings(rd, fb))
        invariant k == Cell(i, j, w) <= n && pi < 128 && PRunsSoFar(f, palette, n, k, rd.In(), pi, rl)
        invariant fb.Img() == Blit(was, all[..k], x, y, w)
      {
        CellWalk(i, j, w, h);
        pi, rl := PRunCell(rd, fb, palette, pi, rl, x, y, w, i, j, f, n, k, was);
        k := k + 1;
      }
    }
    PRunsEnds(f, palette, n, rd.In(), pi, rl);
    assert all[..n] == all;
  }

  /* Whole tiles. */

  /** `vnc_connection_zrle_update_tile_blit` */
  method RawTile(rd: Reader, fb: Framebuffer, c: CPixel, x: nat, y: nat, w: nat, h: nat)
    requires Ready(rd, fb) && fb.Inside(x, y, w, h) && c.Fits() && c.bpp == fb.remoteBpp
    modifies rd.Repr(), fb.buffer
    ensures Ready(rd, fb) && Surroundings(rd, fb) == old(Surroundings(rd, fb))
    ensures rd.In() == c.ReadMany(old(rd.In()), Area(w, h)).1
    ensures fb.Img() == Blit(old(fb.Img()), fb.Show(c.ReadMany(old(rd.In()), Area(w, h)).0), x, y, w)
  {
    hide Blit, PutRows, Join, Framebuffer.Img, Framebuffer.Slack, Framebuffer.Show, Reader.In, CPixel.ReadMany, RowIs;
    ghost var was := fb.Img();
    var pixels := ReadPixels(rd, c, Area(w, h));
    var data := Join(pixels);
    RowsOfJoin(fb, pixels, w, h);
    fb.Blt(data, w * c.bpp, x, y, w, h);
    BltJoin(fb, was, pixels, x, y, w, h);
  }

  lemma RowsOfJoin(fb: Framebuffer, ps: seq<Pixel>, w: nat, h: nat)
    requires 0 < fb.remoteBpp && |ps| == w * h && forall i :: 0 <= i < |ps| ==> |ps[i]| == fb.remoteBpp
    ensures forall j :: 0 <= j < h ==>
              var n := w * fb.remoteBpp;
              0 <= j * n && 0 <= n && j * n + n <= |Join(ps)| &&
              RowIs(fb.Show(Pixels(Join(ps)[j * n..j * n + n], fb.remoteBpp)), fb.Show(ps), w, j)
  {
    var bpp := fb.remoteBpp;
    forall j | 0 <= j < h
      ensures var n := w * bpp;
              0 <= j * n && 0 <= n && j * n + n <= |Join(ps)| &&
              RowIs(fb.Show(Pixels(Join(ps)[j * n..j * n + n], bpp)), fb.Show(ps), w, j)
    {
      RowOfJoin(fb, ps, w, h, j);
    }
  }

  lemma RowOfJoin(fb: Framebuffer, ps: seq<Pixel>, w: nat, h: nat, j: nat)
    requires 0 < fb.remoteBpp && |ps| == w * h && j < h && forall i :: 0 <= i < |ps| ==> |ps[i]| == fb.remoteBpp
    ensures var n := w * fb.remoteBpp;
            0 <= j * n && 0 <= n && j * n + n <= |Join(ps)| &&
            RowIs(fb.Show(Pixels(Join(ps)[j * n..j * n + n], fb.remoteBpp)), fb.Show(ps), w, j)
  {
    hide Join, Pixels, Framebuffer.Show;
    var bpp, k := fb.remoteBpp, Cell(0, j, w);
    MulNonNegative(j, w);
    StrideApart(j, h, w);
    JoinSlice(ps, bpp, k, w);
    ProductsAssociate(j, w, bpp);
    JoinPixels(ps[k..k + w], bpp);
    ShowSlice(fb, ps, k, w);
  }

  lemma ShowSlice(fb: Framebuffer, ps: seq<Pixel>, k: nat, n: nat)
    requires k + n <= |ps|
    ensures fb.Show(ps[k..k + n]) == fb.Show(ps)[k..k + n]
  {
  }

  lemma BltJoin(fb: Framebuffer, img: Image, ps: seq<Pixel>, x: int, y: int, w: nat, h: nat)
    requires 0 < fb.remoteBpp && |ps| == w * h && forall i :: 0 <= i < |ps| ==> |ps[i]| == fb.remoteBpp
    requires forall j :: 0 <= j < h ==> 0 <= j * (w * fb.remoteBpp) && 0 <= w * fb.remoteBpp
                                        && j * (w * fb.remoteBpp) + w * fb.remoteBpp <= |Join(ps)|
    ensures PutRows(img, fb.SourceRows(Join(ps), w * fb.remoteBpp, w, h), x, y) == Blit(img, fb.Show(ps), x, y, w)
  {
    hide Blit, PutRows, Join;
    RowsOfJoin(fb, ps, w, h);
    var rows, all := fb.SourceRows(Join(ps), w * fb.remoteBpp, w, h), fb.Show(ps);
    PutRowsIsBlit(img, rows, all, x, y, w, h);
    assert rows[..h] == rows && Cell(0, h, w) == |all| && all[..|all|] == all;
  }

  /** A tile of one colour. */
  method SolidTile(rd: Reader, fb: Framebuffer, c: CPixel, x: nat, y: nat, w: nat, h: nat)
    requires Ready(rd, fb) && fb.Inside(x, y, w, h) && 1 <= h && c.Fits() && c.bpp == fb.remoteBpp
    modifies rd.Repr(), fb.buffer
    ensures Ready(rd, fb) && Surroundings(rd, fb) == old(Surroundings(rd, fb))
    ensures rd.In() == c.Read(old(rd.In())).1
    ensures fb.Img() == Blit(old(fb.Img()), fb.Show(Repeat(c.Read(old(rd.In())).0, Area(w, h))), x, y, w)
  {
    hide Blit, FillRect, Framebuffer.Img;
    ghost var was := fb.Img();
    var p := ReadCPixel(rd, c);
    fb.Fill(p, x, y, w, h);
    FillIsBlit(was, fb.Shown(p), x, y, w, h, fb.Show(Repeat(p, Area(w, h))));
  }

  /** `vnc_connection_zrle_update_tile`; `stack` is what the palette array holds on entry. */
  method DecodeTile(rd: Reader, fb: Framebuffer, c: CPixel, stack: seq<Pixel>, x: nat, y: nat, w: nat, h: nat)
    requires Ready(rd, fb) && fb.Inside(x, y, w, h) && 1 <= h && c.Fits() && c.bpp == fb.remoteBpp && |stack| == 128
    modifies rd.Repr(), fb.buffer
    ensures Ready(rd, fb) && Surroundings(rd, fb) == old(Surroundings(rd, fb))
    ensures rd.In() == ReadTile(old(rd.In()), c, w, h, stack).1
    ensures fb.Img() == Draw(fb, old(fb.Img()), ReadTile(old(rd.In()), c, w, h, stack).0, x, y, w)
  {
    hide Blit, Lookup, Overlay, IndexBits, Framebuffer.Img, Framebuffer.Slack, Framebuffer.Stored, Framebuffer.Show,
         CPixel.Read, CPixel.ReadMany, ReadIndices, ReadRuns, ReadPRuns, TakeU8, Reader.In, Reader.Aside;
    ghost var was := fb.Img();
    var subencoding := rd.ReadU8();
    if subencoding == 0 {
      RawTile(rd, fb, c, x, y, w, h);
    } else if subencoding == 1 {
      SolidTile(rd, fb, c, x, y, w, h);
    } else if 2 <= subencoding <= 16 {
      var colours := ReadPixels(rd, c, subencoding);
      PaletteTile(rd, fb, Overlay(colours, stack), IndexBits(subencoding), x, y, w, h);
    } else if 17 <= subencoding <= 127 || subencoding == 129 {
      BlitNothing(was, x, y, w);
      assert fb.Stored([]) == [];
    } else if subencoding == 128 {
      RunsTile(rd, fb, c, x, y, w, h);
    } else {
      var colours := ReadPixels(rd, c, subencoding - 128);
      PRunsTile(rd, fb, Overlay(colours, stack), x, y, w, h);
    }
  }
}
