/** The layout of a picture in memory. */
module Layouts {
  import opened Arith
  import opened Bytes
  import opened Image

  /** Write `data` over the bytes from `at` on. */
  function Splice(mem: seq<byte>, at: nat, data: seq<byte>): (r: seq<byte>)
    requires at + |data| <= |mem|
    ensures |r| == |mem|
    ensures forall k :: 0 <= k < |mem| ==> r[k] == if at <= k < at + |data| then data[k - at] else mem[k]
  {
    mem[..at] + data + mem[at + |data|..]
  }

  lemma SliceOfSplice(mem: seq<byte>, at: nat, data: seq<byte>, k: nat, n: nat)
    requires at + |data| <= |mem| && k + n <= |mem|
    ensures k + n <= at || at + |data| <= k ==> Splice(mem, at, data)[k..k + n] == mem[k..k + n]
    ensures at <= k && k + n <= at + |data| ==> Splice(mem, at, data)[k..k + n] == data[k - at..k - at + n]
  {
  }

  lemma SliceOverSplice(mem: seq<byte>, at: nat, data: seq<byte>, k: nat, n: nat)
    requires at + |data| <= |mem| && at + k + n <= |mem|
    ensures Splice(mem, at, data)[at + k..at + k + n]
         == if k < |data| then Over(data[k..], mem[at + k..at + k + n]) else mem[at + k..at + k + n]
  {
  }

  /** Rows of `rowstride` bytes, of which the first `width` pixels of `bpp` bytes are shown. */
  datatype Layout = Layout(width: nat, height: nat, rowstride: nat, bpp: nat) {

    ghost predicate Fits(mem: seq<byte>)
    {
      0 < bpp && width * bpp <= rowstride && rowstride * height <= |mem|
    }

    /** VNC_BASE_FRAMEBUFFER_AT */
    function Off(x: int, y: int): int
    {
      y * rowstride + x * bpp
    }

    function Points(): set<Pt>
    {
      Grid(width, height)
    }

    lemma RowBound(mem: seq<byte>, x: nat, y: nat, w: nat)
      requires Fits(mem) && x + w <= width && y < height
      ensures 0 <= w * bpp
      ensures 0 <= y * rowstride <= Off(x, y) <= Off(x, y) + w * bpp <= y * rowstride + rowstride <= |mem|
      ensures Off(x, y) + w * bpp == y * rowstride + (x + w) * bpp
    {
      MulNonNegative(y, rowstride);
      MulNonNegative(x, bpp);
      MulNonNegative(w, bpp);
      Distribute(x, w, bpp);
      StrideMonotone(x + w, width, bpp);
      StrideApart(y, height, rowstride);
    }

    lemma OffInRow(x: int, i: int, y: int)
      ensures Off(x + i, y) == Off(x, y) + i * bpp
    {
      Distribute(x, i, bpp);
    }

    /** The bytes of one pixel. */
    ghost function At(mem: seq<byte>, p: Pt): Pixel
      requires Fits(mem) && p in Points()
    {
      RowBound(mem, p.x, p.y, 1);
      mem[Off(p.x, p.y)..Off(p.x, p.y) + bpp]
    }

    /** The picture: one pixel value for each position. */
    ghost function Picture(mem: seq<byte>): Image
      requires Fits(mem)
    {
      map p | p in Points() :: At(mem, p)
    }

    /** Byte `k` belongs to no pixel: the tail of a row, or past the last row. */
    ghost predicate Padding(k: int)
    {
      forall p :: p in Points() ==> !(Off(p.x, p.y) <= k < Off(p.x, p.y) + bpp)
    }

    /** Writing the bytes of a stretch of a row changes the pixels of that stretch and no others. */
    lemma RowWritten(mem: seq<byte>, data: seq<byte>, x: nat, y: nat, w: nat)
      requires Fits(mem) && x + w <= width && y < height && |data| == w * bpp
      ensures 0 <= Off(x, y) && Off(x, y) + |data| <= |mem|
      ensures Picture(Splice(mem, Off(x, y), data)) == PutRow(Picture(mem), Pixels(data, bpp), x, y)
    {
      RowBound(mem, x, y, w);
      PixelsCount(data, bpp, w);
      var after, ps := Splice(mem, Off(x, y), data), Pixels(data, bpp);
      forall p | p in Points()
        ensures At(after, p) == if p.y == y && x <= p.x < x + w then ps[p.x - x] else At(mem, p)
      {
        PixelWritten(mem, data, x, y, w, p);
      }
    }

    lemma PixelWritten(mem: seq<byte>, data: seq<byte>, x: nat, y: nat, w: nat, p: Pt)
      requires Fits(mem) && x + w <= width && y < height && |data| == w * bpp && p in Points()
      requires 0 <= Off(x, y) && Off(x, y) + |data| <= |mem| && |Pixels(data, bpp)| == w
      ensures At(Splice(mem, Off(x, y), data), p)
           == if p.y == y && x <= p.x < x + w then Pixels(data, bpp)[p.x - x] else At(mem, p)
    {
      hide Pixels, Splice, Off;
      RowBound(mem, p.x, p.y, 1);
      SliceOfSplice(mem, Off(x, y), data, Off(p.x, p.y), bpp);
      if p.y == y && x <= p.x < x + w {
        PixelsAt(data, bpp, w, p.x - x);
        OffInRow(x, p.x - x, y);
      } else {
        RowApart(mem, x, y, w, p.x, p.y);
      }
    }

    /** A pixel outside a stretch of a row shares no byte with it. */
    lemma RowApart(mem: seq<byte>, x: nat, y: nat, w: nat, px: nat, py: nat)
      requires Fits(mem) && x + w <= width && y < height && px < width && py < height
      requires !(y == py && x <= px < x + w)
      ensures Off(px, py) + bpp <= Off(x, y) || Off(x, y) + w * bpp <= Off(px, py)
    {
      RowBound(mem, px, py, 1);
      RowBound(mem, x, y, w);
      if py < y {
        StrideApart(py, y, rowstride);
      } else if y < py {
        StrideApart(y, py, rowstride);
      } else if px < x {
        StrideApart(px, x, bpp);
      } else {
        StrideMonotone(x + w, px, bpp);
      }
    }

    /** Fewer bytes than the stretch holds change its first pixels, the last one perhaps in part. */
    lemma PartWritten(mem: seq<byte>, data: seq<byte>, x: nat, y: nat, w: nat)
      requires Fits(mem) && x + w <= width && y < height && |data| <= w * bpp
      ensures 0 <= Off(x, y) && Off(x, y) + |data| <= |mem|
      ensures Picture(Splice(mem, Off(x, y), data)) == PutBytes(Picture(mem), data, bpp, x, y)
    {
      hide Splice, Off;
      RowBound(mem, x, y, w);
      var after := Splice(mem, Off(x, y), data);
      forall p | p in Points()
        ensures At(after, p) == PutBytes(Picture(mem), data, bpp, x, y)[p]
      {
        BytesWritten(mem, data, x, y, w, p);
      }
    }

    lemma BytesWritten(mem: seq<byte>, data: seq<byte>, x: nat, y: nat, w: nat, p: Pt)
      requires Fits(mem) && x + w <= width && y < height && |data| <= w * bpp && p in Points()
      requires 0 <= Off(x, y) && Off(x, y) + |data| <= |mem|
      ensures At(Splice(mem, Off(x, y), data), p) ==
                if p.y == y && x <= p.x && 0 <= (p.x - x) * bpp < |data| then Over(data[(p.x - x) * bpp..], At(mem, p)) else At(mem, p)
    {
      hide Splice, Off, Over;
      RowBound(mem, p.x, p.y, 1);
      if p.y == y && x <= p.x < x + w {
        ghost var k := (p.x - x) * bpp;
        OffInRow(x, p.x - x, y);
        MulNonNegative(p.x - x, bpp);
        SliceOverSplice(mem, Off(x, y), data, k, bpp);
      } else {
        BytesElsewhere(mem, data, x, y, w, p);
      }
    }

    lemma BytesElsewhere(mem: seq<byte>, data: seq<byte>, x: nat, y: nat, w: nat, p: Pt)
      requires Fits(mem) && x + w <= width && y < height && |data| <= w * bpp && p in Points()
      requires 0 <= Off(x, y) && Off(x, y) + |data| <= |mem| && !(p.y == y && x <= p.x < x + w)
      ensures At(Splice(mem, Off(x, y), data), p) == At(mem, p)
      ensures p.y == y && x <= p.x ==> |data| <= (p.x - x) * bpp
    {
      hide Splice, Off;
      RowBound(mem, p.x, p.y, 1);
      RowApart(mem, x, y, w, p.x, p.y);
      SliceOfSplice(mem, Off(x, y), data, Off(p.x, p.y), bpp);
      if p.y == y && x <= p.x {
        StrideMonotone(w, p.x - x, bpp);
      }
    }

    /** ... and writing it touches no padding. */
    lemma RowHasNoPadding(x: nat, y: nat, w: nat, k: int)
      requires 0 < bpp && x + w <= width && y < height
      requires Off(x, y) <= k < Off(x, y) + w * bpp
      ensures !Padding(k)
    {
      var i := (k - Off(x, y)) / bpp;
      if w <= i {
        StrideMonotone(w, i, bpp);
        assert false;
      }
      Distribute(x, i, bpp);
      assert Pt(x + i, y) in Points();
    }

    /** Reading a stretch of a row gives the pixels of that stretch. */
    lemma RowRead(mem: seq<byte>, x: nat, y: nat, w: nat, i: nat)
      requires Fits(mem) && x + w <= width && y < height && i < w
      requires 0 <= w * bpp && 0 <= Off(x, y) && Off(x, y) + w * bpp <= |mem|
      requires |Pixels(mem[Off(x, y)..Off(x, y) + w * bpp], bpp)| == w
      ensures Pt(x + i, y) in Points()
      ensures Pixels(mem[Off(x, y)..Off(x, y) + w * bpp], bpp)[i] == At(mem, Pt(x + i, y))
    {
      PixelsAt(mem[Off(x, y)..Off(x, y) + w * bpp], bpp, w, i);
      Distribute(x, i, bpp);
      SliceOfSlice(mem, Off(x, y), Off(x, y) + w * bpp, i * bpp, i * bpp + bpp);
    }
  }

  lemma SliceOfSlice(s: seq<byte>, a: nat, b: nat, c: nat, d: nat)
    requires a <= b <= |s| && c <= d <= b - a
    ensures s[a..b][c..d] == s[a + c..a + d]
  {
    forall i | 0 <= i < d - c
      ensures s[a..b][c..d][i] == s[a + c..a + d][i]
    {
      assert s[a..b][c + i] == s[a + c + i];
    }
  }
}

/** The in-memory framebuffer (src/vncbaseframebuffer.c, src/vncbaseframebufferblt.h). */
module Framebuffers {
  import opened Arith
  import opened Bytes
  import opened Image
  import opened Layouts

  class Framebuffer {
    const buffer: array<byte>
    const layout: Layout
    const remoteBpp: nat                // bytes of a pixel on the wire
    const setPixel: Pixel -> Pixel      // SET_PIXEL of the format pair
    const perfectMatch: bool

    /** What the creator of a framebuffer promises. */
    ghost predicate Valid()
      reads buffer
    {
      && layout.Fits(buffer[..])
      && layout.width <= 0xFFFF && layout.height <= 0xFFFF
      && 0 < remoteBpp
      && (forall p :: |setPixel(p)| == layout.bpp)
      && (perfectMatch ==> layout.bpp == remoteBpp)
    }

    ghost function Img(): (r: Image)
      requires Valid()
      reads buffer
      ensures r.Keys == layout.Points()
    {
      layout.Picture(buffer[..])
    }

    /** The bytes no pixel uses. */
    ghost function Slack(): map<int, byte>
      reads buffer
    {
      map k | 0 <= k < buffer.Length && layout.Padding(k) :: buffer[k]
    }

    ghost predicate Inside(x: int, y: int, w: int, h: int)
    {
      0 <= x && 0 <= y && 0 <= w && 0 <= h && x + w <= layout.width && y + h <= layout.height
    }

    constructor (buffer: array<byte>, layout: Layout, remoteBpp: nat, setPixel: Pixel -> Pixel, perfectMatch: bool)
      requires layout.Fits(buffer[..]) && layout.width <= 0xFFFF && layout.height <= 0xFFFF && 0 < remoteBpp
      requires forall p :: |setPixel(p)| == layout.bpp
      requires perfectMatch ==> layout.bpp == remoteBpp
      ensures Valid() && this.buffer == buffer && this.layout == layout && this.remoteBpp == remoteBpp
      ensures this.setPixel == setPixel && this.perfectMatch == perfectMatch
    {
      this.buffer, this.layout, this.remoteBpp := buffer, layout, remoteBpp;
      this.setPixel, this.perfectMatch := setPixel, perfectMatch;
    }

    /** `memcpy` of the bytes of `w` pixels to (x, y). */
    method WriteRow(data: seq<byte>, x: nat, y: nat, w: nat)
      requires Valid() && Inside(x, y, w, 1) && |data| == w * layout.bpp
      modifies buffer
      ensures Valid() && Slack() == old(Slack())
      ensures Img() == PutRow(old(Img()), Pixels(data, layout.bpp), x, y)
    {
      layout.RowWritten(buffer[..], data, x, y, w);
      ghost var was := buffer[..];
      var at := layout.Off(x, y);
      forall k | 0 <= k < |data| { buffer[at + k] := data[k]; }
      assert buffer[..] == Splice(was, at, data);
      forall k | 0 <= k < buffer.Length && layout.Padding(k)
        ensures buffer[k] == was[k]
      {
        if at <= k < at + |data| {
          layout.RowHasNoPadding(x, y, w, k);
        }
      }
    }

    /** Bytes that arrive at (x, y), the last pixel reached perhaps not whole. */
    method WritePart(data: seq<byte>, x: nat, y: nat, w: nat)
      requires Valid() && Inside(x, y, w, 1) && |data| <= w * layout.bpp
      modifies buffer
      ensures Valid() && Slack() == old(Slack())
      ensures Img() == PutBytes(old(Img()), data, layout.bpp, x, y)
    {
      layout.PartWritten(buffer[..], data, x, y, w);
      layout.RowBound(buffer[..], x, y, w);
      ghost var was := buffer[..];
      var at := layout.Off(x, y);
      forall k | 0 <= k < |data| { buffer[at + k] := data[k]; }
      assert buffer[..] == Splice(was, at, data);
      forall k | 0 <= k < buffer.Length && layout.Padding(k)
        ensures buffer[k] == was[k]
      {
        if at <= k < at + |data| {
          layout.RowHasNoPadding(x, y, w, k);
        }
      }
    }

    /** `memmove` of `w` pixels within the buffer; the two stretches may overlap. */
    method MoveRow(sx: nat, sy: nat, dx: nat, dy: nat, w: nat)
      requires Valid() && Inside(sx, sy, w, 1) && Inside(dx, dy, w, 1)
      modifies buffer
      ensures Valid() && Slack() == old(Slack())
      ensures Img() == CopyArea(old(Img()), sx, sy, dx, dy, w, 1)
    {
      ghost var mem, was := buffer[..], Img();
      layout.RowBound(mem, sx, sy, w);
      var at, n := layout.Off(sx, sy), w * layout.bpp;
      ghost var ps := Pixels(mem[at..at + n], layout.bpp);
      PixelsCount(mem[at..at + n], layout.bpp, w);
      forall i | 0 <= i < w
        ensures Pt(sx + i, sy) in was && ps[i] == was[Pt(sx + i, sy)]
      {
        layout.RowRead(mem, sx, sy, w, i);
      }
      WriteRow(buffer[at..at + n], dx, dy, w);
      PutRowMoves(was, ps, sx, sy, dx, dy, w);
    }

    static lemma PutRowMoves(img: Image, ps: seq<Pixel>, sx: int, sy: int, dx: int, dy: int, w: nat)
      requires |ps| == w && forall i :: 0 <= i < w ==> Pt(sx + i, sy) in img && ps[i] == img[Pt(sx + i, sy)]
      ensures PutRow(img, ps, dx, dy) == CopyArea(img, sx, sy, dx, dy, w, 1)
    {
      forall p | p in img && InRect(p, dx, dy, w, 1)
        ensures Pt(p.x - dx + sx, p.y - dy + sy) in img
        ensures ps[p.x - dx] == img[Pt(p.x - dx + sx, p.y - dy + sy)]
      {
        var c := ps[p.x - dx];
      }
    }

    /** A store through a `dst_pixel_t *`. */
    method Store(c: Pixel, x: nat, y: nat)
      requires Valid() && Inside(x, y, 1, 1) && |c| == layout.bpp
      modifies buffer
      ensures Valid() && Slack() == old(Slack())
      ensures Img() == old(Img())[Pt(x, y) := c]
    {
      assert c[..layout.bpp] == c && Pixels(c[layout.bpp..], layout.bpp) == [];
      ghost var was := Img();
      WriteRow(c, x, y, 1);
      PutOne(was, c, x, y);
    }

    /** `vnc_framebuffer_set_pixel_at` */
    method SetPixelAt(p: Pixel, x: nat, y: nat)
      requires Valid() && Inside(x, y, 1, 1)
      modifies buffer
      ensures Valid() && Slack() == old(Slack())
      ensures Img() == old(Img())[Pt(x, y) := setPixel(p)]
    {
      Store(setPixel(p), x, y);
    }

    /** What the fill and blit functions store for a pixel off the wire. */
    function Shown(p: Pixel): Pixel
    {
      if perfectMatch then p else setPixel(p)
    }

    /** What can be filled: of an area of no rows, too, the first row is painted. */
    ghost predicate Fillable(x: int, y: int, w: int, h: nat)
    {
      Inside(x, y, w, h) && (w == 0 || Inside(x, y, w, Rows(h)))
    }

    /** FILL and FAST_FILL: paint the first row, then replicate it downwards. */
    method FillRows(c: Pixel, x: nat, y: nat, w: nat, h: nat)
      requires Valid() && Fillable(x, y, w, h) && |c| == layout.bpp
      modifies buffer
      ensures Valid() && Slack() == old(Slack())
      ensures Img() == FillRect(old(Img()), c, x, y, w, Rows(h))
    {
      hide FillRect, CopyArea, Layout.Picture, Slack;
      ghost var was := Img();
      FillRectNothing(was, c, x, y);
      for j := 0 to w
        invariant Valid() && Slack() == old(Slack())
        invariant Img() == FillRect(was, c, x, y, j, 1)
      {
        Store(c, x + j, y);
        FillRectColumn(was, c, x, y, j);
      }
      for i := 1 to Rows(h)
        invariant Valid() && Slack() == old(Slack())
        invariant Img() == FillRect(was, c, x, y, w, i)
      {
        MoveRow(x, y + i - 1, x, y + i, w);
        FillRectRow(was, c, x, y, w, i);
      }
    }

    /** `vnc_framebuffer_fill`; it always paints the first row. */
    method Fill(p: Pixel, x: nat, y: nat, w: nat, h: nat)
      requires Valid() && Fillable(x, y, w, h) && |p| == remoteBpp
      modifies buffer
      ensures Valid() && Slack() == old(Slack())
      ensures Img() == FillRect(old(Img()), Shown(p), x, y, w, Rows(h))
    {
      if perfectMatch {
        FillRows(p, x, y, w, h);
      } else {
        FillRows(setPixel(p), x, y, w, h);
      }
    }

    /** One row of `vnc_framebuffer_blt`: BLT converts each pixel, `blt_fast` copies the bytes. */
    method BltRow(data: seq<byte>, x: nat, y: nat, w: nat)
      requires Valid() && Inside(x, y, w, 1) && |data| == w * remoteBpp
      modifies buffer
      ensures Valid() && Slack() == old(Slack())
      ensures Img() == PutRow(old(Img()), Show(Pixels(data, remoteBpp)), x, y)
    {
      PixelsCount(data, remoteBpp, w);
      if perfectMatch {
        WriteRow(data, x, y, w);
        assert Show(Pixels(data, remoteBpp)) == Pixels(data, remoteBpp);
      } else {
        ConvertRow(data, x, y, w);
      }
    }

    method ConvertRow(data: seq<byte>, x: nat, y: nat, w: nat)
      requires Valid() && !perfectMatch && Inside(x, y, w, 1)
      requires |data| == w * remoteBpp && |Pixels(data, remoteBpp)| == w
      modifies buffer
      ensures Valid() && Slack() == old(Slack())
      ensures Img() == PutRow(old(Img()), Show(Pixels(data, remoteBpp)), x, y)
    {
      hide PutRow, Pixels, Layout.Picture, Slack;
      ghost var was, ps := Img(), Show(Pixels(data, remoteBpp));
      PutRowNothing(was, x, y);
      for i := 0 to w
        invariant Valid() && Slack() == old(Slack())
        invariant Img() == PutRow(was, ps[..i], x, y)
      {
        ConvertPixel(data, x, y, w, i, was);
      }
      assert ps[..w] == ps;
    }

    /** The body of its loop. */
    method ConvertPixel(data: seq<byte>, x: nat, y: nat, w: nat, i: nat, ghost was: Image)
      requires Valid() && !perfectMatch && Inside(x, y, w, 1) && i < w
      requires |data| == w * remoteBpp && |Pixels(data, remoteBpp)| == w
      requires Img() == PutRow(was, Show(Pixels(data, remoteBpp))[..i], x, y)
      modifies buffer
      ensures Valid() && Slack() == old(Slack())
      ensures Img() == PutRow(was, Show(Pixels(data, remoteBpp))[..i + 1], x, y)
    {
      hide PutRow, Pixels, Layout.Picture, Slack;
      ghost var ps := Show(Pixels(data, remoteBpp));
      PutRowKeys(was, ps[..i], x, y);
      PixelsAt(data, remoteBpp, w, i);
      SetPixelAt(data[i * remoteBpp..i * remoteBpp + remoteBpp], x + i, y);
      PutRowStep(was, ps, x, y, i);
    }

    function Show(ps: seq<Pixel>): (r: seq<Pixel>)
      ensures |r| == |ps|
      ensures forall i :: 0 <= i < |ps| ==> r[i] == Shown(ps[i])
    {
      seq(|ps|, i requires 0 <= i < |ps| => Shown(ps[i]))
    }

    function Stored(ps: seq<Pixel>): (r: seq<Pixel>)
      ensures |r| == |ps|
      ensures forall i :: 0 <= i < |ps| ==> r[i] == setPixel(ps[i])
    {
      seq(|ps|, i requires 0 <= i < |ps| => setPixel(ps[i]))
    }

    /** `vnc_framebuffer_blt` of `h` rows that lie `stride` apart in `src`. */
    method Blt(src: seq<byte>, stride: nat, x: nat, y: nat, w: nat, h: nat)
      requires Valid() && Inside(x, y, w, h)
      requires forall j :: 0 <= j < h ==> 0 <= j * stride && 0 <= w * remoteBpp && j * stride + w * remoteBpp <= |src|
      modifies buffer
      ensures Valid() && Slack() == old(Slack())
      ensures Img() == PutRows(old(Img()), SourceRows(src, stride, w, h), x, y)
    {
      hide PutRows, PutRow;
      ghost var was, rows := Img(), SourceRows(src, stride, w, h);
      PutRowsNothing(was, x, y);
      for j := 0 to h
        invariant Valid() && Slack() == old(Slack())
        invariant Img() == PutRows(was, rows[..j], x, y)
      {
        BltRow(src[j * stride..j * stride + w * remoteBpp], x, y + j, w);
        PutRowsStep(was, rows, x, y, j);
      }
      assert rows[..h] == rows;
    }

    function SourceRows(src: seq<byte>, stride: nat, w: nat, h: nat): (r: seq<seq<Pixel>>)
      requires 0 < remoteBpp
      requires forall j :: 0 <= j < h ==> 0 <= j * stride && 0 <= w * remoteBpp && j * stride + w * remoteBpp <= |src|
      ensures |r| == h
      ensures forall j :: 0 <= j < h ==> r[j] == Show(Pixels(src[j * stride..j * stride + w * remoteBpp], remoteBpp))
    {
      seq(h, j requires 0 <= j < h => Show(Pixels(src[j * stride..j * stride + w * remoteBpp], remoteBpp)))
    }

    /** `vnc_framebuffer_copyrect`: row by row, in the order that an overlap asks for. */
    method CopyRect(sx: nat, sy: nat, dx: nat, dy: nat, w: nat, h: nat)
      requires Valid() && Inside(sx, sy, w, h) && Inside(dx, dy, w, h)
      modifies buffer
      ensures Valid() && Slack() == old(Slack())
      ensures Img() == CopyArea(old(Img()), sx, sy, dx, dy, w, h)
    {
      hide CopyArea, CopiedRows;
      var srcy, dsty, step := sy, dy, 1;
      if srcy < dsty {
        srcy, dsty, step := sy + (h - 1), dy + (h - 1), -1;
      }
      ghost var was := Img();
      CopiedRowsEnds(was, sx, sy, dx, dy, w, h);
      for i := 0 to h
        invariant Valid() && Slack() == old(Slack())
        invariant srcy == sy + NthRow(sy, dy, h, i) && dsty == dy + NthRow(sy, dy, h, i)
        invariant step == if sy < dy then -1 else 1
        invariant Img() == CopiedRows(was, sx, sy, dx, dy, w, h, i)
      {
        MoveRow(sx, srcy, dx, dsty, w);
        CopiedRowsStep(was, sx, sy, dx, dy, w, h, i);
        srcy, dsty := srcy + step, dsty + step;
      }
    }
  }

  /** The row copied at iteration `i` of a copy of `h` rows. */
  function NthRow(sy: int, dy: int, h: int, i: int): int
  {
    if sy < dy then h - 1 - i else i
  }

  /** What has been copied after `i` iterations. */
  function CopiedRows(img: Image, sx: int, sy: int, dx: int, dy: int, w: int, h: int, i: int): Image
  {
    if sy < dy then CopyArea(img, sx, sy + h - i, dx, dy + h - i, w, i)
    else CopyArea(img, sx, sy, dx, dy, w, i)
  }

  lemma CopiedRowsEnds(img: Image, sx: int, sy: int, dx: int, dy: int, w: int, h: int)
    ensures CopiedRows(img, sx, sy, dx, dy, w, h, 0) == img
    ensures CopiedRows(img, sx, sy, dx, dy, w, h, h) == CopyArea(img, sx, sy, dx, dy, w, h)
  {
  }

  lemma CopiedRowsStep(img: Image, sx: int, sy: int, dx: int, dy: int, w: int, h: int, i: nat)
    ensures var r := NthRow(sy, dy, h, i);
            CopyArea(CopiedRows(img, sx, sy, dx, dy, w, h, i), sx, sy + r, dx, dy + r, w, 1)
            == CopiedRows(img, sx, sy, dx, dy, w, h, i + 1)
  {
    hide CopyArea;
    if sy < dy {
      CopyAreaFromBottom(img, sx, sy + h - i, dx, dy + h - i, w, i);
    } else {
      CopyAreaFromTop(img, sx, sy, dx, dy, w, i);
    }
  }

  /** The number of rows a fill of height `h` paints. */
  function Rows(h: nat): nat
  {
    if h == 0 then 1 else h
  }

  /** One of the two ways in which a wire pixel becomes a stored one. */
  predicate Renders(fb: Framebuffer, p: Pixel, stored: Pixel)
  {
    stored == fb.Shown(p) || stored == fb.setPixel(p)
  }

  lemma FillRectNothing(img: Image, c: Pixel, x: int, y: int)
    ensures FillRect(img, c, x, y, 0, 1) == img
  {
  }

  lemma FillRectColumn(img: Image, c: Pixel, x: int, y: int, j: nat)
    requires Pt(x + j, y) in img
    ensures FillRect(img, c, x, y, j, 1)[Pt(x + j, y) := c] == FillRect(img, c, x, y, j + 1, 1)
  {
  }

  lemma FillRectRow(img: Image, c: Pixel, x: int, y: int, w: nat, i: nat)
    requires 0 < i && forall p :: InRect(p, x, y + i - 1, w, 1) ==> p in img
    ensures CopyArea(FillRect(img, c, x, y, w, i), x, y + i - 1, x, y + i, w, 1) == FillRect(img, c, x, y, w, i + 1)
  {
  }
}
