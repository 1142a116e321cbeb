/** Pixels, and images as what the framebuffer operations mean. */
module Image {
  import opened Arith
  import opened Bytes

  /** A pixel as it lies in memory. */
  type Pixel = seq<byte>

  datatype Pt = Pt(x: int, y: int)

  type Image = map<Pt, Pixel>

  function Grid(width: nat, height: nat): set<Pt>
  {
    set x, y | 0 <= x < width && 0 <= y < height :: Pt(x, y)
  }

  predicate InRect(p: Pt, x: int, y: int, w: int, h: int)
  {
    x <= p.x < x + w && y <= p.y < y + h
  }

  /** `c` on every pixel of the rectangle, the rest unchanged. */
  function FillRect(img: Image, c: Pixel, x: int, y: int, w: int, h: int): Image
  {
    map p | p in img :: if InRect(p, x, y, w, h) then c else img[p]
  }

  /** Where `p` falls in a row-major walk of a rectangle `w` wide at (x, y). */
  function Index(p: Pt, x: int, y: int, w: int): int
  {
    Cell(p.x - x, p.y - y, w)
  }

  /** The first |pixels| pixels of the rectangle, row by row, the rest unchanged. */
  function Blit(img: Image, pixels: seq<Pixel>, x: int, y: int, w: int): Image
  {
    map p | p in img ::
      if x <= p.x < x + w && y <= p.y && 0 <= Index(p, x, y, w) < |pixels| then pixels[Index(p, x, y, w)] else img[p]
  }

  /** One row of pixels starting at (x, y), the rest unchanged. */
  function PutRow(img: Image, pixels: seq<Pixel>, x: int, y: int): Image
  {
    map p | p in img :: if p.y == y && x <= p.x < x + |pixels| then pixels[p.x - x] else img[p]
  }

  /** Bytes written from the start of a pixel on. */
  function Over(data: seq<byte>, p: Pixel): (r: Pixel)
    ensures |r| == |p|
  {
    if |p| <= |data| then data[..|p|] else data + p[|data|..]
  }

  /** Bytes written over the row of pixels that starts at (x, y). */
  function PutBytes(img: Image, data: seq<byte>, bpp: nat, x: int, y: int): Image
  {
    map p | p in img ::
      if p.y == y && x <= p.x && 0 <= (p.x - x) * bpp < |data| then Over(data[(p.x - x) * bpp..], img[p]) else img[p]
  }

  /** Several rows of pixels, the first starting at (x, y), the rest unchanged. */
  function PutRows(img: Image, rows: seq<seq<Pixel>>, x: int, y: int): Image
  {
    map p | p in img ::
      if 0 <= p.y - y < |rows| && 0 <= p.x - x < |rows[p.y - y]| then rows[p.y - y][p.x - x] else img[p]
  }

  /** Each pixel of the destination gets what its source held before the copy. */
  function CopyArea(img: Image, sx: int, sy: int, dx: int, dy: int, w: int, h: int): Image
  {
    map p | p in img ::
      var q := Pt(p.x - dx + sx, p.y - dy + sy);
      if InRect(p, dx, dy, w, h) && q in img then img[q] else img[p]
  }

  /** Row by row from the top copies an area whose source does not start higher ... */
  lemma CopyAreaFromTop(img: Image, sx: int, sy: int, dx: int, dy: int, w: int, i: nat)
    requires dy <= sy
    ensures CopyArea(CopyArea(img, sx, sy, dx, dy, w, i), sx, sy + i, dx, dy + i, w, 1)
         == CopyArea(img, sx, sy, dx, dy, w, i + 1)
  {
  }

  /** ... and from the bottom one whose source does. */
  lemma CopyAreaFromBottom(img: Image, sx: int, sy: int, dx: int, dy: int, w: int, i: nat)
    requires sy <= dy
    ensures CopyArea(CopyArea(img, sx, sy, dx, dy, w, i), sx, sy - 1, dx, dy - 1, w, 1)
         == CopyArea(img, sx, sy - 1, dx, dy - 1, w, i + 1)
  {
  }

  /** Memory cut into pixels of `bpp` bytes. */
  function Pixels(data: seq<byte>, bpp: nat): seq<Pixel>
    requires 0 < bpp
  {
    if |data| < bpp then [] else [data[..bpp]] + Pixels(data[bpp..], bpp)
  }

  lemma PixelsAt(data: seq<byte>, bpp: nat, w: nat, i: nat)
    requires 0 < bpp && |data| == w * bpp && i < w
    ensures |Pixels(data, bpp)| == w && 0 <= i * bpp && i * bpp + bpp <= |data|
    ensures Pixels(data, bpp)[i] == data[i * bpp..i * bpp + bpp]
  {
    StrideApart(0, w, bpp);
    assert |data[bpp..]| == (w - 1) * bpp by { Distribute(w, -1, bpp); }
    if i == 0 {
      if w == 1 {
        assert Pixels(data[bpp..], bpp) == [];
      } else {
        PixelsAt(data[bpp..], bpp, w - 1, 0);
      }
    } else {
      PixelsAt(data[bpp..], bpp, w - 1, i - 1);
      Distribute(i, -1, bpp);
      MulNonNegative(i - 1, bpp);
    }
  }

  lemma PixelsCount(data: seq<byte>, bpp: nat, w: nat)
    requires 0 < bpp && |data| == w * bpp
    ensures |Pixels(data, bpp)| == w
  {
    if 0 < w {
      PixelsAt(data, bpp, w, 0);
    }
  }

  lemma PutOne(img: Image, c: Pixel, x: int, y: int)
    requires Pt(x, y) in img
    ensures PutRow(img, [c], x, y) == img[Pt(x, y) := c]
  {
  }

  lemma PutRowNothing(img: Image, x: int, y: int)
    ensures PutRow(img, [], x, y) == img
  {
  }

  lemma PutRowStep(img: Image, ps: seq<Pixel>, x: int, y: int, i: nat)
    requires i < |ps| && Pt(x + i, y) in img
    ensures PutRow(img, ps[..i], x, y)[Pt(x + i, y) := ps[i]] == PutRow(img, ps[..i + 1], x, y)
  {
  }

  lemma PutRowsNothing(img: Image, x: int, y: int)
    ensures PutRows(img, [], x, y) == img
  {
  }

  lemma PutFirstRow(img: Image, first: seq<Pixel>, more: seq<seq<Pixel>>, x: int, y: int)
    ensures PutRows(PutRow(img, first, x, y), more, x, y + 1) == PutRows(img, [first] + more, x, y)
  {
    hide PutRow, PutRows;
    var all := [first] + more;
    PutRowKeys(img, first, x, y);
    PutRowsKeys(PutRow(img, first, x, y), more, x, y + 1);
    PutRowsKeys(img, all, x, y);
    forall p | p in img
      ensures PutRows(PutRow(img, first, x, y), more, x, y + 1)[p] == PutRows(img, all, x, y)[p]
    {
      PutRowAt(img, first, x, y, p);
      PutRowsAt(PutRow(img, first, x, y), more, x, y + 1, p);
      PutRowsAt(img, all, x, y, p);
    }
  }

  lemma PutRowsKeys(img: Image, rows: seq<seq<Pixel>>, x: int, y: int)
    ensures PutRows(img, rows, x, y).Keys == img.Keys
  {
  }

  lemma PutRowsAt(img: Image, rows: seq<seq<Pixel>>, x: int, y: int, p: Pt)
    requires p in img
    ensures p in PutRows(img, rows, x, y)
    ensures PutRows(img, rows, x, y)[p] ==
              if 0 <= p.y - y < |rows| && 0 <= p.x - x < |rows[p.y - y]| then rows[p.y - y][p.x - x] else img[p]
  {
  }

  lemma PutRowsStep(img: Image, rows: seq<seq<Pixel>>, x: int, y: int, j: nat)
    requires j < |rows|
    ensures PutRow(PutRows(img, rows[..j], x, y), rows[j], x, y + j) == PutRows(img, rows[..j + 1], x, y)
  {
  }

  /** Blitting one pixel more is setting one pixel more. */
  lemma BlitStep(img: Image, pixels: seq<Pixel>, c: Pixel, x: int, y: int, w: int, i: int, j: int)
    requires 0 <= i < w && 0 <= j && |pixels| == Cell(i, j, w)
    requires Pt(x + i, y + j) in img
    ensures Blit(img, pixels + [c], x, y, w) == Blit(img, pixels, x, y, w)[Pt(x + i, y + j) := c]
  {
    var a, b := Blit(img, pixels + [c], x, y, w), Blit(img, pixels, x, y, w)[Pt(x + i, y + j) := c];
    forall p | p in img
      ensures a[p] == b[p]
    {
      if x <= p.x < x + w && y <= p.y && Index(p, x, y, w) == j * w + i {
        DigitsUnique(p.y - y, p.x - x, j, i, w);
      }
    }
  }

  /** ... and one row more is putting one row more. */
  lemma BlitRowStep(img: Image, all: seq<Pixel>, x: int, y: int, w: nat, j: nat)
    requires 0 <= Cell(0, j, w) && Cell(0, j, w) + w <= |all|
    ensures var k := Cell(0, j, w);
            PutRow(Blit(img, all[..k], x, y, w), all[k..k + w], x, y + j) == Blit(img, all[..k + w], x, y, w)
  {
    hide Cell, Blit, PutRow;
    var k := Cell(0, j, w);
    var done, row, more := all[..k], all[k..k + w], all[..k + w];
    BlitKeys(img, done, x, y, w);
    BlitKeys(img, more, x, y, w);
    PutRowKeys(Blit(img, done, x, y, w), row, x, y + j);
    forall p | p in img
      ensures PutRow(Blit(img, done, x, y, w), row, x, y + j)[p] == Blit(img, more, x, y, w)[p]
    {
      BlitRowStepAt(img, all, x, y, w, j, p);
    }
  }

  lemma BlitKeys(img: Image, pixels: seq<Pixel>, x: int, y: int, w: int)
    ensures Blit(img, pixels, x, y, w).Keys == img.Keys
  {
  }

  lemma PutRowKeys(img: Image, pixels: seq<Pixel>, x: int, y: int)
    ensures PutRow(img, pixels, x, y).Keys == img.Keys
  {
  }

  lemma BlitRowStepAt(img: Image, all: seq<Pixel>, x: int, y: int, w: nat, j: nat, p: Pt)
    requires 0 <= Cell(0, j, w) && Cell(0, j, w) + w <= |all| && p in img
    ensures var k := Cell(0, j, w);
            PutRow(Blit(img, all[..k], x, y, w), all[k..k + w], x, y + j)[p] == Blit(img, all[..k + w], x, y, w)[p]
  {
    hide Cell, Blit, PutRow;
    var k, i, r := Cell(0, j, w), p.x - x, p.y - y;
    var done, row, more := all[..k], all[k..k + w], all[..k + w];
    BlitAt(img, done, x, y, w, p);
    BlitAt(img, more, x, y, w, p);
    PutRowAt(Blit(img, done, x, y, w), row, x, y + j, p);
    if 0 <= i < w {
      RowOfCell(i, r, j, w);
    }
  }

  lemma BlitAt(img: Image, pixels: seq<Pixel>, x: int, y: int, w: int, p: Pt)
    requires p in img
    ensures p in Blit(img, pixels, x, y, w)
    ensures Blit(img, pixels, x, y, w)[p] ==
              var c := Cell(p.x - x, p.y - y, w);
              if 0 <= p.x - x < w && 0 <= p.y - y && 0 <= c < |pixels| then pixels[c] else img[p]
  {
    hide Cell;
  }

  lemma PutRowAt(img: Image, pixels: seq<Pixel>, x: int, y: int, p: Pt)
    requires p in img
    ensures p in PutRow(img, pixels, x, y)
    ensures PutRow(img, pixels, x, y)[p] == if p.y == y && 0 <= p.x - x < |pixels| then pixels[p.x - x] else img[p]
  {
  }

  lemma RowOfCell(i: int, r: int, j: nat, w: int)
    requires 0 <= i < w
    ensures r == j ==> Cell(i, r, w) == Cell(0, j, w) + i
    ensures j < r ==> Cell(0, j, w) + w <= Cell(i, r, w)
    ensures r < j ==> Cell(i, r, w) < Cell(0, j, w)
  {
    if r < j {
      StrideApart(r, j, w);
    } else if j < r {
      StrideApart(j, r, w);
    }
  }

  lemma BlitNothing(img: Image, x: int, y: int, w: int)
    ensures Blit(img, [], x, y, w) == img
  {
  }

  /** Rows that are the consecutive stretches of `all` put what `all` blits. */
  lemma {:induction false} PutRowsIsBlit(img: Image, rows: seq<seq<Pixel>>, all: seq<Pixel>, x: int, y: int, w: nat, j: nat)
    requires j <= |rows|
    requires forall r :: 0 <= r < |rows| ==> RowIs(rows[r], all, w, r)
    ensures 0 <= Cell(0, j, w) && (0 < j ==> Cell(0, j, w) <= |all|)
    ensures 0 < j || all == [] ==> PutRows(img, rows[..j], x, y) == Blit(img, all[..Cell(0, j, w)], x, y, w)
  {
    hide Blit, PutRow, PutRows, Cell;
    CellWalk(0, 0, w, 0);
    if j == 0 {
      PutRowsNothing(img, x, y);
      BlitNothing(img, x, y, w);
      assert rows[..0] == [];
      assert all == [] ==> all[..0] == [];
    } else {
      PutRowsIsBlit(img, rows, all, x, y, w, j - 1);
      assert RowIs(rows[j - 1], all, w, j - 1);
      PutRowsStep(img, rows, x, y, j - 1);
      BlitRowStep(img, all, x, y, w, j - 1);
      CellAdds(j - 1, w);
      if j == 1 {
        PutRowsNothing(img, x, y);
        BlitNothing(img, x, y, w);
        assert rows[..0] == [] && all[..0] == [];
      }
    }
  }

  predicate RowIs(row: seq<Pixel>, all: seq<Pixel>, w: nat, r: int)
  {
    0 <= Cell(0, r, w) && Cell(0, r, w) + w <= |all| && row == all[Cell(0, r, w)..Cell(0, r, w) + w]
  }

  /** One colour everywhere fills the rectangle. */
  lemma FillIsBlit(img: Image, c: Pixel, x: int, y: int, w: nat, h: nat, all: seq<Pixel>)
    requires |all| == w * h && forall k :: 0 <= k < |all| ==> all[k] == c
    ensures FillRect(img, c, x, y, w, h) == Blit(img, all, x, y, w)
  {
    var a, b := FillRect(img, c, x, y, w, h), Blit(img, all, x, y, w);
    forall p | p in img
      ensures a[p] == b[p]
    {
      if x <= p.x < x + w {
        RowOfCell(p.x - x, p.y - y, h, w);
        if 0 <= p.y - y < h {
          CellWalk(p.x - x, p.y - y, w, h);
        }
      }
    }
  }

  /** The bytes of pixels laid one after the other. */
  function Join(ps: seq<Pixel>): seq<byte>
  {
    if ps == [] then [] else ps[0] + Join(ps[1..])
  }

  lemma {:induction false} JoinLength(ps: seq<Pixel>, bpp: nat)
    requires forall i :: 0 <= i < |ps| ==> |ps[i]| == bpp
    ensures |Join(ps)| == |ps| * bpp
  {
    if ps != [] {
      JoinLength(ps[1..], bpp);
      Distribute(|ps| - 1, 1, bpp);
    }
  }

  lemma {:induction false} JoinPixels(ps: seq<Pixel>, bpp: nat)
    requires 0 < bpp && forall i :: 0 <= i < |ps| ==> |ps[i]| == bpp
    ensures Pixels(Join(ps), bpp) == ps
  {
    if ps != [] {
      JoinPixels(ps[1..], bpp);
      assert Join(ps)[..bpp] == ps[0] && Join(ps)[bpp..] == Join(ps[1..]);
    }
  }

  /** A stretch of the bytes is the bytes of a stretch. */
  lemma {:induction false} JoinSlice(ps: seq<Pixel>, bpp: nat, k: nat, n: nat)
    requires k + n <= |ps| && forall i :: 0 <= i < |ps| ==> |ps[i]| == bpp
    ensures 0 <= k * bpp && 0 <= n * bpp && k * bpp + n * bpp <= |Join(ps)|
    ensures Join(ps)[k * bpp..k * bpp + n * bpp] == Join(ps[k..k + n])
  {
    JoinLength(ps, bpp);
    MulNonNegative(k, bpp);
    MulNonNegative(n, bpp);
    Distribute(k, n, bpp);
    StrideMonotone(k + n, |ps|, bpp);
    assert ps == ps[..k] + (ps[k..k + n] + ps[k + n..]);
    JoinAppends(ps[..k], ps[k..k + n] + ps[k + n..]);
    JoinAppends(ps[k..k + n], ps[k + n..]);
    JoinLength(ps[..k], bpp);
    JoinLength(ps[k..k + n], bpp);
  }

  lemma {:induction false} JoinAppends(a: seq<Pixel>, b: seq<Pixel>)
    ensures Join(a + b) == Join(a) + Join(b)
  {
    if a == [] {
      assert a + b == b;
    } else {
      assert (a + b)[1..] == a[1..] + b;
      JoinAppends(a[1..], b);
    }
  }
}
