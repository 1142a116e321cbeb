/** Painter's semantics, and the Raw, RRE and Hextile encodings (sections 7.7.1, 7.7.3, 7.7.4 of RFC 6143). */
module Painter {
  import opened Bytes
  import opened Feed
  import opened Framebuffers
  import opened Image
  import opened Tiles

  /** A subrectangle, relative to its tile or rectangle. */
  datatype Sub = Sub(colour: Pixel, x: nat, y: nat, w: nat, h: nat) {

    predicate Covers(q: Pt)
    {
      InRect(q, x, y, w, h)
    }

    predicate Within(w': nat, h': nat)
    {
      1 <= w && 1 <= h && x + w <= w' && y + h <= h'
    }
  }

  /** The colour on top at `q`: that of the last subrectangle covering it, or what is below them all. */
  function Top(below: Pixel, subs: seq<Sub>, q: Pt): Pixel
  {
    if subs == [] then below
    else
      var last := subs[|subs| - 1];
      if last.Covers(q) then last.colour else Top(below, subs[..|subs| - 1], q)
  }

  /** The subrectangles of something at (x, y), painted in order. */
  ghost function Paint(fb: Framebuffer, img: Image, subs: seq<Sub>, x: int, y: int): Image
  {
    if subs == [] then img
    else
      var s := subs[0];
      Paint(fb, FillRect(img, fb.Shown(s.colour), x + s.x, y + s.y, s.w, s.h), subs[1..], x, y)
  }

  lemma {:induction false} PaintLast(fb: Framebuffer, img: Image, subs: seq<Sub>, s: Sub, x: int, y: int)
    ensures Paint(fb, img, subs + [s], x, y)
         == FillRect(Paint(fb, img, subs, x, y), fb.Shown(s.colour), x + s.x, y + s.y, s.w, s.h)
    decreases |subs|
  {
    hide FillRect;
    if subs == [] {
      assert ([] + [s])[1..] == [];
    } else {
      assert (subs + [s])[1..] == subs[1..] + [s];
      PaintLast(fb, FillRect(img, fb.Shown(subs[0].colour), x + subs[0].x, y + subs[0].y, subs[0].w, subs[0].h), subs[1..], s, x, y);
    }
  }

  /** Painting in order leaves on each pixel the colour on top, and nothing where no subrectangle is. */
  lemma {:induction false} PaintShowsTop(fb: Framebuffer, img: Image, subs: seq<Sub>, below: Pixel, x: int, y: int, p: Pt)
    requires p in img
    ensures p in Paint(fb, img, subs, x, y)
    ensures img[p] == fb.Shown(below) ==>
              Paint(fb, img, subs, x, y)[p] == fb.Shown(Top(below, subs, Pt(p.x - x, p.y - y)))
    ensures (forall k :: 0 <= k < |subs| ==> !subs[k].Covers(Pt(p.x - x, p.y - y))) ==> Paint(fb, img, subs, x, y)[p] == img[p]
    decreases |subs|
  {
    if subs != [] {
      var front, last := subs[..|subs| - 1], subs[|subs| - 1];
      assert subs == front + [last];
      PaintLast(fb, img, front, last, x, y);
      PaintShowsTop(fb, img, front, below, x, y, p);
    }
  }

  /* Raw. */

  /** A row of `n` bytes; where they are read straight into the framebuffer, those that arrive change it. */
  ghost function RawRow(fb: Framebuffer, img: Image, s: Feed, n: nat, x: int, y: int): Image
    requires 0 < fb.remoteBpp
  {
    if fb.perfectMatch && Take(s, n).1.Dead? then PutBytes(img, Arrived(s, n), fb.remoteBpp, x, y)
    else PutRow(img, fb.Show(Pixels(Take(s, n).0, fb.remoteBpp)), x, y)
  }

  ghost function RunRaw(fb: Framebuffer, s: Feed, img: Image, x: int, y: int, w: nat, h: nat): (Feed, Image)
    requires 0 < fb.remoteBpp
    decreases h
  {
    if h == 0 then (s, img)
    else
      var n := w * fb.remoteBpp;
      RunRaw(fb, Take(s, n).1, RawRow(fb, img, s, n, x, y), x, y + 1, w, h - 1)
  }

  predicate AllSized(ps: seq<Pixel>, bpp: nat)
  {
    forall i :: 0 <= i < |ps| ==> |ps[i]| == bpp
  }

  function JoinRows(rows: seq<seq<Pixel>>): seq<byte>
  {
    if rows == [] then [] else Join(rows[0]) + JoinRows(rows[1..])
  }

  ghost function ShowRows(fb: Framebuffer, rows: seq<seq<Pixel>>): (r: seq<seq<Pixel>>)
    ensures |r| == |rows| && forall j :: 0 <= j < |rows| ==> r[j] == fb.Show(rows[j])
  {
    seq(|rows|, j requires 0 <= j < |rows| => fb.Show(rows[j]))
  }

  lemma {:induction false} RawInverts(fb: Framebuffer, img: Image, rows: seq<seq<Pixel>>, x: int, y: int, w: nat, rest: seq<byte>)
    requires 0 < fb.remoteBpp && forall j :: 0 <= j < |rows| ==> |rows[j]| == w && AllSized(rows[j], fb.remoteBpp)
    ensures RunRaw(fb, Live(JoinRows(rows) + rest), img, x, y, w, |rows|) == (Live(rest), PutRows(img, ShowRows(fb, rows), x, y))
    decreases |rows|
  {
    hide PutRow, PutRows, Join, Pixels, Framebuffer.Show, AllSized;
    if rows == [] {
      assert JoinRows(rows) + rest == rest;
      PutRowsNothing(img, x, y);
    } else {
      var more := JoinRows(rows[1..]);
      Append(Join(rows[0]), more, rest);
      JoinedRow(rows[0], fb.remoteBpp);
      TakePrefix(Join(rows[0]), more + rest);
      var first := fb.Show(rows[0]);
      RawInverts(fb, PutRow(img, first, x, y), rows[1..], x, y + 1, w, rest);
      assert ShowRows(fb, rows) == [first] + ShowRows(fb, rows[1..]);
      PutFirstRow(img, first, ShowRows(fb, rows[1..]), x, y);
    }
  }

  lemma JoinedRow(ps: seq<Pixel>, bpp: nat)
    requires 0 < bpp && AllSized(ps, bpp)
    ensures |Join(ps)| == |ps| * bpp && Pixels(Join(ps), bpp) == ps
  {
    JoinLength(ps, bpp);
    JoinPixels(ps, bpp);
  }

  /* RRE. */

  /** `n` RRE subrectangles of the rectangle at (x, y); the additions are made in 16 bits. */
  ghost function RunSubrects(fb: Framebuffer, s: Feed, img: Image, n: nat, x: nat, y: nat): (Feed, Image)
    decreases n
  {
    if n == 0 then (s, img)
    else
      var (sub, g) := ReadSub(fb, s);
      var ax, ay := (x + sub.x) % 0x1_0000, (y + sub.y) % 0x1_0000;
      if g.Dead? || !fb.Inside(ax, ay, sub.w, sub.h) then (Dead, img)
      else RunSubrects(fb, g, FillRect(img, fb.Shown(sub.colour), ax, ay, sub.w, Rows(sub.h)), n - 1, x, y)
  }

  function ReadSub(fb: Framebuffer, s: Feed): (Sub, Feed)
  {
    var (c, s1) := Take(s, fb.remoteBpp);
    var (sx, s2) := TakeU16(s1);
    var (sy, s3) := TakeU16(s2);
    var (sw, s4) := TakeU16(s3);
    var (sh, s5) := TakeU16(s4);
    (Sub(c, sx, sy, sw, sh), s5)
  }

  /**
   * No subrectangle of no rows is sent right below the last row of the
   * framebuffer: filling one paints a first row, past the buffer.
   */
  ghost predicate Paintable(fb: Framebuffer, s: Feed, n: nat, x: nat, y: nat)
    decreases n
  {
    n == 0 ||
    var (sub, g) := ReadSub(fb, s);
    var ax, ay := (x + sub.x) % 0x1_0000, (y + sub.y) % 0x1_0000;
    g.Dead? || !fb.Inside(ax, ay, sub.w, sub.h)
    || (fb.Fillable(ax, ay, sub.w, sub.h) && Paintable(fb, g, n - 1, x, y))
  }

  ghost function RunRre(fb: Framebuffer, s: Feed, img: Image, x: nat, y: nat, w: nat, h: nat): (Feed, Image)
  {
    var (n, s1) := TakeU32(s);
    var (bg, s2) := Take(s1, fb.remoteBpp);
    RunSubrects(fb, s2, FillRect(img, fb.Shown(bg), x, y, w, Rows(h)), n, x, y)
  }

  ghost predicate RrePaintable(fb: Framebuffer, s: Feed, x: nat, y: nat, w: nat, h: nat)
  {
    var (n, s1) := TakeU32(s);
    fb.Fillable(x, y, w, h) && Paintable(fb, Take(s1, fb.remoteBpp).1, n, x, y)
  }

  function EncodeSub(s: Sub): seq<byte>
    requires s.x <= 0xFFFF && s.y <= 0xFFFF && s.w <= 0xFFFF && s.h <= 0xFFFF
  {
    s.colour + (EncU16(s.x) + (EncU16(s.y) + (EncU16(s.w) + EncU16(s.h))))
  }

  predicate LegalSubs(subs: seq<Sub>, bpp: nat, w: nat, h: nat)
  {
    forall k :: 0 <= k < |subs| ==> |subs[k].colour| == bpp && subs[k].Within(w, h)
  }

  function EncodeSubs(subs: seq<Sub>, bpp: nat, w: nat, h: nat): seq<byte>
    requires LegalSubs(subs, bpp, w, h) && w <= 0xFFFF && h <= 0xFFFF
  {
    if subs == [] then [] else EncodeSub(subs[0]) + EncodeSubs(subs[1..], bpp, w, h)
  }

  lemma ReadSubInverts(fb: Framebuffer, s: Sub, rest: seq<byte>)
    requires |s.colour| == fb.remoteBpp && s.x <= 0xFFFF && s.y <= 0xFFFF && s.w <= 0xFFFF && s.h <= 0xFFFF
    ensures ReadSub(fb, Live(EncodeSub(s) + rest)) == (s, Live(rest))
  {
    hide EncU16, U16, Take, TakeU16;
    var e4 := EncU16(s.h);
    var e3 := EncU16(s.w) + e4;
    var e2 := EncU16(s.y) + e3;
    var e1 := EncU16(s.x) + e2;
    Append(s.colour, e1, rest);
    Append(EncU16(s.x), e2, rest);
    Append(EncU16(s.y), e3, rest);
    Append(EncU16(s.w), e4, rest);
    TakePrefix(s.colour, e1 + rest);
    TakeU16Prefix(s.x, e2 + rest);
    TakeU16Prefix(s.y, e3 + rest);
    TakeU16Prefix(s.w, e4 + rest);
    TakeU16Prefix(s.h, rest);
  }

  /** A subrectangle within its tile lies inside the framebuffer, and its position does not wrap. */
  lemma SubInside(fb: Framebuffer, s: Sub, x: nat, y: nat, w: nat, h: nat)
    requires s.Within(w, h) && fb.Inside(x, y, w, h) && fb.layout.width <= 0xFFFF && fb.layout.height <= 0xFFFF
    ensures (x + s.x) % 0x1_0000 == x + s.x && (y + s.y) % 0x1_0000 == y + s.y
    ensures fb.Inside(x + s.x, y + s.y, s.w, s.h)
  {
  }

  lemma {:induction false} RunSubrectsInverts(fb: Framebuffer, img: Image, subs: seq<Sub>, x: nat, y: nat, w: nat, h: nat, rest: seq<byte>)
    requires LegalSubs(subs, fb.remoteBpp, w, h) && fb.Inside(x, y, w, h) && fb.layout.width <= 0xFFFF && fb.layout.height <= 0xFFFF
    ensures RunSubrects(fb, Live(EncodeSubs(subs, fb.remoteBpp, w, h) + rest), img, |subs|, x, y) == (Live(rest), Paint(fb, img, subs, x, y))
    ensures Paintable(fb, Live(EncodeSubs(subs, fb.remoteBpp, w, h) + rest), |subs|, x, y)
    decreases |subs|
  {
    hide FillRect, ReadSub, EncodeSub, Framebuffer.Shown;
    if subs == [] {
      assert EncodeSubs(subs, fb.remoteBpp, w, h) + rest == rest;
    } else {
      var s, more := subs[0], EncodeSubs(subs[1..], fb.remoteBpp, w, h);
      Append(EncodeSub(s), more, rest);
      ReadSubInverts(fb, s, more + rest);
      SubInside(fb, s, x, y, w, h);
      RunSubrectsInverts(fb, FillRect(img, fb.Shown(s.colour), x + s.x, y + s.y, s.w, s.h), subs[1..], x, y, w, h, rest);
    }
  }

  /**
   * RRE round trip: within the rectangle each pixel shows the last subrectangle
   * that covers it, else the background; outside it nothing changes, and
   * exactly the rectangle's bytes are consumed.
   */
  lemma RreShowsTop(fb: Framebuffer, img: Image, bg: Pixel, subs: seq<Sub>, x: nat, y: nat, w: nat, h: nat, rest: seq<byte>, p: Pt)
    requires fb.Inside(x, y, w, h) && fb.layout.width <= 0xFFFF && fb.layout.height <= 0xFFFF && 1 <= h
    requires |bg| == fb.remoteBpp && LegalSubs(subs, fb.remoteBpp, w, h) && |subs| < 0x1_0000_0000 && p in img
    ensures var s := Live(EncU32(|subs|) + (bg + (EncodeSubs(subs, fb.remoteBpp, w, h) + rest)));
            var (g, img') := RunRre(fb, s, img, x, y, w, h);
            && RrePaintable(fb, s, x, y, w, h) && g == Live(rest) && p in img'
            && img'[p] == if InRect(p, x, y, w, h) then fb.Shown(Top(bg, subs, Pt(p.x - x, p.y - y))) else img[p]
  {
    hide RunSubrects, Paintable, Paint, EncodeSubs, EncU32, TakeU32, Take, Top, Framebuffer.Shown;
    var e := EncodeSubs(subs, fb.remoteBpp, w, h) + rest;
    TakeU32Prefix(|subs|, bg + e);
    TakePrefix(bg, e);
    var painted := FillRect(img, fb.Shown(bg), x, y, w, h);
    RunSubrectsInverts(fb, painted, subs, x, y, w, h, rest);
    PaintShowsTop(fb, painted, subs, bg, x, y, p);
  }
}
