/** The Raw, CopyRect, RRE and Hextile loops of src/vncconnection.c. */
module PaintDecoder {
  import opened Arith
  import opened Bytes
  import opened Feed
  import opened Framebuffers
  import opened Hextile
  import opened Image
  import opened Input
  import opened Painter
  import opened Tiles
  import opened ZrleDecoder

  /** `vnc_connection_validate_boundary`: an area that does not fit ends the connection. */
  method ValidateBoundary(rd: Reader, fb: Framebuffer, x: nat, y: nat, w: nat, h: nat) returns (ok: bool)
    requires Ready(rd, fb)
    modifies rd`stop
    ensures Ready(rd, fb) && Surroundings(rd, fb) == old(Surroundings(rd, fb))
    ensures rd.In() == if fb.Inside(x, y, w, h) then old(rd.In()) else Dead
    ensures ok <==> rd.In().Live?
  {
    if fb.layout.width < x + w || fb.layout.height < y + h {
      rd.stop := true;
    }
    ok := !rd.stop;
  }

  /** `vnc_connection_read_pixel` */
  method ReadPixel(rd: Reader, fb: Framebuffer) returns (p: Pixel)
    requires Ready(rd, fb)
    modifies rd.Repr()
    ensures Ready(rd, fb) && Surroundings(rd, fb) == old(Surroundings(rd, fb)) && fb.Img() == old(fb.Img())
    ensures (p, rd.In()) == Take(old(rd.In()), fb.remoteBpp)
  {
    p := rd.ReadBytes(fb.remoteBpp);
  }

  /** `vnc_connection_read_u8` */
  method ReadOctet(rd: Reader, fb: Framebuffer) returns (b: byte)
    requires Ready(rd, fb)
    modifies rd.Repr()
    ensures Ready(rd, fb) && Surroundings(rd, fb) == old(Surroundings(rd, fb)) && fb.Img() == old(fb.Img())
    ensures (b, rd.In()) == TakeU8(old(rd.In()))
  {
    b := rd.ReadU8();
  }

  /** `vnc_connection_read_u32` */
  method ReadLong(rd: Reader, fb: Framebuffer) returns (n: nat)
    requires Ready(rd, fb)
    modifies rd.Repr()
    ensures Ready(rd, fb) && Surroundings(rd, fb) == old(Surroundings(rd, fb)) && fb.Img() == old(fb.Img())
    ensures (n, rd.In()) == TakeU32(old(rd.In()))
  {
    n := rd.ReadU32();
  }

  method FillArea(rd: Reader, fb: Framebuffer, p: Pixel, x: nat, y: nat, w: nat, h: nat)
    requires Ready(rd, fb) && fb.Fillable(x, y, w, h) && |p| == fb.remoteBpp
    modifies fb.buffer
    ensures Ready(rd, fb) && Surroundings(rd, fb) == old(Surroundings(rd, fb)) && rd.In() == old(rd.In())
    ensures fb.Img() == FillRect(old(fb.Img()), fb.Shown(p), x, y, w, Rows(h))
  {
    fb.Fill(p, x, y, w, h);
  }

  method RawRowUpdate(rd: Reader, fb: Framebuffer, x: nat, y: nat, w: nat)
    requires Ready(rd, fb) && fb.Inside(x, y, w, 1)
    modifies rd.Repr(), fb.buffer
    ensures Ready(rd, fb) && Surroundings(rd, fb) == old(Surroundings(rd, fb))
    ensures 0 <= w * fb.remoteBpp
    ensures rd.In() == Take(old(rd.In()), w * fb.remoteBpp).1
    ensures fb.Img() == RawRow(fb, old(fb.Img()), old(rd.In()), w * fb.remoteBpp, x, y)
  {
    hide PutRow, PutBytes, Pixels, Take, Arrived, Reader.In;
    MulNonNegative(w, fb.remoteBpp);
    if fb.perfectMatch {
      // the read delivers into the framebuffer
      var row := rd.ReadArrived(w * fb.remoteBpp);
      if rd.stop {
        fb.WritePart(row, x, y, w);
      } else {
        WholeArrived(old(rd.In()), w * fb.remoteBpp);
        fb.WriteRow(row, x, y, w);
        assert fb.Show(Pixels(row, fb.remoteBpp)) == Pixels(row, fb.remoteBpp);
      }
    } else {
      var row := rd.ReadBytes(w * fb.remoteBpp);
      fb.BltRow(row, x, y, w);
    }
  }

  lemma WholeArrived(s: Feed, n: nat)
    requires Take(s, n).1.Live?
    ensures Arrived(s, n) == Take(s, n).0
  {
  }

  /** `vnc_connection_raw_update` */
  method RawUpdate(rd: Reader, fb: Framebuffer, x: nat, y: nat, w: nat, h: nat)
    requires Ready(rd, fb) && fb.Inside(x, y, w, h)
    modifies rd.Repr(), fb.buffer
    ensures Ready(rd, fb) && Surroundings(rd, fb) == old(Surroundings(rd, fb))
    ensures (rd.In(), fb.Img()) == RunRaw(fb, old(rd.In()), old(fb.Img()), x, y, w, h)
  {
    hide RunRaw, RawRow, Take, Surroundings, Reader.In, Framebuffer.Img;
    ghost var end := RunRaw(fb, rd.In(), fb.Img(), x, y, w, h);
    for i := 0 to h
      invariant Ready(rd, fb) && Surroundings(rd, fb) == old(Surroundings(rd, fb))
      invariant RunRaw(fb, rd.In(), fb.Img(), x, y + i, w, h - i) == end
    {
      RawStep(fb, rd.In(), fb.Img(), x, y + i, w, h - i);
      RawRowUpdate(rd, fb, x, y + i, w);
    }
    RawStep(fb, rd.In(), fb.Img(), x, y + h, w, 0);
  }

  lemma RawStep(fb: Framebuffer, s: Feed, img: Image, x: nat, y: nat, w: nat, h: nat)
    requires 0 < fb.remoteBpp
    ensures h == 0 ==> RunRaw(fb, s, img, x, y, w, h) == (s, img)
    ensures 0 <= w * fb.remoteBpp
    ensures 0 < h ==>
              var n := w * fb.remoteBpp;
              RunRaw(fb, s, img, x, y, w, h) == RunRaw(fb, Take(s, n).1, RawRow(fb, img, s, n, x, y), x, y + 1, w, h - 1)
  {
    hide RawRow, Take;
    MulNonNegative(w, fb.remoteBpp);
  }

  /** `vnc_connection_copyrect_update`: the area at the position read is copied as it was before, overlap or not. */
  method CopyRectUpdate(rd: Reader, fb: Framebuffer, dx: nat, dy: nat, w: nat, h: nat)
    requires Ready(rd, fb) && fb.Inside(dx, dy, w, h)
    modifies rd.Repr(), fb.buffer
    ensures Ready(rd, fb) && Surroundings(rd, fb) == old(Surroundings(rd, fb))
    ensures var (sx, s1) := TakeU16(old(rd.In())); var (sy, s2) := TakeU16(s1);
            (rd.In(), fb.Img()) ==
              if s2.Live? && fb.Inside(sx, sy, w, h) then (s2, CopyArea(old(fb.Img()), sx, sy, dx, dy, w, h))
              else (Dead, old(fb.Img()))
  {
    hide TakeU16, CopyArea, Reader.In, Framebuffer.Img;
    var sx := rd.ReadU16();
    var sy := rd.ReadU16();
    var ok := ValidateBoundary(rd, fb, sx, sy, w, h);
    if !ok {
      return;
    }
    fb.CopyRect(sx, sy, dx, dy, w, h);
  }

  /* RRE. */

  method ReadSubrect(rd: Reader, fb: Framebuffer) returns (s: Sub)
    requires Ready(rd, fb)
    modifies rd.Repr()
    ensures Ready(rd, fb) && rd.Aside() == old(rd.Aside())
    ensures (s, rd.In()) == ReadSub(fb, old(rd.In()))
  {
    hide Take, TakeU16, Reader.In;
    var c := rd.ReadBytes(fb.remoteBpp);
    var x := rd.ReadU16();
    var y := rd.ReadU16();
    var w := rd.ReadU16();
    var h := rd.ReadU16();
    s := Sub(c, x, y, w, h);
  }

  /** Fill an area whose position is computed in 16 bits, after checking it; `past`: beyond the end of the buffer. */
  method FillChecked(rd: Reader, fb: Framebuffer, s: Sub, x: nat, y: nat) returns (ok: bool, past: bool)
    requires Ready(rd, fb) && |s.colour| == fb.remoteBpp
    modifies rd`stop, fb.buffer
    ensures Ready(rd, fb) && Surroundings(rd, fb) == old(Surroundings(rd, fb))
    ensures var ax, ay := (x + s.x) % 0x1_0000, (y + s.y) % 0x1_0000;
            && (ok <==> old(rd.In()).Live? && fb.Inside(ax, ay, s.w, s.h)) && (past <==> ok && !fb.Fillable(ax, ay, s.w, s.h))
            && rd.In() == (if ok then old(rd.In()) else Dead)
            && (past || fb.Img() == if ok then FillRect(old(fb.Img()), fb.Shown(s.colour), ax, ay, s.w, Rows(s.h)) else old(fb.Img()))
  {
    hide FillRect;
    var ax, ay := (x + s.x) % 0x1_0000, (y + s.y) % 0x1_0000;
    ok := ValidateBoundary(rd, fb, ax, ay, s.w, s.h);
    past := ok && s.w != 0 && s.h == 0 && ay == fb.layout.height;
    if ok && !past {
      fb.Fill(s.colour, ax, ay, s.w, s.h);
    }
  }

  /** The loop of `vnc_connection_rre_update`; when a row is painted past the buffer, nothing is known any more. */
  method Subrects(rd: Reader, fb: Framebuffer, num: nat, x: nat, y: nat) returns (past: bool)
    requires Ready(rd, fb)
    modifies rd.Repr(), fb.buffer
    ensures Ready(rd, fb) && Surroundings(rd, fb) == old(Surroundings(rd, fb))
    ensures past <==> !Paintable(fb, old(rd.In()), num, x, y)
    ensures !past ==> (rd.In(), fb.Img()) == RunSubrects(fb, old(rd.In()), old(fb.Img()), num, x, y)
  {
    hide RunSubrects, ReadSub, Paintable, FillRect, Surroundings, Reader.In, Reader.Aside, Framebuffer.Img, Framebuffer.Slack;
    ghost var end := RunSubrects(fb, rd.In(), fb.Img(), num, x, y);
    var i := 0;
    while i < num
      invariant Ready(rd, fb) && Surroundings(rd, fb) == old(Surroundings(rd, fb))
      invariant i <= num && Paintable(fb, rd.In(), num - i, x, y) == Paintable(fb, old(rd.In()), num, x, y)
      invariant RunSubrects(fb, rd.In(), fb.Img(), num - i, x, y) == end
    {
      SubrectsStep(fb, rd.In(), fb.Img(), num - i, x, y);
      var more;
      more, past := OneSubrect(rd, fb, x, y);
      if !more || past {
        return;
      }
      i := i + 1;
    }
    SubrectsStep(fb, rd.In(), fb.Img(), 0, x, y);
    past := false;
  }

  /** One turn of it; it reports whether the loop goes on. */
  method OneSubrect(rd: Reader, fb: Framebuffer, x: nat, y: nat) returns (more: bool, past: bool)
    requires Ready(rd, fb)
    modifies rd.Repr(), fb.buffer
    ensures Ready(rd, fb) && Surroundings(rd, fb) == old(Surroundings(rd, fb))
    ensures var (sub, g) := ReadSub(fb, old(rd.In()));
            var ax, ay := (x + sub.x) % 0x1_0000, (y + sub.y) % 0x1_0000;
            && (more <==> g.Live? && fb.Inside(ax, ay, sub.w, sub.h)) && (past <==> more && !fb.Fillable(ax, ay, sub.w, sub.h))
            && rd.In() == (if more then g else Dead)
            && (past || fb.Img() ==
                  if more then FillRect(old(fb.Img()), fb.Shown(sub.colour), ax, ay, sub.w, Rows(sub.h)) else old(fb.Img()))
  {
    hide ReadSub, FillRect, Reader.In, Reader.Aside, Framebuffer.Img, Framebuffer.Slack;
    ReadSubColour(fb, rd.In());
    var sub := ReadSubrect(rd, fb);
    more, past := FillChecked(rd, fb, sub, x, y);
  }

  lemma ReadSubColour(fb: Framebuffer, s: Feed)
    ensures |ReadSub(fb, s).0.colour| == fb.remoteBpp
  {
  }

  lemma SubrectsStep(fb: Framebuffer, s: Feed, img: Image, n: nat, x: nat, y: nat)
    ensures n == 0 ==> RunSubrects(fb, s, img, n, x, y) == (s, img) && Paintable(fb, s, n, x, y)
    ensures 0 < n ==>
              var (sub, g) := ReadSub(fb, s);
              var ax, ay := (x + sub.x) % 0x1_0000, (y + sub.y) % 0x1_0000;
              var more := g.Live? && fb.Inside(ax, ay, sub.w, sub.h);
              && Paintable(fb, s, n, x, y) == (more ==> fb.Fillable(ax, ay, sub.w, sub.h) && Paintable(fb, g, n - 1, x, y))
              && RunSubrects(fb, s, img, n, x, y) ==
                   if more then RunSubrects(fb, g, FillRect(img, fb.Shown(sub.colour), ax, ay, sub.w, Rows(sub.h)), n - 1, x, y)
                   else (Dead, img)
  {
    hide Take, TakeU16, FillRect;
  }

  /** `vnc_connection_rre_update` */
  method RreUpdate(rd: Reader, fb: Framebuffer, x: nat, y: nat, w: nat, h: nat) returns (past: bool)
    requires Ready(rd, fb) && fb.Inside(x, y, w, h)
    modifies rd.Repr(), fb.buffer
    ensures Ready(rd, fb) && Surroundings(rd, fb) == old(Surroundings(rd, fb))
    ensures past <==> !RrePaintable(fb, old(rd.In()), x, y, w, h)
    ensures !past ==> (rd.In(), fb.Img()) == RunRre(fb, old(rd.In()), old(fb.Img()), x, y, w, h)
  {
    hide RunSubrects, Paintable, Take, TakeU32, FillRect, Surroundings, Reader.In, Framebuffer.Img;
    var num := ReadLong(rd, fb);
    var bg := ReadPixel(rd, fb);
    if w != 0 && h == 0 && y == fb.layout.height {
      return true;
    }
    FillArea(rd, fb, bg, x, y, w, h);
    past := Subrects(rd, fb, num, x, y);
  }

  /* Hextile. */

  /** The state of the decoder, with the two pixels it carries. */
  ghost function StateOf(rd: Reader, fb: Framebuffer, fg: Pixel, bg: Pixel): State
    requires Ready(rd, fb)
    reads rd.Repr(), fb.buffer
  {
    State(rd.In(), fb.Img(), fg, bg)
  }

  method ReadTinySubrect(rd: Reader, fb: Framebuffer, coloured: bool, fg: Pixel) returns (s: Sub)
    requires Ready(rd, fb)
    modifies rd.Repr()
    ensures Ready(rd, fb) && Surroundings(rd, fb) == old(Surroundings(rd, fb)) && fb.Img() == old(fb.Img())
    ensures (s, rd.In()) == ReadTinySub(fb, old(rd.In()), coloured, fg)
  {
    hide Take, TakeU8, Surroundings, Reader.In, Framebuffer.Img;
    var c := fg;
    if coloured {
      c := ReadPixel(rd, fb);
    }
    var xy := ReadOctet(rd, fb);
    var wh := ReadOctet(rd, fb);
    s := Sub(c, xy / 16, xy % 16, wh / 16 + 1, wh % 16 + 1);
  }

  /** One turn of the loop below. */
  method OneTinySub(rd: Reader, fb: Framebuffer, coloured: bool, fg: Pixel, ghost bg: Pixel, x: nat, y: nat) returns (more: bool, fg': Pixel)
    requires Ready(rd, fb) && |fg| == fb.remoteBpp
    modifies rd.Repr(), fb.buffer
    ensures Ready(rd, fb) && Surroundings(rd, fb) == old(Surroundings(rd, fb)) && |fg'| == fb.remoteBpp
    ensures var (sub, g) := ReadTinySub(fb, old(rd.In()), coloured, fg);
            var ax, ay := (x + sub.x) % 0x1_0000, (y + sub.y) % 0x1_0000;
            && fg' == sub.colour && (more <==> g.Live? && fb.Inside(ax, ay, sub.w, sub.h))
            && StateOf(rd, fb, fg', bg) ==
                 if more then State(g, FillRect(old(fb.Img()), fb.Shown(sub.colour), ax, ay, sub.w, sub.h), fg', bg)
                 else State(Dead, old(fb.Img()), fg', bg)
  {
    hide ReadTinySub, FillRect, Surroundings, Reader.In, Framebuffer.Img;
    TinySubShape(fb, rd.In(), coloured, fg);
    var sub := ReadTinySubrect(rd, fb, coloured, fg);
    fg' := sub.colour;
    var past;
    more, past := FillChecked(rd, fb, sub, x, y);
    assert !past;
  }

  lemma TinySubShape(fb: Framebuffer, s: Feed, coloured: bool, fg: Pixel)
    requires |fg| == fb.remoteBpp
    ensures var sub := ReadTinySub(fb, s, coloured, fg).0;
            |sub.colour| == fb.remoteBpp && 1 <= sub.w && 1 <= sub.h && Rows(sub.h) == sub.h
  {
  }

  /** The loop of `vnc_connection_hextile_rect`. */
  method TinySubs(rd: Reader, fb: Framebuffer, n: nat, coloured: bool, fg: Pixel, ghost bg: Pixel, x: nat, y: nat) returns (fg': Pixel)
    requires Ready(rd, fb) && |fg| == fb.remoteBpp
    modifies rd.Repr(), fb.buffer
    ensures Ready(rd, fb) && Surroundings(rd, fb) == old(Surroundings(rd, fb)) && |fg'| == fb.remoteBpp
    ensures StateOf(rd, fb, fg', bg) == RunTinySubs(fb, old(StateOf(rd, fb, fg, bg)), n, coloured, x, y)
  {
    hide RunTinySubs, ReadTinySub, FillRect, Surroundings, Reader.In, Reader.Aside, Framebuffer.Img, Framebuffer.Slack;
    fg' := fg;
    ghost var end := RunTinySubs(fb, StateOf(rd, fb, fg', bg), n, coloured, x, y);
    for i := 0 to n
      invariant Ready(rd, fb) && Surroundings(rd, fb) == old(Surroundings(rd, fb)) && |fg'| == fb.remoteBpp
      invariant RunTinySubs(fb, StateOf(rd, fb, fg', bg), n - i, coloured, x, y) == end
    {
      TinySubsStep(fb, StateOf(rd, fb, fg', bg), n - i, coloured, x, y);
      var more;
      more, fg' := OneTinySub(rd, fb, coloured, fg', bg, x, y);
      if !more {
        return;
      }
    }
    TinySubsStep(fb, StateOf(rd, fb, fg', bg), 0, coloured, x, y);
  }

  lemma TinySubsStep(fb: Framebuffer, st: State, n: nat, coloured: bool, x: nat, y: nat)
    ensures n == 0 ==> RunTinySubs(fb, st, n, coloured, x, y) == st
    ensures 0 < n ==>
              var (sub, g) := ReadTinySub(fb, st.feed, coloured, st.fg);
              var ax, ay := (x + sub.x) % 0x1_0000, (y + sub.y) % 0x1_0000;
              RunTinySubs(fb, st, n, coloured, x, y) ==
                if g.Live? && fb.Inside(ax, ay, sub.w, sub.h) then
                  RunTinySubs(fb, State(g, FillRect(st.img, fb.Shown(sub.colour), ax, ay, sub.w, sub.h), sub.colour, st.bg), n - 1, coloured, x, y)
                else State(Dead, st.img, sub.colour, st.bg)
  {
    hide Take, TakeU8, FillRect;
  }

  /** The branch of `vnc_connection_hextile_rect` for a tile that is not raw. */
  method PaintedTile(rd: Reader, fb: Framebuffer, flags: byte, x: nat, y: nat, w: nat, h: nat, fg: Pixel, bg: Pixel)
    returns (fg': Pixel, bg': Pixel)
    requires Ready(rd, fb) && fb.Inside(x, y, w, h) && 1 <= h && |fg| == fb.remoteBpp && |bg| == fb.remoteBpp
    modifies rd.Repr(), fb.buffer
    ensures Ready(rd, fb) && Surroundings(rd, fb) == old(Surroundings(rd, fb))
    ensures |fg'| == fb.remoteBpp && |bg'| == fb.remoteBpp
    ensures StateOf(rd, fb, fg', bg') == RunPainted(fb, old(StateOf(rd, fb, fg, bg)), flags, x, y, w, h)
  {
    hide Flag, RunTinySubs, Take, TakeU8, FillRect, Surroundings, Reader.In, Framebuffer.Img;
    fg', bg' := fg, bg;
    if Flag(flags, BACKGROUND_SPECIFIED) {
      bg' := ReadPixel(rd, fb);
    }
    if Flag(flags, FOREGROUND_SPECIFIED) {
      fg' := ReadPixel(rd, fb);
    }
    FillArea(rd, fb, bg', x, y, w, h);
    if Flag(flags, ANY_SUBRECTS) {
      var n := ReadOctet(rd, fb);
      TinySubsCarryBackground(fb, StateOf(rd, fb, fg', bg'), n, Flag(flags, SUBRECTS_COLOURED), x, y);
      fg' := TinySubs(rd, fb, n, Flag(flags, SUBRECTS_COLOURED), fg', bg', x, y);
    }
  }

  lemma TinySubsCarryBackground(fb: Framebuffer, st: State, n: nat, coloured: bool, x: nat, y: nat)
    ensures RunTinySubs(fb, st, n, coloured, x, y).bg == st.bg
    decreases n
  {
    hide ReadTinySub, FillRect;
    if 0 < n {
      var (sub, g) := ReadTinySub(fb, st.feed, coloured, st.fg);
      var ax, ay := (x + sub.x) % 0x1_0000, (y + sub.y) % 0x1_0000;
      TinySubsCarryBackground(fb, State(g, FillRect(st.img, fb.Shown(sub.colour), ax, ay, sub.w, sub.h), sub.colour, st.bg), n - 1, coloured, x, y);
    }
  }

  /** `vnc_connection_hextile_rect`, with the read of the mask before it. */
  method HextileRect(rd: Reader, fb: Framebuffer, x: nat, y: nat, w: nat, h: nat, fg: Pixel, bg: Pixel) returns (fg': Pixel, bg': Pixel)
    requires Ready(rd, fb) && fb.Inside(x, y, w, h) && 1 <= h && |fg| == fb.remoteBpp && |bg| == fb.remoteBpp
    modifies rd.Repr(), fb.buffer
    ensures Ready(rd, fb) && Surroundings(rd, fb) == old(Surroundings(rd, fb))
    ensures |fg'| == fb.remoteBpp && |bg'| == fb.remoteBpp
    ensures StateOf(rd, fb, fg', bg') == RunTile(fb, old(StateOf(rd, fb, fg, bg)), x, y, w, h)
  {
    hide Flag, RunPainted, RunRaw, TakeU8, Surroundings, Reader.In, Framebuffer.Img;
    fg', bg' := fg, bg;
    var flags := ReadOctet(rd, fb);
    if Flag(flags, RAW) {
      RawUpdate(rd, fb, x, y, w, h);
    } else {
      fg', bg' := PaintedTile(rd, fb, flags, x, y, w, h, fg, bg);
    }
  }

  /** `vnc_connection_hextile_update`; `fg` and `bg` are what its two locals happen to hold. */
  method HextileUpdate(rd: Reader, fb: Framebuffer, x: nat, y: nat, w: nat, h: nat, fg: Pixel, bg: Pixel) returns (fg': Pixel, bg': Pixel)
    requires Ready(rd, fb) && fb.Inside(x, y, w, h) && |fg| == fb.remoteBpp && |bg| == fb.remoteBpp
    modifies rd.Repr(), fb.buffer
    ensures Ready(rd, fb) && Surroundings(rd, fb) == old(Surroundings(rd, fb))
    ensures StateOf(rd, fb, fg', bg') == RunHextiles(fb, old(StateOf(rd, fb, fg, bg)), Walk(w, h, 16, 0, 0), x, y)
  {
    hide RunHextiles, RunTile, Walk, StateOf, Surroundings, Reader.In, Framebuffer.Img;
    fg', bg' := fg, bg;
    ghost var end := RunHextiles(fb, StateOf(rd, fb, fg, bg), Walk(w, h, 16, 0, 0), x, y);
    var j := 0;
    while j < h
      invariant Ready(rd, fb) && Surroundings(rd, fb) == old(Surroundings(rd, fb)) && 0 <= j
      invariant |fg'| == fb.remoteBpp && |bg'| == fb.remoteBpp
      invariant RunHextiles(fb, StateOf(rd, fb, fg', bg'), Walk(w, h, 16, 0, j), x, y) == end
    {
      var i := 0;
      while i < w
        invariant Ready(rd, fb) && Surroundings(rd, fb) == old(Surroundings(rd, fb)) && 0 <= i
        invariant |fg'| == fb.remoteBpp && |bg'| == fb.remoteBpp
        invariant RunHextiles(fb, StateOf(rd, fb, fg', bg'), Walk(w, h, 16, i, j), x, y) == end
      {
        HextilesStep(fb, StateOf(rd, fb, fg', bg'), w, h, i, j, x, y);
        fg', bg' := HextileRect(rd, fb, x + i, y + j, Min(16, w - i), Min(16, h - j), fg', bg');
        i := i + 16;
      }
      HextilesStep(fb, StateOf(rd, fb, fg', bg'), w, h, i, j, x, y);
      j := j + 16;
    }
    HextilesStep(fb, StateOf(rd, fb, fg', bg'), w, h, 0, j, x, y);
  }

  lemma HextilesStep(fb: Framebuffer, st: State, w: nat, h: nat, i: nat, j: nat, x: nat, y: nat)
    requires 0 < fb.remoteBpp
    ensures h <= j ==> RunHextiles(fb, st, Walk(w, h, 16, i, j), x, y) == st
    ensures j < h && w <= i ==> RunHextiles(fb, st, Walk(w, h, 16, i, j), x, y) == RunHextiles(fb, st, Walk(w, h, 16, 0, j + 16), x, y)
    ensures j < h && i < w ==>
              RunHextiles(fb, st, Walk(w, h, 16, i, j), x, y) ==
              RunHextiles(fb, RunTile(fb, st, x + i, y + j, Min(16, w - i), Min(16, h - j)), Walk(w, h, 16, i + 16, j), x, y)
  {
    hide RunTile;
    if j < h && i < w {
      var t := Tile(i, j, Min(16, w - i), Min(16, h - j));
      assert Walk(w, h, 16, i, j) == [t] + Walk(w, h, 16, i + 16, j);
      assert ([t] + Walk(w, h, 16, i + 16, j))[1..] == Walk(w, h, 16, i + 16, j);
    }
  }
}
