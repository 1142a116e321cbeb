/** The Hextile encoding (section 7.7.4 of RFC 6143). */
module Hextile {
  import opened Bytes
  import opened Feed
  import opened Framebuffers
  import opened Image
  import opened Options
  import opened Painter
  import opened Tiles

  /** Bit `k` of the subencoding mask. */
  predicate Flag(flags: byte, value: nat)
    requires 0 < value
  {
    (flags / value) % 2 == 1
  }

  const RAW := 0x01
  const BACKGROUND_SPECIFIED := 0x02
  const FOREGROUND_SPECIFIED := 0x04
  const ANY_SUBRECTS := 0x08
  const SUBRECTS_COLOURED := 0x10

  /* The decoder. */

  /** What is carried from tile to tile. */
  datatype State = State(feed: Feed, img: Image, fg: Pixel, bg: Pixel)

  /** The colour, position and size of the next subrectangle. */
  function ReadTinySub(fb: Framebuffer, s: Feed, coloured: bool, fg: Pixel): (Sub, Feed)
  {
    var (c, s1) := if coloured then Take(s, fb.remoteBpp) else (fg, s);
    var (xy, s2) := TakeU8(s1);
    var (wh, s3) := TakeU8(s2);
    (Sub(c, xy / 16, xy % 16, wh / 16 + 1, wh % 16 + 1), s3)
  }

  /** `n` subrectangles of the tile at (x, y). */
  ghost function RunTinySubs(fb: Framebuffer, st: State, n: nat, coloured: bool, x: nat, y: nat): State
    decreases n
  {
    if n == 0 then st
    else
      var (sub, g) := ReadTinySub(fb, st.feed, coloured, st.fg);
      var ax, ay := (x + sub.x) % 0x1_0000, (y + sub.y) % 0x1_0000;
      if g.Dead? || !fb.Inside(ax, ay, sub.w, sub.h) then State(Dead, st.img, sub.colour, st.bg)
      else RunTinySubs(fb, State(g, FillRect(st.img, fb.Shown(sub.colour), ax, ay, sub.w, sub.h), sub.colour, st.bg), n - 1, coloured, x, y)
  }

  /** Background, foreground and subrectangles of a tile that is not raw. */
  ghost function RunPainted(fb: Framebuffer, st: State, flags: byte, x: nat, y: nat, w: nat, h: nat): State
  {
    var (bg, s1) := if Flag(flags, BACKGROUND_SPECIFIED) then Take(st.feed, fb.remoteBpp) else (st.bg, st.feed);
    var (fg, s2) := if Flag(flags, FOREGROUND_SPECIFIED) then Take(s1, fb.remoteBpp) else (st.fg, s1);
    var filled := FillRect(st.img, fb.Shown(bg), x, y, w, h);
    if Flag(flags, ANY_SUBRECTS) then
      var (n, s3) := TakeU8(s2);
      RunTinySubs(fb, State(s3, filled, fg, bg), n, Flag(flags, SUBRECTS_COLOURED), x, y)
    else State(s2, filled, fg, bg)
  }

  ghost function RunTile(fb: Framebuffer, st: State, x: nat, y: nat, w: nat, h: nat): State
    requires 0 < fb.remoteBpp
  {
    var (flags, s1) := TakeU8(st.feed);
    if Flag(flags, RAW) then
      var (g, img) := RunRaw(fb, s1, st.img, x, y, w, h);
      st.(feed := g, img := img)
    else RunPainted(fb, st.(feed := s1), flags, x, y, w, h)
  }

  ghost function RunHextiles(fb: Framebuffer, st: State, tiles: seq<Tile>, x: nat, y: nat): State
    requires 0 < fb.remoteBpp
    decreases tiles
  {
    if tiles == [] then st
    else
      var t := tiles[0];
      RunHextiles(fb, RunTile(fb, st, x + t.x, y + t.y, t.w, t.h), tiles[1..], x, y)
  }

  /* The encoder. */

  /** A tile to be sent, and the bits of its mask, which say what of it is; the upper three mean nothing. */
  datatype HexTile = HexTile(raw: bool, background: bool, foreground: bool, subrects: bool, coloured: bool, spare: nat,
                             bg: Pixel, fg: Pixel, subs: seq<Sub>, rows: seq<seq<Pixel>>) {

    /** The bits from the lowest up. */
    function Mask(): (r: byte)
      requires spare < 8
    {
      (if raw then 1 else 0) + (if background then 2 else 0) + (if foreground then 4 else 0)
      + (if subrects then 8 else 0) + (if coloured then 16 else 0) + 32 * spare
    }
  }

  /** The decoder takes the mask for what it says. */
  lemma MaskRead(t: HexTile)
    requires t.spare < 8
    ensures Flag(t.Mask(), RAW) == t.raw
    ensures Flag(t.Mask(), BACKGROUND_SPECIFIED) == t.background && Flag(t.Mask(), FOREGROUND_SPECIFIED) == t.foreground
    ensures Flag(t.Mask(), ANY_SUBRECTS) == t.subrects && Flag(t.Mask(), SUBRECTS_COLOURED) == t.coloured
  {
    var above3 := (if t.coloured then 1 else 0) + 2 * t.spare;
    var above2 := (if t.subrects then 1 else 0) + 2 * above3;
    var above1 := (if t.foreground then 1 else 0) + 2 * above2;
    var above0 := (if t.background then 1 else 0) + 2 * above1;
    assert t.Mask() == (if t.raw then 1 else 0) + 2 * above0;
    assert t.Mask() / 2 == above0 && t.Mask() / 4 == above1 && t.Mask() / 8 == above2 && t.Mask() / 16 == above3;
  }

  /** Every byte is a mask. */
  lemma EveryMask(flags: byte)
    ensures var above0 := flags / 2; var above1 := above0 / 2; var above2 := above1 / 2; var above3 := above2 / 2;
            HexTile(flags % 2 == 1, above0 % 2 == 1, above1 % 2 == 1, above2 % 2 == 1, above3 % 2 == 1, above3 / 2, [], [], [], []).Mask() == flags
  {
  }

  /** The background and foreground a tile may leave to the tiles before it. */
  datatype Known = Known(bg: Option<Pixel>, fg: Option<Pixel>) {

    /** A foreground is forgotten after subrectangles with colours of their own. */
    function After(t: HexTile): Known
    {
      if t.raw then this
      else
        Known(Some(t.bg),
              if t.subrects && t.coloured then None
              else if t.foreground then Some(t.fg) else fg)
    }

    /** The decoder holds what is known. */
    predicate Held(st: State)
    {
      (bg.Some? ==> st.bg == bg.value) && (fg.Some? ==> st.fg == fg.value)
    }
  }

  predicate LegalTile(t: HexTile, known: Known, bpp: nat, w: nat, h: nat)
  {
    t.spare < 8 &&
    if t.raw then
      |t.rows| == h && forall j :: 0 <= j < h ==> |t.rows[j]| == w && AllSized(t.rows[j], bpp)
    else
      && LegalSubs(t.subs, bpp, w, h) && |t.subs| <= 255
      && (if t.background then |t.bg| == bpp else known.bg == Some(t.bg))
      && (t.foreground ==> |t.fg| == bpp)
      && (!t.subrects ==> t.subs == [])
      && (t.subs != [] && !t.coloured ==>
            (t.foreground || known.fg == Some(t.fg)) && forall k :: 0 <= k < |t.subs| ==> t.subs[k].colour == t.fg)
  }

  /** The pixel the tile puts at `q`. */
  function Meaning(t: HexTile, q: Pt): Pixel
    requires t.raw ==> 0 <= q.y < |t.rows| && 0 <= q.x < |t.rows[q.y]|
  {
    if t.raw then t.rows[q.y][q.x] else Top(t.bg, t.subs, q)
  }

  function EncodeTinySub(s: Sub, coloured: bool): seq<byte>
    requires s.Within(16, 16)
  {
    (if coloured then s.colour else []) + [16 * s.x + s.y, 16 * (s.w - 1) + (s.h - 1)]
  }

  function EncodeTinySubs(subs: seq<Sub>, coloured: bool): seq<byte>
    requires forall k :: 0 <= k < |subs| ==> subs[k].Within(16, 16)
  {
    if subs == [] then [] else EncodeTinySub(subs[0], coloured) + EncodeTinySubs(subs[1..], coloured)
  }

  /** The bytes of `p`, if the mask says that it is sent. */
  function Sent(sent: bool, p: seq<byte>): seq<byte>
  {
    if sent then p else []
  }

  function EncodeSubList(t: HexTile): seq<byte>
    requires |t.subs| <= 255 && forall k :: 0 <= k < |t.subs| ==> t.subs[k].Within(16, 16)
  {
    Sent(t.subrects, [|t.subs|] + EncodeTinySubs(t.subs, t.coloured))
  }

  function EncodeTile(t: HexTile, known: Known, bpp: nat, w: nat, h: nat): seq<byte>
    requires LegalTile(t, known, bpp, w, h) && w <= 16 && h <= 16
  {
    [t.Mask()] +
    if t.raw then JoinRows(t.rows)
    else
      Sent(t.background, t.bg) +
      (Sent(t.foreground, t.fg) + EncodeSubList(t))
  }

  /* The decoder inverts the encoder. */

  lemma ReadTinySubInverts(fb: Framebuffer, s: Sub, coloured: bool, fg: Pixel, rest: seq<byte>)
    requires s.Within(16, 16) && if coloured then |s.colour| == fb.remoteBpp else s.colour == fg
    ensures ReadTinySub(fb, Live(EncodeTinySub(s, coloured) + rest), coloured, fg) == (s, Live(rest))
  {
    hide Take, TakeU8;
    var xy, wh := 16 * s.x + s.y, 16 * (s.w - 1) + (s.h - 1);
    var c := if coloured then s.colour else [];
    Append(c, [xy, wh], rest);
    assert [xy, wh] + rest == [xy] + ([wh] + rest);
    assert !coloured ==> c + ([xy, wh] + rest) == [xy, wh] + rest;
    TakePrefix(c, [xy, wh] + rest);
    TakeU8Prefix(xy, [wh] + rest);
    TakeU8Prefix(wh, rest);
  }

  lemma {:induction false} TinySubsInvert(fb: Framebuffer, st: State, subs: seq<Sub>, coloured: bool, x: nat, y: nat,
                                          w: nat, h: nat, rest: seq<byte>)
    requires w <= 16 && h <= 16 && fb.Inside(x, y, w, h) && fb.layout.width <= 0xFFFF && fb.layout.height <= 0xFFFF
    requires LegalSubs(subs, fb.remoteBpp, w, h)
    requires !coloured ==> forall k :: 0 <= k < |subs| ==> subs[k].colour == st.fg
    requires st.feed == Live(EncodeTinySubs(subs, coloured) + rest)
    ensures var end := RunTinySubs(fb, st, |subs|, coloured, x, y);
            && end.feed == Live(rest) && end.img == Paint(fb, st.img, subs, x, y) && end.bg == st.bg
            && (!coloured ==> end.fg == st.fg)
    decreases |subs|
  {
    hide FillRect, ReadTinySub, EncodeTinySub, Framebuffer.Inside, Framebuffer.Shown;
    if subs == [] {
      assert EncodeTinySubs(subs, coloured) + rest == rest;
    } else {
      var s, more := subs[0], EncodeTinySubs(subs[1..], coloured);
      Append(EncodeTinySub(s, coloured), more, rest);
      ReadTinySubInverts(fb, s, coloured, st.fg, more + rest);
      SubInside(fb, s, x, y, w, h);
      var img := FillRect(st.img, fb.Shown(s.colour), x + s.x, y + s.y, s.w, s.h);
      TinySubsInvert(fb, State(Live(more + rest), img, s.colour, st.bg), subs[1..], coloured, x, y, w, h, rest);
    }
  }

  /** An optional pixel is read back, or the one held stands. */
  lemma SentInverts(sent: bool, p: Pixel, held: Pixel, bpp: nat, rest: seq<byte>)
    requires sent ==> |p| == bpp
    ensures (if sent then Take(Live(Sent(sent, p) + rest), bpp) else (held, Live(Sent(sent, p) + rest)))
         == (if sent then p else held, Live(rest))
  {
    if sent {
      TakePrefix(p, rest);
    } else {
      assert [] + rest == rest;
    }
  }

  lemma NothingSent(p: seq<byte>, rest: seq<byte>)
    ensures Sent(false, p) + rest == rest
  {
    assert [] + rest == rest;
  }

  lemma SubListInverts(fb: Framebuffer, st: State, t: HexTile, x: nat, y: nat, w: nat, h: nat, rest: seq<byte>)
    requires w <= 16 && h <= 16 && fb.Inside(x, y, w, h) && fb.layout.width <= 0xFFFF && fb.layout.height <= 0xFFFF
    requires LegalSubs(t.subs, fb.remoteBpp, w, h) && |t.subs| <= 255 && t.subrects
    requires !t.coloured ==> forall k :: 0 <= k < |t.subs| ==> t.subs[k].colour == st.fg
    requires st.feed == Live(EncodeSubList(t) + rest)
    ensures var (n, g) := TakeU8(st.feed);
            var end := RunTinySubs(fb, st.(feed := g), n, t.coloured, x, y);
            && end.feed == Live(rest) && end.img == Paint(fb, st.img, t.subs, x, y) && end.bg == st.bg
            && (!t.coloured ==> end.fg == st.fg)
  {
    hide TakeU8, RunTinySubs, EncodeTinySubs, Paint, Flag;
    var coloured := t.coloured;
    var body := EncodeTinySubs(t.subs, coloured);
    Append([|t.subs|], body, rest);
    TakeU8Prefix(|t.subs|, body + rest);
    TinySubsInvert(fb, st.(feed := Live(body + rest)), t.subs, coloured, x, y, w, h, rest);
  }

  /** A tile that is not raw ends up as its subrectangles painted over its background. */
  lemma PaintedInverts(fb: Framebuffer, st: State, t: HexTile, known: Known, x: nat, y: nat, w: nat, h: nat, rest: seq<byte>)
    requires w <= 16 && h <= 16 && fb.Inside(x, y, w, h) && fb.layout.width <= 0xFFFF && fb.layout.height <= 0xFFFF
    requires LegalTile(t, known, fb.remoteBpp, w, h) && known.Held(st) && !t.raw
    requires st.feed == Live(Sent(t.background, t.bg) +
                             (Sent(t.foreground, t.fg) + (EncodeSubList(t) + rest)))
    ensures var end := RunPainted(fb, st, t.Mask(), x, y, w, h);
            && end.feed == Live(rest) && known.After(t).Held(end)
            && end.img == Paint(fb, FillRect(st.img, fb.Shown(t.bg), x, y, w, h), t.subs, x, y)
  {
    hide Take, TakeU8, RunTinySubs, EncodeTinySubs, FillRect, Sent, Flag, HexTile.Mask;
    MaskRead(t);
    var list := EncodeSubList(t) + rest;
    SentInverts(t.background, t.bg, st.bg, fb.remoteBpp, Sent(t.foreground, t.fg) + list);
    SentInverts(t.foreground, t.fg, st.fg, fb.remoteBpp, list);
    var fg := if t.foreground then t.fg else st.fg;
    var filled := FillRect(st.img, fb.Shown(t.bg), x, y, w, h);
    if t.subrects {
      SubListInverts(fb, State(Live(list), filled, fg, t.bg), t, x, y, w, h, rest);
    } else {
      NothingSent([|t.subs|] + EncodeTinySubs(t.subs, t.coloured), rest);
    }
  }

  /** At `p`, `img'` shows what the tile at (x, y) means there, or `img` outside the tile. */
  ghost predicate TileShown(fb: Framebuffer, img': Image, img: Image, t: HexTile, p: Pt, x: int, y: int, w: nat, h: nat)
    requires t.raw ==> |t.rows| == h && forall j :: 0 <= j < h ==> |t.rows[j]| == w
  {
    && p in img && p in img'
    && img'[p] == if InRect(p, x, y, w, h) then fb.Shown(Meaning(t, Pt(p.x - x, p.y - y))) else img[p]
  }

  /** Decoding a tile shows what it means, keeps what it leaves known, and consumes exactly its bytes. */
  lemma TileInverts(fb: Framebuffer, st: State, t: HexTile, known: Known, x: nat, y: nat, w: nat, h: nat, rest: seq<byte>)
    requires 0 < fb.remoteBpp && w <= 16 && h <= 16
    requires fb.Inside(x, y, w, h) && fb.layout.width <= 0xFFFF && fb.layout.height <= 0xFFFF
    requires LegalTile(t, known, fb.remoteBpp, w, h) && known.Held(st)
    requires st.feed == Live(EncodeTile(t, known, fb.remoteBpp, w, h) + rest)
    ensures var end := RunTile(fb, st, x, y, w, h);
            && end.feed == Live(rest) && known.After(t).Held(end) && end.img.Keys == st.img.Keys
            && forall p :: p in st.img ==> TileShown(fb, end.img, st.img, t, p, x, y, w, h)
  {
    hide Take, TakeU8, RunPainted, RunRaw, Sent, Flag, HexTile.Mask, JoinRows, EncodeSubList, FillRect, PutRows, Paint, Meaning, AllSized;
    MaskRead(t);
    var end := RunTile(fb, st, x, y, w, h);
    if t.raw {
      Append([t.Mask()], JoinRows(t.rows), rest);
      TakeU8Prefix(t.Mask(), JoinRows(t.rows) + rest);
      RawInverts(fb, st.img, t.rows, x, y, w, rest);
      RawShows(fb, st.img, t, x, y, w, h);
    } else {
      var bg, fg := Sent(t.background, t.bg), Sent(t.foreground, t.fg);
      Append([t.Mask()], bg + (fg + EncodeSubList(t)), rest);
      Append(bg, fg + EncodeSubList(t), rest);
      Append(fg, EncodeSubList(t), rest);
      TakeU8Prefix(t.Mask(), bg + (fg + (EncodeSubList(t) + rest)));
      PaintedInverts(fb, st.(feed := Live(bg + (fg + (EncodeSubList(t) + rest)))), t, known, x, y, w, h, rest);
      PaintedShows(fb, st.img, t, x, y, w, h);
    }
  }

  lemma RawShows(fb: Framebuffer, img: Image, t: HexTile, x: nat, y: nat, w: nat, h: nat)
    requires t.raw && |t.rows| == h && forall j :: 0 <= j < h ==> |t.rows[j]| == w
    ensures var img' := PutRows(img, ShowRows(fb, t.rows), x, y);
            img'.Keys == img.Keys && forall p :: p in img ==> TileShown(fb, img', img, t, p, x, y, w, h)
  {
    hide ShowRows, Framebuffer.Show, Framebuffer.Shown;
    var shown := ShowRows(fb, t.rows);
    var img' := PutRows(img, shown, x, y);
    forall p | p in img
      ensures TileShown(fb, img', img, t, p, x, y, w, h)
    {
      var i, j := p.x - x, p.y - y;
      if 0 <= j < h {
        var row := fb.Show(t.rows[j]);
        assert shown[j] == row && |row| == w;
        assert 0 <= i < w ==> row[i] == fb.Shown(t.rows[j][i]);
      }
    }
  }

  lemma PaintedShows(fb: Framebuffer, img: Image, t: HexTile, x: nat, y: nat, w: nat, h: nat)
    requires !t.raw && LegalSubs(t.subs, fb.remoteBpp, w, h)
    ensures var img' := Paint(fb, FillRect(img, fb.Shown(t.bg), x, y, w, h), t.subs, x, y);
            img'.Keys == img.Keys && forall p :: p in img ==> TileShown(fb, img', img, t, p, x, y, w, h)
  {
    hide Paint, Flag;
    var filled := FillRect(img, fb.Shown(t.bg), x, y, w, h);
    PaintKeys(fb, filled, t.subs, x, y);
    forall p | p in img
      ensures TileShown(fb, Paint(fb, filled, t.subs, x, y), img, t, p, x, y, w, h)
    {
      PaintShowsTop(fb, filled, t.subs, t.bg, x, y, p);
    }
  }

  lemma PaintKeys(fb: Framebuffer, img: Image, subs: seq<Sub>, x: int, y: int)
    ensures Paint(fb, img, subs, x, y).Keys == img.Keys
    decreases |subs|
  {
    if subs != [] {
      var s := subs[0];
      PaintKeys(fb, FillRect(img, fb.Shown(s.colour), x + s.x, y + s.y, s.w, s.h), subs[1..], x, y);
    }
  }

  /* A whole rectangle. */

  /** The tiles are legal in this order and mean the parts of `pic` that they cover. */
  ghost predicate SendsAll(ts: seq<HexTile>, known: Known, bpp: nat, tiles: seq<Tile>, pic: Pt -> Pixel)
    decreases |ts|
  {
    && |ts| == |tiles|
    && (ts != [] ==>
          && tiles[0].w <= 16 && tiles[0].h <= 16 && LegalTile(ts[0], known, bpp, tiles[0].w, tiles[0].h)
          && Sends(ts[0], tiles[0], pic) && SendsAll(ts[1..], known.After(ts[0]), bpp, tiles[1..], pic))
  }

  ghost predicate Sends(t: HexTile, at: Tile, pic: Pt -> Pixel)
    requires t.raw ==> |t.rows| == at.h && forall j :: 0 <= j < at.h ==> |t.rows[j]| == at.w
  {
    forall q :: InRect(q, 0, 0, at.w, at.h) ==> Meaning(t, q) == pic(Pt(at.x + q.x, at.y + q.y))
  }

  ghost function EncodeTiles(ts: seq<HexTile>, known: Known, bpp: nat, tiles: seq<Tile>, pic: Pt -> Pixel): seq<byte>
    requires SendsAll(ts, known, bpp, tiles, pic)
    decreases |ts|
  {
    if ts == [] then []
    else
      EncodeTile(ts[0], known, bpp, tiles[0].w, tiles[0].h)
      + EncodeTiles(ts[1..], known.After(ts[0]), bpp, tiles[1..], pic)
  }

  /** `pic` on the pixels that some tile covers, `img` elsewhere. */
  ghost predicate ShowsAt(fb: Framebuffer, img': Image, img: Image, tiles: seq<Tile>, pic: Pt -> Pixel, p: Pt, q: Pt)
  {
    && p in img && p in img'
    && img'[p] == if 0 < Hits(tiles, q) then fb.Shown(pic(q)) else img[p]
  }

  lemma TileShowsPicture(fb: Framebuffer, img': Image, img: Image, t: HexTile, at: Tile, pic: Pt -> Pixel, x: int, y: int, p: Pt)
    requires t.raw ==> |t.rows| == at.h && forall j :: 0 <= j < at.h ==> |t.rows[j]| == at.w
    requires Sends(t, at, pic) && TileShown(fb, img', img, t, p, x + at.x, y + at.y, at.w, at.h)
    ensures ShowsAt(fb, img', img, [at], pic, p, Pt(p.x - x, p.y - y))
  {
    hide Meaning, Flag;
    var q := Pt(p.x - (x + at.x), p.y - (y + at.y));
    HitsOne(at, Pt(p.x - x, p.y - y));
    assert Pt(at.x + q.x, at.y + q.y) == Pt(p.x - x, p.y - y);
    assert InRect(q, 0, 0, at.w, at.h) <==> InRect(p, x + at.x, y + at.y, at.w, at.h);
  }

  lemma ShowsInTurn(fb: Framebuffer, img': Image, mid: Image, img: Image, tiles: seq<Tile>, pic: Pt -> Pixel, p: Pt, q: Pt)
    requires tiles != [] && ShowsAt(fb, mid, img, [tiles[0]], pic, p, q) && ShowsAt(fb, img', mid, tiles[1..], pic, p, q)
    ensures ShowsAt(fb, img', img, tiles, pic, p, q)
  {
    HitsOne(tiles[0], q);
  }

  lemma {:induction false} TilesShowPicture(fb: Framebuffer, st: State, ts: seq<HexTile>, known: Known, tiles: seq<Tile>,
                                            pic: Pt -> Pixel, x: nat, y: nat, rest: seq<byte>)
    requires 0 < fb.remoteBpp && fb.layout.width <= 0xFFFF && fb.layout.height <= 0xFFFF
    requires forall k :: 0 <= k < |tiles| ==> fb.Inside(x + tiles[k].x, y + tiles[k].y, tiles[k].w, tiles[k].h)
    requires SendsAll(ts, known, fb.remoteBpp, tiles, pic) && known.Held(st)
    requires st.feed == Live(EncodeTiles(ts, known, fb.remoteBpp, tiles, pic) + rest)
    ensures var end := RunHextiles(fb, st, tiles, x, y);
            && end.feed == Live(rest) && end.img.Keys == st.img.Keys
            && forall p :: p in st.img ==> ShowsAt(fb, end.img, st.img, tiles, pic, p, Pt(p.x - x, p.y - y))
    decreases |tiles|
  {
    hide RunTile, EncodeTile, LegalTile, Known.Held, Known.After, Sends, TileShown, Hits;
    if tiles == [] {
      assert EncodeTiles(ts, known, fb.remoteBpp, tiles, pic) + rest == rest;
      NoHits(fb, st.img, pic, x, y);
    } else {
      var at, t := tiles[0], ts[0];
      var more := EncodeTiles(ts[1..], known.After(t), fb.remoteBpp, tiles[1..], pic);
      Append(EncodeTile(t, known, fb.remoteBpp, at.w, at.h), more, rest);
      TileInverts(fb, st, t, known, x + at.x, y + at.y, at.w, at.h, more + rest);
      LegalRows(t, known, fb.remoteBpp, at.w, at.h);
      var mid := RunTile(fb, st, x + at.x, y + at.y, at.w, at.h);
      TilesShowPicture(fb, mid, ts[1..], known.After(t), tiles[1..], pic, x, y, rest);
      var end := RunHextiles(fb, st, tiles, x, y);
      forall p | p in st.img
        ensures ShowsAt(fb, end.img, st.img, tiles, pic, p, Pt(p.x - x, p.y - y))
      {
        TileShowsPicture(fb, mid.img, st.img, t, at, pic, x, y, p);
        assert ShowsAt(fb, end.img, mid.img, tiles[1..], pic, p, Pt(p.x - x, p.y - y));
        ShowsInTurn(fb, end.img, mid.img, st.img, tiles, pic, p, Pt(p.x - x, p.y - y));
      }
    }
  }

  lemma NoHits(fb: Framebuffer, img: Image, pic: Pt -> Pixel, x: int, y: int)
    ensures forall p :: p in img ==> ShowsAt(fb, img, img, [], pic, p, Pt(p.x - x, p.y - y))
  {
  }

  lemma LegalRows(t: HexTile, known: Known, bpp: nat, w: nat, h: nat)
    requires LegalTile(t, known, bpp, w, h)
    ensures t.raw ==> |t.rows| == h && forall j :: 0 <= j < h ==> |t.rows[j]| == w
  {
  }

  /**
   * Hextile round trip: whatever the background and foreground held before,
   * the rectangle ends up showing the picture that its tiles paint, nothing
   * outside it changes, and exactly its bytes are consumed.
   */
  lemma RectShowsPicture(fb: Framebuffer, st: State, ts: seq<HexTile>, pic: Pt -> Pixel, x: nat, y: nat, w: nat, h: nat, rest: seq<byte>)
    requires 0 < fb.remoteBpp && fb.layout.width <= 0xFFFF && fb.layout.height <= 0xFFFF && fb.Inside(x, y, w, h)
    requires SendsAll(ts, Known(None, None), fb.remoteBpp, Walk(w, h, 16, 0, 0), pic)
    requires st.feed == Live(EncodeTiles(ts, Known(None, None), fb.remoteBpp, Walk(w, h, 16, 0, 0), pic) + rest)
    ensures var end := RunHextiles(fb, st, Walk(w, h, 16, 0, 0), x, y);
            && end.feed == Live(rest) && end.img.Keys == st.img.Keys
            && forall p :: p in st.img ==>
                 end.img[p] == if InRect(p, x, y, w, h) then fb.Shown(pic(Pt(p.x - x, p.y - y))) else st.img[p]
  {
    hide RunHextiles, Walk, Hits, SendsAll, EncodeTiles;
    var tiles := Walk(w, h, 16, 0, 0);
    forall k | 0 <= k < |tiles|
      ensures fb.Inside(x + tiles[k].x, y + tiles[k].y, tiles[k].w, tiles[k].h)
    {
      WalkInside(w, h, 16, 0, 0, k);
    }
    TilesShowPicture(fb, st, ts, Known(None, None), tiles, pic, x, y, rest);
    var end := RunHextiles(fb, st, tiles, x, y);
    forall p | p in st.img
      ensures end.img[p] == if InRect(p, x, y, w, h) then fb.Shown(pic(Pt(p.x - x, p.y - y))) else st.img[p]
    {
      WalkPartitions(w, h, 16, Pt(p.x - x, p.y - y));
      assert ShowsAt(fb, end.img, st.img, tiles, pic, p, Pt(p.x - x, p.y - y));
    }
  }
}
