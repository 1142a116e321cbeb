/** Whole ZRLE tiles: every legal encoding of one, and the reader of them all. */
module ZrleTiles {
  import opened Arith
  import opened Bytes
  import opened Feed
  import opened Image
  import opened ZrleCodec

  /** What a tile draws: its pixels row by row (none for an unknown subencoding). */
  datatype Drawn = Drawn(pixels: seq<Pixel>, direct: bool)

  /** The ways section 7.7.6 offers to send a tile. */
  datatype Encoding =
    | RawTile(pixels: seq<Pixel>)
    | SolidTile(pixel: Pixel)
    | PackedTile(palette: seq<Pixel>, rows: seq<seq<int>>, pads: seq<nat>)
    | RunsTile(runs: seq<Run>)
    | PaletteRunsTile(palette: seq<Pixel>, pruns: seq<PRun>)

  predicate LegalRow(row: seq<int>, w: nat, size: nat)
  {
    |row| == w && forall i :: 0 <= i < w ==> 0 <= row[i] < size
  }

  ghost predicate Legal(e: Encoding, c: CPixel, w: nat, h: nat)
    requires c.Fits()
  {
    match e
    case RawTile(ps) => |ps| == w * h && c.AllCompact(ps)
    case SolidTile(p) => c.Compact(p)
    case PackedTile(pal, rows, pads) =>
      && 2 <= |pal| <= 16 && c.AllCompact(pal)
      && |rows| == h == |pads| && forall j :: 0 <= j < h ==> LegalRow(rows[j], w, |pal|)
    case RunsTile(runs) => LegalRuns(c, runs) && |Expand(runs)| == w * h
    case PaletteRunsTile(pal, runs) =>
      && 2 <= |pal| <= 127 && c.AllCompact(pal)
      && LegalPRuns(|pal|, runs) && |ExpandP(runs, pal)| == w * h
  }

  /** The pixels an encoding stands for. */
  ghost function Meaning(e: Encoding, c: CPixel, w: nat, h: nat): (r: seq<Pixel>)
    requires c.Fits() && Legal(e, c, w, h)
  {
    match e
    case RawTile(ps) => ps
    case SolidTile(p) => Repeat(p, w * h)
    case PackedTile(pal, rows, _) => Lookup(Flatten(rows), pal)
    case RunsTile(runs) => Expand(runs)
    case PaletteRunsTile(pal, runs) => ExpandP(runs, pal)
  }

  function Flatten(rows: seq<seq<int>>): seq<int>
  {
    if rows == [] then [] else rows[0] + Flatten(rows[1..])
  }

  function Lookup(ix: seq<int>, palette: seq<Pixel>): (r: seq<Pixel>)
    ensures |r| == |ix|
    ensures forall i :: 0 <= i < |ix| && 0 <= ix[i] < |palette| ==> r[i] == palette[ix[i]]
  {
    seq(|ix|, i requires 0 <= i < |ix| => if 0 <= ix[i] < |palette| then palette[ix[i]] else [])
  }

  function PackRows(rows: seq<seq<int>>, bits: nat, pads: seq<nat>): seq<byte>
    requires IsWidth(bits) && |pads| == |rows|
    requires forall j :: 0 <= j < |rows| ==> forall i :: 0 <= i < |rows[j]| ==> 0 <= rows[j][i] < Weight(bits)
  {
    if rows == [] then [] else Pack(rows[0], bits, 0, pads[0]).1 + PackRows(rows[1..], bits, pads[1..])
  }

  lemma IndicesFit(rows: seq<seq<int>>, w: nat, size: nat)
    requires 2 <= size <= 16 && forall j :: 0 <= j < |rows| ==> LegalRow(rows[j], w, size)
    ensures forall j :: 0 <= j < |rows| ==> forall i :: 0 <= i < |rows[j]| ==> 0 <= rows[j][i] < Weight(LeastWidth(size))
  {
    forall j, i | 0 <= j < |rows| && 0 <= i < |rows[j]|
      ensures 0 <= rows[j][i] < Weight(LeastWidth(size))
    {
      assert LegalRow(rows[j], w, size);
    }
  }

  ghost function Encode(e: Encoding, c: CPixel, w: nat, h: nat): seq<byte>
    requires c.Fits() && Legal(e, c, w, h)
  {
    match e
    case RawTile(ps) => [0] + c.EncodeMany(ps)
    case SolidTile(p) => [1] + c.Encode(p)
    case PackedTile(pal, rows, pads) =>
      IndicesFit(rows, w, |pal|);
      [|pal|] + (c.EncodeMany(pal) + PackRows(rows, LeastWidth(|pal|), pads))
    case RunsTile(runs) => [128] + EncodeRuns(c, runs)
    case PaletteRunsTile(pal, runs) => [128 + |pal|] + (c.EncodeMany(pal) + EncodePRuns(runs))
  }

  /** Row after row of packed indices; each row starts on a fresh byte. */
  function ReadIndices(f: Feed, bits: nat, w: nat, h: nat): (r: (seq<int>, Feed))
    requires IsWidth(bits)
    decreases h
  {
    if h == 0 then ([], f)
    else
      var (row, g) := ReadPacked(f, bits, w, 0, 0);
      var (more, e) := ReadIndices(g, bits, w, h - 1);
      (row + more, e)
  }

  /** The palette array after `ps` were read into memory that held `stack`. */
  function Overlay(ps: seq<Pixel>, stack: seq<Pixel>): (r: seq<Pixel>)
    requires |ps| <= |stack|
    ensures |r| == |stack|
  {
    ps + stack[|ps|..]
  }

  /** `vnc_connection_zrle_update_tile`, with `stack` what the palette array held before. */
  function ReadTile(f: Feed, c: CPixel, w: nat, h: nat, stack: seq<Pixel>): (r: (Drawn, Feed))
    requires c.Fits() && |stack| == 128
  {
    var (s, g) := TakeU8(f);
    if s == 0 then
      var (ps, e) := c.ReadMany(g, Area(w, h));
      (Drawn(ps, true), e)
    else if s == 1 then
      var (p, e) := c.Read(g);
      (Drawn(Repeat(p, Area(w, h)), true), e)
    else if s <= 16 then
      var (pal, d) := c.ReadMany(g, s);
      var (ix, e) := ReadIndices(d, IndexBits(s), w, h);
      (Drawn(Lookup(ix, Overlay(pal, stack)), false), e)
    else if s <= 127 || s == 129 then
      (Drawn([], false), g)
    else if s == 128 then
      var (ps, e) := ReadRuns(g, c, Area(w, h), [], 0);
      (Drawn(ps, false), e)
    else
      var (pal, d) := c.ReadMany(g, s - 128);
      var (ps, e) := ReadPRuns(d, Overlay(pal, stack), Area(w, h), 0, 0);
      (Drawn(ps, false), e)
  }

  lemma {:induction false} ReadIndicesInverts(rows: seq<seq<int>>, bits: nat, w: nat, pads: seq<nat>, rest: seq<byte>)
    requires IsWidth(bits) && |pads| == |rows|
    requires forall j :: 0 <= j < |rows| ==> |rows[j]| == w
    requires forall j :: 0 <= j < |rows| ==> forall i :: 0 <= i < |rows[j]| ==> 0 <= rows[j][i] < Weight(bits)
    ensures ReadIndices(Live(PackRows(rows, bits, pads) + rest), bits, w, |rows|) == (Flatten(rows), Live(rest))
  {
    hide Weight;
    if rows == [] {
      assert PackRows(rows, bits, pads) + rest == rest;
    } else {
      var more := PackRows(rows[1..], bits, pads[1..]);
      Append(Pack(rows[0], bits, 0, pads[0]).1, more, rest);
      LowBitsNone();
      ReadPackedInverts(rows[0], bits, 0, pads[0], 0, more + rest);
      ReadIndicesInverts(rows[1..], bits, w, pads[1..], rest);
    }
  }

  lemma LowBitsNone()
    ensures LowBits(0, 0) == 0 && Weight(0) == 1
  {
  }

  lemma LookupOverlay(ix: seq<int>, palette: seq<Pixel>, stack: seq<Pixel>)
    requires |palette| <= |stack| && forall i :: 0 <= i < |ix| ==> 0 <= ix[i] < |palette|
    ensures Lookup(ix, Overlay(palette, stack)) == Lookup(ix, palette)
  {
  }

  lemma FlattenFits(rows: seq<seq<int>>, w: nat, size: nat)
    requires forall j :: 0 <= j < |rows| ==> LegalRow(rows[j], w, size)
    ensures |Flatten(rows)| == w * |rows|
    ensures forall i :: 0 <= i < |Flatten(rows)| ==> 0 <= Flatten(rows)[i] < size
  {
    if rows != [] {
      FlattenFits(rows[1..], w, size);
      assert LegalRow(rows[0], w, size);
    }
  }

  /**
   * Reading any legal encoding of a tile gives the tile's pixels and consumes
   * exactly the tile's bytes, whatever the palette array held before.
   */
  lemma TileInverts(e: Encoding, c: CPixel, w: nat, h: nat, stack: seq<Pixel>, rest: seq<byte>)
    requires c.Fits() && Legal(e, c, w, h) && |stack| == 128
    ensures var (d, g) := ReadTile(Live(Encode(e, c, w, h) + rest), c, w, h, stack);
            d.pixels == Meaning(e, c, w, h) && |d.pixels| == w * h && g == Live(rest)
  {
    hide Weight, IndexBits, LeastWidth, IsLeastWidth, ReadRuns, ReadPRuns, ReadIndices;
    match e {
      case RawTile(ps) =>
        Append([0], c.EncodeMany(ps), rest);
        TakeU8Prefix(0, c.EncodeMany(ps) + rest);
        c.ReadManyInverts(ps, rest);
      case SolidTile(p) =>
        Append([1], c.Encode(p), rest);
        TakeU8Prefix(1, c.Encode(p) + rest);
        c.ReadInverts(p, rest);
      case PackedTile(pal, rows, pads) =>
        PackedInverts(e, c, w, h, stack, rest);
      case RunsTile(runs) =>
        Append([128], EncodeRuns(c, runs), rest);
        TakeU8Prefix(128, EncodeRuns(c, runs) + rest);
        ReadRunsInverts(c, [], 0, runs, rest);
        assert Repeat([], 0) + Expand(runs) == Expand(runs);
      case PaletteRunsTile(pal, runs) =>
        PaletteRunsInverts(e, c, w, h, stack, rest);
    }
  }

  lemma PackedInverts(e: Encoding, c: CPixel, w: nat, h: nat, stack: seq<Pixel>, rest: seq<byte>)
    requires c.Fits() && e.PackedTile? && Legal(e, c, w, h) && |stack| == 128
    ensures ReadTile(Live(Encode(e, c, w, h) + rest), c, w, h, stack)
         == (Drawn(Lookup(Flatten(e.rows), e.palette), false), Live(rest))
    ensures |Flatten(e.rows)| == w * h
  {
    hide Weight, IndexBits, LeastWidth, IsLeastWidth;
    var n := |e.palette|;
    IndexBitsLeast(n, LeastWidth(n));
    IndicesFit(e.rows, w, n);
    forall j | 0 <= j < h ensures |e.rows[j]| == w { assert LegalRow(e.rows[j], w, n); }
    var ps, rows := c.EncodeMany(e.palette), PackRows(e.rows, LeastWidth(n), e.pads);
    Append([n], ps + rows, rest);
    Append(ps, rows, rest);
    TakeU8Prefix(n, ps + (rows + rest));
    c.ReadManyInverts(e.palette, rows + rest);
    ReadIndicesInverts(e.rows, IndexBits(n), w, e.pads, rest);
    FlattenFits(e.rows, w, n);
    LookupOverlay(Flatten(e.rows), e.palette, stack);
  }

  lemma PaletteRunsInverts(e: Encoding, c: CPixel, w: nat, h: nat, stack: seq<Pixel>, rest: seq<byte>)
    requires c.Fits() && e.PaletteRunsTile? && Legal(e, c, w, h) && |stack| == 128
    ensures ReadTile(Live(Encode(e, c, w, h) + rest), c, w, h, stack)
         == (Drawn(ExpandP(e.pruns, e.palette), false), Live(rest))
  {
    hide ReadPRuns;
    var n := |e.palette|;
    var ps, runs := c.EncodeMany(e.palette), EncodePRuns(e.pruns);
    Append([128 + n], ps + runs, rest);
    Append(ps, runs, rest);
    TakeU8Prefix(128 + n, ps + (runs + rest));
    c.ReadManyInverts(e.palette, runs + rest);
    var memory := Overlay(e.palette, stack);
    ReadPRunsInverts(e.palette, memory, 0, 0, e.pruns, rest);
    assert Repeat(memory[0], 0) + ExpandP(e.pruns, e.palette) == ExpandP(e.pruns, e.palette);
  }
}
