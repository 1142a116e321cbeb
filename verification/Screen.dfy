/** A framebuffer for a pair of pixel formats, and the colours it ends up showing. */
module Screen {
  import opened Bytes
  import opened Framebuffers
  import opened Image
  import opened Layouts
  import opened PixelFormats
  import opened Rendering
  import opened Words

  /** A colour map entry, 16 bits a channel, lowest first. */
  type Half = b: seq<bool> | |b| == 16 witness Low(0)[..16]

  datatype Entry = Entry(red: Half, green: Half, blue: Half)

  function Black(): Entry
  {
    Entry(Low(0)[..16], Low(0)[..16], Low(0)[..16])
  }

  /** VncColorMap (src/vnccolormap.h) */
  datatype ColourMap = ColourMap(offset: nat, entries: seq<Entry>) {

    /** `vnc_color_map_lookup`; an index out of range leaves the channels 0. */
    function Lookup(index: nat): Entry
    {
      if offset <= index < offset + |entries| then entries[index - offset] else Black()
    }
  }

  /**
   * A pixel as an index.  Without true colour the server's byte order is forgotten
   * (src/vncbaseframebuffer.c:806) and the bytes are read in that of the host.
   */
  function Index(remote: Format, bigEndian: bool, m: Pixel): nat
    requires |m| == remote.bpp <= 4
  {
    Number(remote.(bigEndian := bigEndian).Value(m)[..16])
  }

  /** Of entries numbered from `first` on, the one with the number `index`. */
  function EntryOf(entries: seq<Entry>, first: nat, index: nat): Entry
  {
    if entries == [] then Entry(NoBits(), NoBits(), NoBits())
    else if index == first then entries[0]
    else EntryOf(entries[1..], first + 1, index)
  }

  function NoBits(): Half
  {
    [false, false, false, false, false, false, false, false, false, false, false, false, false, false, false, false]
  }

  lemma LookupFinds(colours: ColourMap, index: nat)
    ensures colours.Lookup(index) == EntryOf(colours.entries, colours.offset, index)
    decreases |colours.entries|
  {
    if colours.entries != [] && index != colours.offset {
      LookupFinds(ColourMap(colours.offset + 1, colours.entries[1..]), index);
    }
  }

  /** The map entry that the server means by a pixel value. */
  function Meant(colours: ColourMap, v: Word): Entry
  {
    EntryOf(colours.entries, colours.offset, Number(v[..16]))
  }

  /** SET_PIXEL, of either kind, from bytes in the server's order to bytes in the local one. */
  function Store(lanes: Lanes, remote: Format, local: Format, colours: ColourMap, hostBigEndian: bool, m: Pixel): (r: Pixel)
    requires remote.Valid() && local.Valid()
    ensures |r| == local.bpp
  {
    if |m| != remote.bpp then Zeros(local.bpp)
    else if remote.trueColour then local.Memory(lanes.SetPixel(remote.Value(m)))
    else
      var e := colours.Lookup(Index(remote, hostBigEndian, m));
      local.Memory(SetMapped(lanes, e.red, e.green, e.blue))
  }

  /** With the lanes that belong to the two formats. */
  function StoredPixel(remote: Format, local: Format, colours: ColourMap, hostBigEndian: bool, m: Pixel): (r: Pixel)
    requires remote.Valid() && local.Valid()
    ensures |r| == local.bpp
  {
    Store(LanesFor(if remote.trueColour then remote else MapFormat(remote), local), remote, local, colours, hostBigEndian, m)
  }

  /** Every pixel of `remote`, stored by either path, shows its colours. */
  ghost predicate ShowsEvery(fb: Framebuffer, remote: Format, local: Format, colours: ColourMap)
    requires remote.Valid() && local.Valid()
  {
    forall m: Pixel, stored | |m| == remote.bpp && Renders(fb, m, stored) :: ShowsColours(remote, local, colours, remote.Value(m), stored)
  }

  /** `fb` renders pixels of `remote` as pixels of `local`. */
  ghost predicate RendersFor(fb: Framebuffer, remote: Format, local: Format, colours: ColourMap, hostBigEndian: bool)
    requires remote.Valid() && local.Valid()
  {
    && fb.remoteBpp == remote.bpp && fb.layout.bpp == local.bpp
    && fb.perfectMatch == PerfectMatch(remote, local, hostBigEndian)
    && forall m {:trigger fb.setPixel(m)} :: fb.setPixel(m) == StoredPixel(remote, local, colours, hostBigEndian, m)
  }

  /**
   * A framebuffer for two formats, with the rendering state that
   * `vnc_base_framebuffer_reinit_render_funcs` computes.  Whatever pixel it is
   * then given, and by whichever path, every channel of the pixel stored shows
   * the colour sent, unless the index of a colour is read in the wrong order.
   */
  method Open(buffer: array<byte>, layout: Layout, remote: Format, local: Format, colours: ColourMap, hostBigEndian: bool)
    returns (fb: Framebuffer)
    requires layout.Fits(buffer[..]) && layout.width <= 0xFFFF && layout.height <= 0xFFFF
    requires remote.Valid() && local.Valid() && layout.bpp == local.bpp && (remote.trueColour || remote.bpp <= 2)
    ensures fb.Valid() && fb.buffer == buffer && fb.layout == layout && RendersFor(fb, remote, local, colours, hostBigEndian)
    ensures AlphaApart(local) && InOrder(remote, hostBigEndian) ==> ShowsEvery(fb, remote, local, colours)
  {
    hide Store, ShowsColours;
    var renderer := new Renderer();
    renderer.Reinit(remote, local, hostBigEndian);
    var lanes, matched := renderer.lanes, renderer.perfectMatch;
    fb := new Framebuffer(buffer, layout, remote.bpp,
                          m requires remote.Valid() && local.Valid() => Store(lanes, remote, local, colours, hostBigEndian, m), matched);
    if AlphaApart(local) && InOrder(remote, hostBigEndian) {
      forall m: Pixel, stored | |m| == remote.bpp && Renders(fb, m, stored)
        ensures ShowsColours(remote, local, colours, remote.Value(m), stored)
      {
        EitherPathShowsColours(fb, remote, local, colours, hostBigEndian, m, stored);
      }
    }
  }

  /** No bit beyond the width of the local pixel is written, so that its bytes hold all of it. */
  lemma StoredReadsBack(remote: Format, local: Format, colours: ColourMap, hostBigEndian: bool, m: Pixel)
    requires remote.Valid() && local.Valid() && |m| == remote.bpp
    ensures remote.trueColour ==>
              local.Value(StoredPixel(remote, local, colours, hostBigEndian, m)) == LanesFor(remote, local).SetPixel(remote.Value(m))
    ensures !remote.trueColour ==>
              local.Value(StoredPixel(remote, local, colours, hostBigEndian, m))
              == Mapped(remote, local, colours.Lookup(Index(remote, hostBigEndian, m)))
  {
    hide LanesFor, Lanes.SetPixel, SetMapped, Index, Format.Memory, Format.Value;
    if remote.trueColour {
      var out := LanesFor(remote, local).SetPixel(remote.Value(m));
      forall i | 8 * local.bpp <= i < 32
        ensures !out[i]
      {
        SetPixelBit(remote, local, remote.Value(m), i);
      }
      local.ValueInverts(out);
    } else {
      var e := colours.Lookup(Index(remote, hostBigEndian, m));
      var out := Mapped(remote, local, e);
      forall i | 8 * local.bpp <= i < 32
        ensures !out[i]
      {
        ColourMapConverts(remote, local, e.red, e.green, e.blue, i);
      }
      local.ValueInverts(out);
    }
  }

  /** The pixel value for a map entry. */
  function Mapped(remote: Format, local: Format, e: Entry): Word
  {
    SetMapped(LanesFor(MapFormat(remote), local), e.red, e.green, e.blue)
  }

  /** The channels keep out of the top byte of four, which the alpha mask sets. */
  predicate AlphaApart(local: Format)
  {
    local.bpp == 4 ==> forall i :: 24 <= i < 32 ==> !local.Covers(i)
  }

  /** The usual 24 bits in four bytes do, and all of two bytes. */
  lemma UsualApart(bigEndian: bool)
    ensures AlphaApart(Format(4, 24, bigEndian, true, Channel(8, 16), Channel(8, 8), Channel(8, 0)))
    ensures AlphaApart(Format(2, 16, bigEndian, true, Channel(5, 11), Channel(6, 5), Channel(5, 0)))
  {
  }

  /** Channel `c` of the stored pixel shows the remote channel `r` brought to its width. */
  ghost predicate ShowsChannel(local: Format, r: Channel, c: Channel, v: Word, stored: Pixel)
    requires |stored| == local.bpp <= 4
  {
    c.Component(local.Value(stored)) == Rescale(r.Component(v), r.bits, c.bits)
  }

  /** ... or the top bits of a colour map entry. */
  ghost predicate ShowsEntry(local: Format, c: Channel, e: Half, stored: Pixel)
    requires |stored| == local.bpp <= 4 && c.bits <= 16
  {
    forall i :: 0 <= i < 32 && c.Covers(i) ==> local.Value(stored)[i] == e[16 - c.bits + (i - c.shift)]
  }

  ghost predicate ShowsMap(local: Format, e: Entry, stored: Pixel)
    requires |stored| == local.bpp && local.Valid()
  {
    && ShowsEntry(local, local.red, e.red, stored)
    && ShowsEntry(local, local.green, e.green, stored)
    && ShowsEntry(local, local.blue, e.blue, stored)
  }

  /** What is stored shows the colours of the pixel value `v`. */
  ghost predicate ShowsColours(remote: Format, local: Format, colours: ColourMap, v: Word, stored: Pixel)
    requires remote.Valid() && local.Valid()
  {
    && |stored| == local.bpp
    && if remote.trueColour then
         && ShowsChannel(local, remote.red, local.red, v, stored)
         && ShowsChannel(local, remote.green, local.green, v, stored)
         && ShowsChannel(local, remote.blue, local.blue, v, stored)
       else
         ShowsMap(local, Meant(colours, v), stored)
  }

  /** The index of a colour, where pixels are indices, is read in the order it was sent in. */
  predicate InOrder(remote: Format, hostBigEndian: bool)
  {
    remote.trueColour || remote.bpp == 1 || remote.bigEndian == hostBigEndian
  }

  /**
   * Whichever path stores a wire pixel, conversion or the copy of a perfect
   * match, each channel of the stored pixel shows the colour that was sent.
   */
  lemma EitherPathShowsColours(fb: Framebuffer, remote: Format, local: Format, colours: ColourMap, hostBigEndian: bool, m: Pixel, stored: Pixel)
    requires remote.Valid() && local.Valid() && AlphaApart(local) && RendersFor(fb, remote, local, colours, hostBigEndian)
    requires InOrder(remote, hostBigEndian)
    requires |m| == remote.bpp && Renders(fb, m, stored)
    ensures ShowsColours(remote, local, colours, remote.Value(m), stored)
  {
    if stored == fb.setPixel(m) {
      StoredShowsColours(remote, local, colours, hostBigEndian, m);
    } else {
      CopiedShowsColours(remote, local, m);
    }
  }

  lemma CopiedShowsColours(remote: Format, local: Format, m: Pixel)
    requires remote.Valid() && local.Valid() && |m| == remote.bpp == local.bpp && remote.bigEndian == local.bigEndian
    requires remote.red == local.red && remote.green == local.green && remote.blue == local.blue
    ensures ShowsChannel(local, remote.red, local.red, remote.Value(m), m)
    ensures ShowsChannel(local, remote.green, local.green, remote.Value(m), m)
    ensures ShowsChannel(local, remote.blue, local.blue, remote.Value(m), m)
  {
    assert local.Value(m) == remote.Value(m);
    hide Rescale;
    RescaleSame(remote.red.Component(remote.Value(m)), remote.red.bits);
    RescaleSame(remote.green.Component(remote.Value(m)), remote.green.bits);
    RescaleSame(remote.blue.Component(remote.Value(m)), remote.blue.bits);
  }

  lemma ConvertedShowsColours(remote: Format, local: Format, m: Pixel, stored: Pixel)
    requires remote.Valid() && local.Valid() && AlphaApart(local) && |m| == remote.bpp && |stored| == local.bpp
    requires local.Value(stored) == LanesFor(remote, local).SetPixel(remote.Value(m))
    ensures ShowsChannel(local, remote.red, local.red, remote.Value(m), stored)
    ensures ShowsChannel(local, remote.green, local.green, remote.Value(m), stored)
    ensures ShowsChannel(local, remote.blue, local.blue, remote.Value(m), stored)
  {
    hide Rescale, LanesFor, Lanes.SetPixel;
    SetPixelConverts(remote, local, remote.Value(m));
    NoAlpha(local, local.red);
    NoAlpha(local, local.green);
    NoAlpha(local, local.blue);
    OrNothing(Rescale(remote.red.Component(remote.Value(m)), remote.red.bits, local.red.bits));
    OrNothing(Rescale(remote.green.Component(remote.Value(m)), remote.green.bits, local.green.bits));
    OrNothing(Rescale(remote.blue.Component(remote.Value(m)), remote.blue.bits, local.blue.bits));
  }

  lemma IndexInOrder(remote: Format, hostBigEndian: bool, m: Pixel)
    requires |m| == remote.bpp <= 4 && (remote.bpp == 1 || remote.bigEndian == hostBigEndian)
    ensures Index(remote, hostBigEndian, m) == Number(remote.Value(m)[..16])
  {
    var f, g := remote.(bigEndian := hostBigEndian), remote.(bigEndian := remote.bigEndian);
    assert forall i :: 0 <= i < 32 ==> f.Value(m)[i] == g.Value(m)[i];
    assert f.Value(m) == g.Value(m);
  }

  lemma MappedShowsColours(remote: Format, local: Format, e: Entry, stored: Pixel)
    requires remote.Valid() && local.Valid() && AlphaApart(local) && |stored| == local.bpp
    requires local.Value(stored) == Mapped(remote, local, e)
    ensures ShowsMap(local, e, stored)
  {
    hide SetMapped, LanesFor, AlphaMask, Format.Value;
    MappedShowsEntry(remote, local, local.red, e.red, e, stored);
    MappedShowsEntry(remote, local, local.green, e.green, e, stored);
    MappedShowsEntry(remote, local, local.blue, e.blue, e, stored);
  }

  lemma MappedShowsEntry(remote: Format, local: Format, c: Channel, h: Half, e: Entry, stored: Pixel)
    requires remote.Valid() && local.Valid() && AlphaApart(local) && |stored| == local.bpp
    requires local.Value(stored) == Mapped(remote, local, e)
    requires (c == local.red && h == e.red) || (c == local.green && h == e.green) || (c == local.blue && h == e.blue)
    ensures ShowsEntry(local, c, h, stored)
  {
    hide SetMapped, LanesFor, AlphaMask, Format.Value;
    var out := local.Value(stored);
    forall i | 0 <= i < 32 && c.Covers(i)
      ensures out[i] == h[16 - c.bits + (i - c.shift)]
    {
      assert local.Covers(i);
      ColourMapConverts(remote, local, e.red, e.green, e.blue, i);
    }
  }

  lemma NoAlpha(local: Format, c: Channel)
    requires local.Valid() && AlphaApart(local) && HasChannel(local, c)
    ensures c.Component(AlphaMask(local.bpp)) == Low(0)
  {
    forall i | 0 <= i < 32
      ensures c.Component(AlphaMask(local.bpp))[i] == Low(0)[i]
    {
      assert i < c.bits ==> c.Covers(c.shift + i) && local.Covers(c.shift + i);
    }
  }

  lemma OrNothing(w: Word)
    ensures Or(w, Low(0)) == w
  {
  }

  lemma RescaleSame(w: Word, bits: nat)
    ensures Rescale(w, bits, bits) == w
  {
  }

  /**
   * Every pixel shows the colour meant, whatever the colour map, exactly when
   * pixels are colours themselves, or one byte long, or in the order of the host.
   */
  lemma ShowsMeantIffInOrder(remote: Format, local: Format, c: Channel, hostBigEndian: bool)
    requires remote.Valid() && local.Valid() && AlphaApart(local) && (remote.trueColour || remote.bpp <= 2)
    requires HasChannel(local, c) && 0 < c.bits
    ensures InOrder(remote, hostBigEndian)
            <==> forall colours, m: Pixel | |m| == remote.bpp ::
                   ShowsColours(remote, local, colours, remote.Value(m), StoredPixel(remote, local, colours, hostBigEndian, m))
  {
    hide StoredPixel, ShowsColours;
    if InOrder(remote, hostBigEndian) {
      forall colours, m: Pixel | |m| == remote.bpp
        ensures ShowsColours(remote, local, colours, remote.Value(m), StoredPixel(remote, local, colours, hostBigEndian, m))
      {
        StoredShowsColours(remote, local, colours, hostBigEndian, m);
      }
    } else {
      ShowsOtherEntry(remote, local, c, hostBigEndian);
    }
  }

  lemma StoredShowsColours(remote: Format, local: Format, colours: ColourMap, hostBigEndian: bool, m: Pixel)
    requires remote.Valid() && local.Valid() && AlphaApart(local) && InOrder(remote, hostBigEndian) && |m| == remote.bpp
    ensures ShowsColours(remote, local, colours, remote.Value(m), StoredPixel(remote, local, colours, hostBigEndian, m))
  {
    hide StoredPixel, ShowsChannel, ShowsMap, Mapped, Index, LanesFor, Lanes.SetPixel, Format.Value, EntryOf, Number;
    var stored := StoredPixel(remote, local, colours, hostBigEndian, m);
    StoredReadsBack(remote, local, colours, hostBigEndian, m);
    if remote.trueColour {
      ConvertedShowsColours(remote, local, m, stored);
    } else {
      IndexInOrder(remote, hostBigEndian, m);
      LookupFinds(colours, Number(remote.Value(m)[..16]));
      MappedShowsColours(remote, local, Meant(colours, remote.Value(m)), stored);
    }
  }

  /** A colour map whose entry 1 is white. */
  function OneWhite(): (colours: ColourMap)
    ensures forall index: nat, i: nat | i < 16 ::
              var e := colours.Lookup(index); e.red[i] == e.green[i] == e.blue[i] == (index == 1)
  {
    ColourMap(1, [Entry(Low(16)[..16], Low(16)[..16], Low(16)[..16])])
  }

  /** The bytes 1 and 0 are index 1 in one order and 256 in the other. */
  lemma ShowsOtherEntry(remote: Format, local: Format, c: Channel, hostBigEndian: bool)
    requires remote.Valid() && local.Valid() && AlphaApart(local) && !remote.trueColour && remote.bpp == 2
    requires HasChannel(local, c) && 0 < c.bits && remote.bigEndian != hostBigEndian
    ensures var m: Pixel := [1, 0];
            !ShowsColours(remote, local, OneWhite(), remote.Value(m), StoredPixel(remote, local, OneWhite(), hostBigEndian, m))
  {
    hide StoredPixel, Mapped, Index, OneWhite, ColourMap.Lookup, AlphaMask, Format.Value, EntryOf, Number;
    var m: Pixel := [1, 0];
    var stored := StoredPixel(remote, local, OneWhite(), hostBigEndian, m);
    var shown := OneWhite().Lookup(Index(remote, hostBigEndian, m));
    StoredReadsBack(remote, local, OneWhite(), hostBigEndian, m);
    MappedShowsColours(remote, local, shown, stored);
    IndexIsOne(remote, hostBigEndian, m);
    IndexIsOne(remote, remote.bigEndian, m);
    IndexInOrder(remote, remote.bigEndian, m);
    LookupFinds(OneWhite(), Number(remote.Value(m)[..16]));
    var meant := Meant(OneWhite(), remote.Value(m));
    assert shown.red[16 - c.bits] != meant.red[16 - c.bits];
    assert shown.green[16 - c.bits] != meant.green[16 - c.bits];
    assert shown.blue[16 - c.bits] != meant.blue[16 - c.bits];
    assert c.Covers(c.shift);
  }

  lemma IndexIsOne(f: Format, bigEndian: bool, m: Pixel)
    requires |m| == f.bpp == 2 && m[0] == 1 && m[1] == 0
    ensures Index(f, bigEndian, m) == 1 <==> !bigEndian
  {
    hide Bits, Number;
    var bits := f.(bigEndian := bigEndian).Value(m)[..16];
    forall i: nat | i < 16
      ensures bits[i] == (i == if bigEndian then 8 else 0)
    {
      BitsBelowTwo(0, 8, i % 8);
      BitsBelowTwo(1, 8, i % 8);
    }
    NumberIsOne(bits);
  }

  lemma NumberIsOne(bits: seq<bool>)
    requires 0 < |bits|
    ensures Number(bits) == 1 <==> bits[0] && forall i :: 0 < i < |bits| ==> !bits[i]
  {
    NumberZero(bits[1..]);
    assert forall i :: 0 < i < |bits| ==> bits[i] == bits[1..][i - 1];
    assert forall i :: 0 <= i < |bits[1..]| ==> bits[1..][i] == bits[i + 1];
  }

  lemma {:induction false} BitsBelowTwo(n: nat, k: nat, i: nat)
    requires n < 2 && i < k
    ensures Bits(n, k)[i] == (n == 1 && i == 0)
  {
    if i != 0 {
      BitsBelowTwo(n / 2, k - 1, i - 1);
    }
  }
}
