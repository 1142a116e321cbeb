/** Conversion of wire pixels to local ones (src/vncbaseframebuffer.c, src/vncbaseframebufferblt.h). */
module Rendering {
  import opened PixelFormats
  import opened Words

  /** The mask and shifts cached for one channel. */
  datatype Lane = Lane(mask: Word, right: nat, left: nat) {

    /** One channel's share of SET_PIXEL. */
    function Move(sp: Word): Word
    {
      Shl(And(Shr(sp, right), mask), left)
    }
  }

  datatype Lanes = Lanes(red: Lane, green: Lane, blue: Lane, alpha: Word) {

    /** SET_PIXEL up to the byte order of the result. */
    function SetPixel(sp: Word): Word
    {
      Or(Or(Or(alpha, red.Move(sp)), green.Move(sp)), blue.Move(sp))
    }
  }

  function Max(bits: nat): nat
  {
    Channel(bits, 0).Max()
  }

  function Excess(a: nat, b: nat): nat
  {
    if b < a then a - b else 0
  }

  lemma MaxOrder(a: nat, b: nat)
    ensures Max(a) > Max(b) <==> a > b
    ensures 0 < a ==> Max(a) / 2 == Max(a - 1)
  {
    if b < a {
      Pow2Monotone(b, a - 1);
    } else {
      Pow2Monotone(a, b);
    }
  }

  /** The adjustment loops of `vnc_base_framebuffer_reinit_render_funcs` count the extra bits. */
  method AdjustShift(shift: nat, fromBits: nat, toBits: nat) returns (adjusted: nat)
    ensures adjusted == shift + Excess(fromBits, toBits)
  {
    hide Max;
    adjusted := shift;
    var n := Max(fromBits);
    ghost var k: nat := fromBits;
    MaxOrder(k, toBits);
    while n > Max(toBits)
      invariant n == Max(k) && (n > Max(toBits) <==> k > toBits)
      invariant adjusted + Excess(k, toBits) == shift + Excess(fromBits, toBits)
      decreases k
    {
      MaxOrder(k, toBits);
      if 0 < k { MaxOrder(k - 1, toBits); }
      n := n / 2;
      k := k - 1;
      adjusted := adjusted + 1;
    }
  }

  /** What the cached lane of a channel is, for a remote and a local format. */
  function LaneFor(remote: Channel, local: Channel): Lane
  {
    Lane(And(Low(local.bits), Low(remote.bits)),
         remote.shift + Excess(remote.bits, local.bits), local.shift + Excess(local.bits, remote.bits))
  }

  function AlphaMask(bpp: nat): Word
  {
    Make(i => bpp == 4 && 24 <= i < 32)
  }

  function LanesFor(remote: Format, local: Format): Lanes
  {
    Lanes(LaneFor(remote.red, local.red), LaneFor(remote.green, local.green), LaneFor(remote.blue, local.blue),
          AlphaMask(local.bpp))
  }

  /** Without true colour, the channels of a packed colour map entry stand in for the format's. */
  function MapFormat(f: Format): Format
  {
    f.(red := Channel(16, 32), green := Channel(16, 16), blue := Channel(16, 0))
  }

  /** Only the lanes and the match flag of the cached rendering state. */
  class Renderer {
    var lanes: Lanes
    var perfectMatch: bool

    constructor ()
    {
      lanes := Lanes(Lane(Low(0), 0, 0), Lane(Low(0), 0, 0), Lane(Low(0), 0, 0), Low(0));
      perfectMatch := false;
    }

    /** `vnc_base_framebuffer_reinit_render_funcs` on a host of the given byte order. */
    method Reinit(format: Format, local: Format, hostBigEndian: bool)
      modifies this
      ensures lanes == LanesFor(if format.trueColour then format else MapFormat(format), local)
      ensures perfectMatch <==> PerfectMatch(format, local, hostBigEndian)
    {
      hide LaneFor, CachedLane, AlphaMask;
      var remote := format;
      if !remote.trueColour {
        remote := MapFormat(remote).(bigEndian := hostBigEndian);
      }
      perfectMatch := remote.trueColour && local.bpp == remote.bpp
        && local.red.bits == remote.red.bits && local.green.bits == remote.green.bits && local.blue.bits == remote.blue.bits
        && local.red.shift == remote.red.shift && local.green.shift == remote.green.shift && local.blue.shift == remote.blue.shift
        && local.bigEndian == hostBigEndian && remote.bigEndian == hostBigEndian;
      var rrs := AdjustShift(remote.red.shift, remote.red.bits, local.red.bits);
      var grs := AdjustShift(remote.green.shift, remote.green.bits, local.green.bits);
      var brs := AdjustShift(remote.blue.shift, remote.blue.bits, local.blue.bits);
      var rls := AdjustShift(local.red.shift, local.red.bits, remote.red.bits);
      var gls := AdjustShift(local.green.shift, local.green.bits, remote.green.bits);
      var bls := AdjustShift(local.blue.shift, local.blue.bits, remote.blue.bits);
      lanes := Lanes(CachedLane(remote.red, local.red, rrs, rls), CachedLane(remote.green, local.green, grs, gls),
                     CachedLane(remote.blue, local.blue, brs, bls), AlphaMask(local.bpp));
    }
  }

  function CachedLane(remote: Channel, local: Channel, right: nat, left: nat): (lane: Lane)
    ensures right == remote.shift + Excess(remote.bits, local.bits) && left == local.shift + Excess(local.bits, remote.bits)
            ==> lane == LaneFor(remote, local)
  {
    Lane(And(Low(local.bits), Low(remote.bits)), right, left)
  }

  predicate PerfectMatch(remote: Format, local: Format, hostBigEndian: bool)
  {
    && remote.trueColour && remote.bpp == local.bpp
    && remote.red == local.red && remote.green == local.green && remote.blue == local.blue
    && remote.bigEndian == local.bigEndian == hostBigEndian
  }

  /** A channel value brought from `from` to `to` bits: its top bits, or itself with zeros below. */
  function Rescale(c: Word, from: nat, to: nat): Word
  {
    if to < from then Shr(c, from - to) else Shl(c, to - from)
  }

  ghost predicate HasChannel(f: Format, c: Channel)
  {
    c == f.red || c == f.green || c == f.blue
  }

  /** A lane writes only the bits of its local channel, and there the rescaled remote channel. */
  lemma LaneLands(remote: Channel, local: Channel, v: Word, i: nat)
    requires remote.shift + remote.bits <= 32 && local.shift + local.bits <= 32 && i < 32
    ensures LaneFor(remote, local).Move(v)[i]
        <==> local.Covers(i) && Rescale(remote.Component(v), remote.bits, local.bits)[i - local.shift]
  {
  }

  /** What SET_PIXEL writes for one channel, at bit `i` of the result. */
  predicate Written(remote: Channel, local: Channel, v: Word, i: int)
  {
    local.Covers(i) && 0 <= i - local.shift < 32 && Rescale(remote.Component(v), remote.bits, local.bits)[i - local.shift]
  }

  lemma SetPixelBit(remote: Format, local: Format, v: Word, i: nat)
    requires remote.Valid() && local.Valid() && i < 32
    ensures LanesFor(remote, local).SetPixel(v)[i]
        <==> (local.bpp == 4 && 24 <= i) || Written(remote.red, local.red, v, i)
             || Written(remote.green, local.green, v, i) || Written(remote.blue, local.blue, v, i)
  {
    hide Rescale, LaneFor, Lane.Move, Channel.Component;
    LaneLands(remote.red, local.red, v, i);
    LaneLands(remote.green, local.green, v, i);
    LaneLands(remote.blue, local.blue, v, i);
  }

  /** The channel value of a converted pixel: the rescaled one, plus what the alpha mask covers. */
  ghost predicate Converted(remote: Channel, local: Channel, v: Word, out: Word, alpha: Word)
  {
    local.Component(out) == Or(Rescale(remote.Component(v), remote.bits, local.bits), local.Component(alpha))
  }

  /**
   * SET_PIXEL: each local channel holds the top bits of the remote one, or the
   * remote one with zeros below, and apart from that only the top byte of four
   * is set; no channel disturbs another.
   */
  lemma SetPixelConverts(remote: Format, local: Format, v: Word)
    requires remote.Valid() && local.Valid()
    ensures var out, a := LanesFor(remote, local).SetPixel(v), AlphaMask(local.bpp);
            && Converted(remote.red, local.red, v, out, a)
            && Converted(remote.green, local.green, v, out, a)
            && Converted(remote.blue, local.blue, v, out, a)
            && forall i :: 0 <= i < 32 && !local.Covers(i) ==> (out[i] <==> local.bpp == 4 && 24 <= i)
  {
    hide Converted, LanesFor, Lanes.SetPixel, Rescale, Channel.Component;
    var out, a := LanesFor(remote, local).SetPixel(v), AlphaMask(local.bpp);
    forall i | 0 <= i < 32
      ensures out[i] <==> a[i] || Written(remote.red, local.red, v, i)
                          || Written(remote.green, local.green, v, i) || Written(remote.blue, local.blue, v, i)
    {
      SetPixelBit(remote, local, v, i);
    }
    ComponentOf(remote.red, local.red, local.green, local.blue, v, out, a);
    ComponentOf(remote.green, local.green, local.red, local.blue, v, out, a);
    ComponentOf(remote.blue, local.blue, local.red, local.green, v, out, a);
  }

  lemma ComponentOf(remote: Channel, c: Channel, d: Channel, e: Channel, v: Word, out: Word, a: Word)
    requires c.shift + c.bits <= 32 && c.bits <= 16 && remote.bits <= 16 && remote.shift + remote.bits <= 32
    requires Apart(c, d) && Apart(c, e)
    requires forall i :: 0 <= i < 32 && !d.Covers(i) && !e.Covers(i) ==>
               (out[i] <==> a[i] || Written(remote, c, v, i))
    ensures Converted(remote, c, v, out, a)
  {
    var y := Rescale(remote.Component(v), remote.bits, c.bits);
    forall i | 0 <= i < 32
      ensures c.Component(out)[i] == Or(y, c.Component(a))[i]
    {
      if i < c.bits {
        assert c.Covers(c.shift + i) && !d.Covers(c.shift + i) && !e.Covers(c.shift + i);
        assert out[c.shift + i] <==> a[c.shift + i] || Written(remote, c, v, c.shift + i);
      } else {
        assert !y[i];
      }
    }
  }

  /** On a perfect match the general path changes nothing but the top byte of four and the unused bits. */
  lemma PerfectMatchKeepsColours(f: Format, g: Format, host: bool, v: Word, i: nat)
    requires f.Valid() && g.Valid() && PerfectMatch(f, g, host) && i < 32
    ensures LanesFor(f, g).SetPixel(v)[i] == ((g.bpp == 4 && 24 <= i) || (g.Covers(i) && v[i]))
  {
    hide LanesFor, AlphaMask, Lanes.SetPixel;
    SetPixelBit(f, g, v, i);
  }

  /* Colour-map mode: the pixel looks up three 16-bit entries, packed into 48 bits. */

  /** One channel's share of SET_PIXEL for a packed entry. */
  function MoveEntry(lane: Lane, sp: seq<bool>): Word
    requires |sp| == 48
  {
    Shl(And(Make(i => 0 <= i && i + lane.right < 48 && sp[i + lane.right]), lane.mask), lane.left)
  }

  function SetMapped(lanes: Lanes, red: seq<bool>, green: seq<bool>, blue: seq<bool>): Word
    requires |red| == |green| == |blue| == 16
  {
    var sp := blue + green + red;
    Or(Or(Or(lanes.alpha, MoveEntry(lanes.red, sp)), MoveEntry(lanes.green, sp)), MoveEntry(lanes.blue, sp))
  }

  lemma EntryLands(entry: Channel, local: Channel, sp: seq<bool>, i: nat)
    requires |sp| == 48 && entry.bits == 16 && entry.shift + 16 <= 48 && local.bits <= 16 && i < 32
    ensures MoveEntry(LaneFor(entry, local), sp)[i]
        <==> local.Covers(i) && sp[entry.shift + 16 - local.bits + (i - local.shift)]
  {
  }

  /** Each bit of a local channel is the bit as far from the top of the 16-bit entry. */
  lemma ColourMapConverts(remote: Format, local: Format, red: seq<bool>, green: seq<bool>, blue: seq<bool>, i: nat)
    requires local.Valid() && |red| == |green| == |blue| == 16 && i < 32
    ensures SetMapped(LanesFor(MapFormat(remote), local), red, green, blue)[i]
        <==> (local.bpp == 4 && 24 <= i)
             || (local.red.Covers(i) && red[16 - local.red.bits + (i - local.red.shift)])
             || (local.green.Covers(i) && green[16 - local.green.bits + (i - local.green.shift)])
             || (local.blue.Covers(i) && blue[16 - local.blue.bits + (i - local.blue.shift)])
  {
    hide LaneFor, MoveEntry;
    var sp := blue + green + red;
    EntryLands(Channel(16, 32), local.red, sp, i);
    EntryLands(Channel(16, 16), local.green, sp, i);
    EntryLands(Channel(16, 0), local.blue, sp, i);
  }
}
