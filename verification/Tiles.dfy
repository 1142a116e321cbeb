/** The walks over the tiles of a rectangle (src/vncconnection.c). */
module Tiles {
  import opened Arith
  import opened Image

  /** A tile, relative to the rectangle being decoded. */
  datatype Tile = Tile(x: nat, y: nat, w: nat, h: nat)

  /** The tiles that a walk standing at (i, j) has still to visit, `s` the tile size. */
  function Walk(w: nat, h: nat, s: nat, i: nat, j: nat): (tiles: seq<Tile>)
    requires 0 < s
    decreases h - j, w - i
  {
    if h <= j then []
    else if w <= i then Walk(w, h, s, 0, j + s)
    else [Tile(i, j, Min(s, w - i), Min(s, h - j))] + Walk(w, h, s, i + s, j)
  }

  /** How many of the tiles contain the pixel. */
  function Hits(tiles: seq<Tile>, p: Pt): nat
  {
    if tiles == [] then 0
    else (if InRect(p, tiles[0].x, tiles[0].y, tiles[0].w, tiles[0].h) then 1 else 0) + Hits(tiles[1..], p)
  }

  lemma HitsOne(t: Tile, q: Pt)
    ensures Hits([t], q) == if InRect(q, t.x, t.y, t.w, t.h) then 1 else 0
  {
    assert [t][1..] == [];
    assert Hits([t][1..], q) == 0;
  }

  /** The pixels a walk standing at (i, j) has still to paint: each once, and no others. */
  lemma {:induction false} WalkPaintsOnce(w: nat, h: nat, s: nat, i: nat, j: nat, p: Pt)
    requires 0 < s
    ensures Hits(Walk(w, h, s, i, j), p)
         == if 0 <= p.x < w && j <= p.y < h && (j + s <= p.y || i <= p.x) then 1 else 0
    decreases h - j, w - i
  {
    if j < h {
      if w <= i {
        WalkPaintsOnce(w, h, s, 0, j + s, p);
      } else {
        WalkPaintsOnce(w, h, s, i + s, j, p);
        var all := Walk(w, h, s, i, j);
        assert all[1..] == Walk(w, h, s, i + s, j);
      }
    }
  }

  /** The tiles partition the rectangle: every pixel of it lies in exactly one. */
  lemma WalkPartitions(w: nat, h: nat, s: nat, p: Pt)
    requires 0 < s
    ensures Hits(Walk(w, h, s, 0, 0), p) == if InRect(p, 0, 0, w, h) then 1 else 0
  {
    WalkPaintsOnce(w, h, s, 0, 0, p);
  }

  /** ... and each is nonempty, no larger than `s`, and inside the rectangle. */
  lemma {:induction false} WalkInside(w: nat, h: nat, s: nat, i: nat, j: nat, k: nat)
    requires 0 < s && k < |Walk(w, h, s, i, j)|
    ensures var t := Walk(w, h, s, i, j)[k];
            1 <= t.w <= s && 1 <= t.h <= s && t.x + t.w <= w && j <= t.y && t.y + t.h <= h
    decreases h - j, w - i
  {
    if w <= i {
      WalkInside(w, h, s, 0, j + s, k);
    } else if 0 < k {
      WalkInside(w, h, s, i + s, j, k - 1);
    }
  }

  /** The counter of the ZRLE walk, a guint16 stepped by 64. */
  function Counter(n: nat): nat
  {
    if n == 0 then 0 else (Counter(n - 1) + 64) % 0x1_0000
  }

  lemma {:induction false} CounterValue(n: nat)
    ensures Counter(n) == (64 * n) % 0x1_0000 <= 65472
  {
    if n != 0 {
      CounterValue(n - 1);
    }
  }

  /**
   * A ZRLE loop over an extent leaves its range exactly when the extent is at
   * most 65472; beyond that the counter wraps and the loop never ends.
   */
  lemma CounterLeavesRange(extent: nat)
    ensures (exists n :: extent <= Counter(n)) <==> extent <= 65472
  {
    hide Counter;
    CounterValue(1023);
    if extent <= 65472 {
      var n: nat := 1023;
      assert extent <= Counter(n);
    } else {
      forall n: nat
        ensures Counter(n) < extent
      {
        CounterValue(n);
      }
    }
  }
}
