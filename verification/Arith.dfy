/** The few facts about products that the layout proofs rest on. */
module Arith {

  function Min(a: int, b: int): int
  {
    if a < b then a else b
  }

  lemma MulNonNegative(a: int, b: int)
    requires 0 <= a && 0 <= b
    ensures 0 <= a * b
  {
  }

  /** A whole multiple further on is at least one stride further on. */
  lemma StrideApart(a: int, b: int, s: int)
    requires a < b && 0 <= s
    ensures a * s + s <= b * s
  {
    MulNonNegative(b - a - 1, s);
    assert (b - a - 1) * s == b * s - a * s - s;
  }

  lemma StrideMonotone(a: int, b: int, s: int)
    requires a <= b && 0 <= s
    ensures a * s <= b * s
  {
    if a < b {
      StrideApart(a, b, s);
    }
  }

  lemma ProductsAssociate(a: int, b: int, c: int)
    ensures a * (b * c) == (a * b) * c
  {
  }

  function Area(w: nat, h: nat): nat
  {
    MulNonNegative(w, h);
    w * h
  }

  lemma Distribute(a: int, b: int, s: int)
    ensures (a + b) * s == a * s + b * s
  {
  }

  lemma Division(b: int, m: int)
    requires 0 < m
    ensures b == b / m * m + b % m
  {
  }

  /** A quotient and remainder name one number only. */
  lemma DigitsUnique(q1: int, r1: int, q2: int, r2: int, s: int)
    requires 0 <= r1 < s && 0 <= r2 < s
    requires q1 * s + r1 == q2 * s + r2
    ensures q1 == q2 && r1 == r2
  {
    if q1 < q2 {
      StrideApart(q1, q2, s);
    } else if q2 < q1 {
      StrideApart(q2, q1, s);
    }
  }

  /** The middle digit of a number written with digits of size `base` over units of size `unit`. */
  lemma MiddleDigit(b: int, q: int, i: int, v: int, unit: int, base: int)
    requires 0 <= v < unit && 0 <= i < base
    requires b == (q * base + i) * unit + v
    ensures b / unit % base == i && b % unit == v
  {
    DigitsUnique(b / unit, b % unit, q * base + i, v, unit);
    var t := b / unit;
    DigitsUnique(t / base, t % base, q, i, base);
  }

  /** The position of column `i` of row `j` in a row-major walk of rows of `w`. */
  function Cell(i: int, j: int, w: int): int
  {
    j * w + i
  }

  lemma CellWalk(i: int, j: int, w: int, h: int)
    requires 0 <= i <= w && 0 <= j <= h
    ensures Cell(0, 0, w) == 0 && Cell(0, h, w) == w * h
    ensures Cell(i + 1, j, w) == Cell(i, j, w) + 1
    ensures i < w && j < h ==> 0 <= Cell(i, j, w) < w * h
    ensures Cell(w, j, w) == Cell(0, j + 1, w)
  {
    if i < w && j < h {
      MulNonNegative(j, w);
      StrideApart(j, h, w);
    }
    Distribute(j, 1, w);
  }

  lemma CellDigits(i: int, j: int, w: int)
    requires 0 <= i < w
    ensures Cell(i, j, w) % w == i && Cell(i, j, w) / w == j
  {
    var k := Cell(i, j, w);
    Division(k, w);
    DigitsUnique(k / w, k % w, j, i, w);
  }

  lemma CellAdds(j: int, w: int)
    ensures Cell(0, j + 1, w) == Cell(0, j, w) + w
  {
    Distribute(j, 1, w);
  }
}
