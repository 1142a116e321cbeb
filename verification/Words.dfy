/** 32-bit words bit by bit, lowest first, and the C operators on them. */
module Words {
  import opened Arith

  type Word = w: seq<bool> | |w| == 32 witness seq(32, _ => false)

  function Make(f: int -> bool): (r: Word)
    ensures forall i :: 0 <= i < 32 ==> r[i] == f(i)
  {
    seq(32, i => f(i))
  }

  /** 2^k - 1 */
  function Low(k: nat): (r: Word)
    ensures forall i :: 0 <= i < 32 ==> r[i] == (i < k)
  {
    Make(i => i < k)
  }

  function Shr(v: Word, n: nat): (r: Word)
    ensures forall i :: 0 <= i < 32 ==> r[i] == (i + n < 32 && v[i + n])
  {
    Make(i => 0 <= i && i + n < 32 && v[i + n])
  }

  function Shl(v: Word, n: nat): (r: Word)
    ensures forall i :: 0 <= i < 32 ==> r[i] == (n <= i && v[i - n])
  {
    Make(i => n <= i < 32 && v[i - n])
  }

  function And(v: Word, w: Word): (r: Word)
    ensures forall i :: 0 <= i < 32 ==> r[i] == (v[i] && w[i])
  {
    Make(i => 0 <= i < 32 && v[i] && w[i])
  }

  function Or(v: Word, w: Word): (r: Word)
    ensures forall i :: 0 <= i < 32 ==> r[i] == (v[i] || w[i])
  {
    Make(i => 0 <= i < 32 && (v[i] || w[i]))
  }

  function Pow2(k: nat): (r: nat)
    ensures 1 <= r
  {
    if k == 0 then 1 else 2 * Pow2(k - 1)
  }

  /** The number that some bits write, and the bits that write a number. */
  function Number(bits: seq<bool>): (r: nat)
    ensures r < Pow2(|bits|)
  {
    if bits == [] then 0 else (if bits[0] then 1 else 0) + 2 * Number(bits[1..])
  }

  function Bits(n: nat, k: nat): (r: seq<bool>)
    ensures |r| == k
  {
    if k == 0 then [] else [n % 2 == 1] + Bits(n / 2, k - 1)
  }

  lemma {:induction false} NumberOfBits(n: nat, k: nat)
    ensures Number(Bits(n, k)) == n % Pow2(k)
  {
    if k != 0 {
      NumberOfBits(n / 2, k - 1);
      assert Bits(n, k)[1..] == Bits(n / 2, k - 1);
      HalfMod(n, Pow2(k - 1));
    }
  }

  lemma HalfMod(n: nat, m: nat)
    requires 1 <= m
    ensures n % (2 * m) == n % 2 + 2 * (n / 2 % m)
  {
    var q, r := n / 2 / m, n / 2 % m;
    assert n / 2 == q * m + r;
    assert n == q * (2 * m) + (n % 2 + 2 * r);
    assert n == (n / (2 * m)) * (2 * m) + n % (2 * m);
    DigitsUnique(n / (2 * m), n % (2 * m), q, n % 2 + 2 * r, 2 * m);
  }

  lemma {:induction false} BitsOfNumber(bits: seq<bool>)
    ensures Bits(Number(bits), |bits|) == bits
  {
    if bits != [] {
      BitsOfNumber(bits[1..]);
      assert bits == [bits[0]] + bits[1..];
    }
  }

  lemma {:induction false} NumberZero(bits: seq<bool>)
    ensures Number(bits) == 0 <==> forall i :: 0 <= i < |bits| ==> !bits[i]
  {
    if bits != [] {
      NumberZero(bits[1..]);
      assert forall i :: 0 < i < |bits| ==> bits[i] == bits[1..][i - 1];
      assert forall i :: 0 <= i < |bits[1..]| ==> bits[1..][i] == bits[i + 1];
    }
  }

  lemma {:induction false} Pow2Monotone(a: nat, b: nat)
    requires a <= b
    ensures Pow2(a) <= Pow2(b)
    decreases b
  {
    if a < b {
      Pow2Monotone(a, b - 1);
    }
  }
}
