/** Big numbers as byte arrays of a fixed size (src/dh.c). */
module Mpi {
  import opened Bytes

  /** The number that big-endian bytes denote: what `vnc_bytes_to_mpi` returns. */
  function Value(b: seq<byte>): nat
  {
    if b == [] then 0 else Value(b[..|b| - 1]) * 256 + b[|b| - 1]
  }

  /** The shortest bytes that denote a number: what gcry_mpi_print writes. */
  function Digits(v: nat): seq<byte>
  {
    if v == 0 then [] else Digits(v / 256) + [v % 256]
  }

  /** 256 to the power of `size`. */
  function Limit(size: nat): (r: nat)
    ensures 1 <= r
  {
    if size == 0 then 1 else Limit(size - 1) * 256
  }

  lemma {:induction false} DigitsDenote(v: nat)
    ensures Value(Digits(v)) == v && (v != 0 ==> Digits(v) != [] && Digits(v)[0] != 0)
  {
    if v != 0 {
      DigitsDenote(v / 256);
      assert Digits(v)[..|Digits(v)| - 1] == Digits(v / 256);
    }
  }

  /** A number has at most `size` digits exactly if it is below 256 to the power of `size`. */
  lemma {:induction false} DigitsFit(v: nat, size: nat)
    ensures |Digits(v)| <= size <==> v < Limit(size)
    decreases size
  {
    if size != 0 && v != 0 {
      DigitsFit(v / 256, size - 1);
    }
  }

  lemma {:induction false} LeadingZeros(n: nat, b: seq<byte>)
    ensures Value(Zeros(n) + b) == Value(b)
    decreases |b|, n
  {
    if b != [] {
      assert (Zeros(n) + b)[..n + |b| - 1] == Zeros(n) + b[..|b| - 1];
      LeadingZeros(n, b[..|b| - 1]);
    } else if n != 0 {
      LeadingZeros(n - 1, b);
      assert (Zeros(n) + b)[..n - 1] == Zeros(n - 1) + b;
    }
  }

  /** Right-aligned digits of a size denote the number, and are the only bytes of that size that do. */
  lemma RightAligned(v: nat, size: nat, b: seq<byte>)
    requires v < Limit(size) && |b| == size
    ensures |Digits(v)| <= size
    ensures Value(b) == v <==> b == Zeros(size - |Digits(v)|) + Digits(v)
  {
    DigitsFit(v, size);
    LeadingZeros(size - |Digits(v)|, Digits(v));
    DigitsDenote(v);
    if Value(b) == v {
      ValueUnique(b, Zeros(size - |Digits(v)|) + Digits(v));
    }
  }

  lemma {:induction false} ValueUnique(a: seq<byte>, b: seq<byte>)
    requires |a| == |b| && Value(a) == Value(b)
    ensures a == b
    decreases |a|
  {
    if a != [] {
      var n := |a| - 1;
      ValueUnique(a[..n], b[..n]);
      assert a == a[..n] + [a[n]] && b == b[..n] + [b[n]];
    }
  }

  /** `gcry_mpi_print`: the digits, at the start of the array. */
  method Print(value: nat, result: array<byte>) returns (len: nat)
    requires |Digits(value)| <= result.Length
    modifies result
    ensures len == |Digits(value)| && result[..len] == Digits(value)
  {
    var digits := Digits(value);
    len := |digits|;
    forall k | 0 <= k < len { result[k] := digits[k]; }
  }

  /** `vnc_mpi_to_bytes`: the digits are moved to the right end in place, and what is left is zeroed. */
  method ToBytes(value: nat, result: array<byte>)
    requires value < Limit(result.Length)         // else it aborts
    modifies result
    ensures |Digits(value)| <= result.Length
    ensures result[..] == Zeros(result.Length - |Digits(value)|) + Digits(value)
    ensures Value(result[..]) == value
  {
    hide Digits, Value, Limit;
    DigitsFit(value, result.Length);
    var len := Print(value, result);
    AlignRight(result, len, Digits(value));
    RightAligned(value, result.Length, result[..]);
  }

  /** Its two descending loops: the digits are moved up ... */
  method AlignRight(result: array<byte>, len: nat, ghost digits: seq<byte>)
    requires len <= result.Length && result[..len] == digits
    modifies result
    ensures result[..] == Zeros(result.Length - len) + digits
  {
    var i := MoveUp(result, len, digits);
    ClearFront(result, i + 1);
    assert result[..] == result[..i + 1] + result[i + 1..];
  }

  method MoveUp(result: array<byte>, len: nat, ghost digits: seq<byte>) returns (i: int)
    requires len <= result.Length && result[..len] == digits
    modifies result
    ensures i == result.Length - 1 - len && result[i + 1..] == digits
  {
    var size := result.Length;
    ghost var gap := size - len;
    i := size - 1;
    while i > size - 1 - len
      invariant gap - 1 <= i < size
      invariant forall k :: 0 <= k <= i - gap ==> result[k] == digits[k]
      invariant forall k :: i < k < size ==> result[k] == digits[k - gap]
    {
      result[i] := result[i - size + len];
      i := i - 1;
    }
  }

  /** ... and the bytes below them cleared. */
  method ClearFront(result: array<byte>, gap: nat)
    requires gap <= result.Length
    modifies result
    ensures result[..gap] == Zeros(gap) && result[gap..] == old(result[gap..])
  {
    var i := gap - 1;
    while i >= 0
      invariant -1 <= i <= gap - 1
      invariant forall k :: i < k < gap ==> result[k] == 0
      invariant result[gap..] == old(result[gap..])
    {
      result[i] := 0;
      i := i - 1;
    }
  }
}
