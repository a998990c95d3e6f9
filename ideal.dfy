// The allocation-size policy of the library: `le_get_ideal` rounds a size up
// to the power of two just above it (one more bit than the size needs) and
// never returns less than a clamp.

module Ideal {
  import opened Common

  /** The number of bits of a positive value; zero for a value <= 0. */
  function BitLength(s: int): (n: nat)
    decreases if s > 0 then s else 0
  {
    if s <= 0 then 0 else 1 + BitLength(s / 2)
  }

  /** The specification of `le_get_ideal(size, clamp)`. */
  function IdealSize(size: int, clamp: int): int
  {
    var p := Pow2(BitLength(size));
    if p < clamp then clamp else p
  }

  /** `le_get_ideal`: halve the size until it is zero, doubling the result. */
  method GetIdeal(size: int, clamp: int) returns (r: int)
    ensures r == IdealSize(size, clamp)
  {
    var s := size;
    r := 1;
    while s > 0
      invariant BitLength(s) <= BitLength(size)
      invariant r == Pow2(BitLength(size) - BitLength(s))
      decreases if s > 0 then s else 0
    {
      s := s / 2;
      r := 2 * r;
    }
    r := if r < clamp then clamp else r;
  }

  /** The power of two exceeds the size... */
  lemma {:induction false} Pow2BitLengthAbove(s: int)
    ensures s < Pow2(BitLength(s))
    decreases if s > 0 then s else 0
  {
    if s > 0 {
      Pow2BitLengthAbove(s / 2);
      assert s <= 2 * (s / 2) + 1;
    }
  }

  /** ...and is the least power of two that does. */
  lemma {:induction false} Pow2BitLengthLeast(s: int)
    requires s > 0
    ensures Pow2(BitLength(s)) <= 2 * s
    decreases s
  {
    if s > 1 {
      Pow2BitLengthLeast(s / 2);
    }
  }

  /** The ideal size is a power of two above the size, or the clamp; it is
      never below the clamp, and for a positive size it is at most twice the
      size unless the clamp is larger. */
  lemma IdealSizeBounds(size: int, clamp: int)
    ensures IdealSize(size, clamp) > size
    ensures IdealSize(size, clamp) >= clamp
    ensures IdealSize(size, clamp) == clamp || exists n: nat :: IdealSize(size, clamp) == Pow2(n)
    ensures size > 0 && clamp <= 2 * size ==> IdealSize(size, clamp) <= 2 * size
  {
    Pow2BitLengthAbove(size);
    if size > 0 {
      Pow2BitLengthLeast(size);
    }
  }

  /** A larger size never gets a smaller ideal size. */
  lemma {:induction false} BitLengthMonotone(a: int, b: int)
    requires a <= b
    ensures BitLength(a) <= BitLength(b)
    decreases if b > 0 then b else 0
  {
    if a > 0 {
      BitLengthMonotone(a / 2, b / 2);
    }
  }

  lemma {:induction false} Pow2Monotone(m: nat, n: nat)
    requires m <= n
    ensures Pow2(m) <= Pow2(n)
    decreases n
  {
    if m < n {
      Pow2Monotone(m, n - 1);
    }
  }

  lemma IdealSizeMonotone(a: int, b: int, clamp: int)
    requires a <= b
    ensures IdealSize(a, clamp) <= IdealSize(b, clamp)
  {
    BitLengthMonotone(a, b);
    Pow2Monotone(BitLength(a), BitLength(b));
  }

  /** A size of zero or less gets one, or the clamp if that is larger. */
  lemma IdealSizeEmpty(size: int, clamp: int)
    requires size <= 0
    ensures IdealSize(size, clamp) == if clamp > 1 then clamp else 1
  {
  }
}
