/** C++ fixed-width integer semantics: the 32-bit `int` range, the 64-bit
    intermediate used by the portable overflow check, division that truncates
    toward zero, and the wrap-around of a narrowing cast. Dafny's own `/` on
    `int` is Euclidean, so it is not used directly where the source divides
    a value that may be negative. */
module CInt {

  const MinInt32: int := -0x8000_0000
  const MaxInt32: int := 0x7fff_ffff
  const MinInt64: int := -0x8000_0000_0000_0000
  const MaxInt64: int := 0x7fff_ffff_ffff_ffff

  /** The number of distinct 32-bit values. */
  const Modulus32: int := 0x1_0000_0000

  predicate InInt32(x: int) {
    MinInt32 <= x <= MaxInt32
  }

  predicate InInt64(x: int) {
    MinInt64 <= x <= MaxInt64
  }

  /** A C++ `int` (32-bit two's complement on every platform the source targets). */
  type Int32 = x: int | InInt32(x)

  function Abs(x: int): (r: nat)
    ensures r == x || r == -x
  {
    if x < 0 then -x else x
  }

  /** C++ integer division `a / b` for a positive divisor: the quotient is
      truncated toward zero (C++11, [expr.mul]), so `-49 / 2 == -24`, where
      Euclidean division gives -25. The remainder `a - q * b` takes the sign
      of `a` and is smaller than `b` in magnitude. */
  function DivTrunc(a: int, b: int): (q: int)
    requires b > 0
    ensures a >= 0 ==> 0 <= a - q * b < b
    ensures a < 0 ==> -b < a - q * b <= 0
  {
    if a >= 0 then a / b else -((-a) / b)
  }

  /** Halving by truncation leaves a remainder of at most one, on the side of
      the sign of the dividend, and never moves the result past zero. */
  lemma DivTruncByTwo(d: int)
    ensures d >= 0 ==> 0 <= d - 2 * DivTrunc(d, 2) <= 1
    ensures d < 0 ==> -1 <= d - 2 * DivTrunc(d, 2) <= 0
    ensures d >= 0 ==> 0 <= DivTrunc(d, 2) <= d
    ensures d < 0 ==> d <= DivTrunc(d, 2) <= 0
  {
  }

  /** On a negative odd dividend truncation and Euclidean division differ by one. */
  lemma DivTruncNotEuclidean(d: int)
    requires d < 0 && d % 2 == 1
    ensures DivTrunc(d, 2) == d / 2 + 1
  {
  }

  /** The value a C++ narrowing cast `static_cast<int>(x)` yields for a 64-bit
      `x`: the unique 32-bit value congruent to `x` modulo 2^32 (defined as
      such since C++20, and what every two's complement compiler did before). */
  function Wrap32(x: int): (r: Int32)
    ensures (x - r) % Modulus32 == 0
    ensures InInt32(x) ==> r == x
  {
    var m := x % Modulus32;
    if m > MaxInt32 then m - Modulus32 else m
  }

  /** The product of two 32-bit values always fits the 64-bit intermediate of
      the portable overflow check, so that intermediate is the exact product. */
  lemma ProductFitsInt64(a: Int32, b: Int32)
    ensures InInt64(a * b)
    ensures Abs(a * b) <= 0x4000_0000_0000_0000
  {
    assert InInt32(a) && InInt32(b);
    assert Abs(a) <= 0x8000_0000 && Abs(b) <= 0x8000_0000;
    assert Abs(a * b) == Abs(a) * Abs(b);
    MulMonotone(Abs(a), Abs(b), 0x8000_0000);
  }

  lemma MulMonotone(x: nat, y: nat, bound: nat)
    requires x <= bound && y <= bound
    ensures x * y <= bound * bound
  {
  }
}
