/** The integer types and operators of the C++ platform the examples target:
    `int` and `unsigned` are 32 bits wide, `std::size_t` is 64 bits wide.
    Signed overflow is undefined behaviour in C++, so the model never wraps a
    signed value: every `Int32` operation carries Dafny's range check, and the
    callers' preconditions say why the result fits. */
module CppInt {

  const INT_MIN: int := -0x8000_0000
  const INT_MAX: int := 0x7FFF_FFFF
  const UINT_MAX: int := 0xFFFF_FFFF
  /** 2^64: `std::size_t` arithmetic is modulo this value. */
  const SIZE_MODULUS: int := 0x1_0000_0000_0000_0000

  /** C++ `int`. */
  newtype Int32 = x: int | -0x8000_0000 <= x < 0x8000_0000

  /** C++ `unsigned` (used for loop indices). */
  newtype UInt32 = x: int | 0 <= x < 0x1_0000_0000

  /** C++ `std::size_t`. */
  newtype Size = x: int | 0 <= x < 0x1_0000_0000_0000_0000

  predicate InInt(x: int) {
    INT_MIN <= x <= INT_MAX
  }

  function Abs(x: int): nat {
    if x < 0 then -x else x
  }

  /** Integer division as C++ defines it: the quotient truncated toward
      zero. Dafny's own `/` rounds toward negative infinity for a positive
      divisor. */
  function CppDiv(a: int, b: int): int
    requires b != 0
  {
    var m := Abs(a) / Abs(b);
    if (a < 0) == (b < 0) then m else -m
  }

  /** The truncated quotient's magnitude is the largest q with
      q * |b| <= |a|, and its sign is the product of the operands' signs. */
  lemma CppDivIsTruncated(a: int, b: int)
    requires b != 0
    ensures Abs(CppDiv(a, b)) * Abs(b) <= Abs(a) < (Abs(CppDiv(a, b)) + 1) * Abs(b)
    ensures CppDiv(a, b) == 0 || ((CppDiv(a, b) < 0) <==> ((a < 0) != (b < 0)))
    ensures Abs(CppDiv(a, b)) <= Abs(a)
  {
    TruncatedMagnitude(a, b, Abs(a) / Abs(b));
  }

  /** The magnitude of the truncated quotient is the Euclidean quotient of
      the magnitudes. */
  lemma TruncatedMagnitude(a: int, b: int, m: int)
    requires b != 0 && m == Abs(a) / Abs(b)
    ensures Abs(m) * Abs(b) <= Abs(a) < (Abs(m) + 1) * Abs(b)
    ensures Abs(-m) * Abs(b) <= Abs(a) < (Abs(-m) + 1) * Abs(b)
    ensures Abs(m) <= Abs(a) && Abs(-m) <= Abs(a)
  {
    NatDivBounds(Abs(a), Abs(b));
    assert Abs(m) == m && Abs(-m) == m;
  }

  /** Euclidean division of naturals brackets the dividend. */
  lemma NatDivBounds(x: nat, y: nat)
    requires y > 0
    ensures (x / y) * y <= x < (x / y + 1) * y
    ensures x / y <= x
  {
    var m := x / y;
    DivisionIdentity(x, y);
    MulSuccessor(m, y);
    MulAtLeast(m, y);
  }

  lemma DivisionIdentity(x: nat, y: nat)
    requires y > 0
    ensures x == (x / y) * y + x % y && 0 <= x % y < y
  {
  }

  lemma MulSuccessor(m: nat, y: nat)
    ensures (m + 1) * y == m * y + y
  {
  }

  lemma MulAtLeast(m: nat, y: nat)
    requires y > 0
    ensures m * y >= m
  {
    assert m * y == m * (y - 1) + m;
  }

  /** For a positive divisor the truncated quotient is the floor of the
      exact quotient when the dividend is non-negative and its ceiling when
      the dividend is negative. */
  lemma CppDivByPositive(a: int, n: int)
    requires n > 0
    ensures a >= 0 ==> CppDiv(a, n) * n <= a < (CppDiv(a, n) + 1) * n
    ensures a < 0 ==> (CppDiv(a, n) - 1) * n < a <= CppDiv(a, n) * n
  {
    var q := CppDiv(a, n);
    CppDivIsTruncated(a, n);
    if a >= 0 {
      assert q >= 0;
    } else {
      assert q <= 0;
      var m := -q;
      assert m * n <= -a < (m + 1) * n;
      assert q * n == -(m * n);
      assert (q - 1) * n == -((m + 1) * n);
    }
  }

  /** `a / b` on two `int` operands with a positive divisor; the quotient
      always fits, since it lies between 0 and `a`. */
  function DivInt32(a: Int32, b: Int32): (q: Int32)
    requires b > 0
    ensures q as int == CppDiv(a as int, b as int)
    ensures 0 <= q as int <= a as int || a as int <= q as int <= 0
  {
    CppDivIsTruncated(a as int, b as int);
    CppDiv(a as int, b as int) as Int32
  }

  /** The usual arithmetic conversion of a signed value to `std::size_t`:
      the value modulo 2^64. */
  function ToSize(x: int): (r: Size)
    ensures (r as int - x) % SIZE_MODULUS == 0
    ensures 0 <= x < SIZE_MODULUS ==> r as int == x
    ensures -SIZE_MODULUS <= x < 0 ==> r as int == x + SIZE_MODULUS
  {
    if x < 0 && -SIZE_MODULUS <= x then
      EuclideanUnique(x, SIZE_MODULUS, -1, x + SIZE_MODULUS);
      (x % SIZE_MODULUS) as Size
    else
      (x % SIZE_MODULUS) as Size
  }

  /** Truncating division agrees with Dafny's Euclidean `/` for a positive
      divisor exactly when the dividend is non-negative or a multiple of the
      divisor. */
  lemma CppDivMatchesEuclideanIff(a: int, b: int)
    requires b > 0
    ensures CppDiv(a, b) == a / b <==> (a >= 0 || a % b == 0)
  {
    if a < 0 {
      var m := (-a) / b;
      var r := (-a) % b;
      DivisionIdentity(-a, b);
      assert CppDiv(a, b) == -m;
      if r == 0 {
        EuclideanUnique(a, b, -m, 0);
      } else {
        MulSuccessor(m, b);
        assert a == (-m - 1) * b + (b - r) by {
          assert (-m - 1) * b == -((m + 1) * b);
        }
        EuclideanUnique(a, b, -m - 1, b - r);
      }
    }
  }

  /** Quotient and remainder of Euclidean division are unique. */
  lemma EuclideanUnique(a: int, b: int, q: int, r: int)
    requires b > 0 && 0 <= r < b && a == q * b + r
    ensures a / b == q && a % b == r
  {
    var q', r' := a / b, a % b;
    assert a == q' * b + r' && 0 <= r' < b;
    assert (q - q') * b == r' - r;
    if q - q' >= 1 {
      MulAtLeastFactor(q - q', b);
      assert false;
    } else if q' - q >= 1 {
      MulAtLeastFactor(q' - q, b);
      assert false;
    }
  }

  lemma MulAtLeastFactor(k: int, y: int)
    requires k >= 1 && y > 0
    ensures k * y >= y
  {
    assert k * y == (k - 1) * y + y;
    MulNonNegative(k - 1, y);
  }

  /** Multiplying by a positive number preserves and reflects order. */
  lemma MulCancel(x: int, y: int, n: int)
    requires n > 0
    ensures x * n <= y * n ==> x <= y
    ensures x * n < y * n ==> x < y
  {
    if x > y {
      MulAtLeastFactor(x - y, n);
      assert x * n - y * n == (x - y) * n;
    } else if x == y {
      assert x * n == y * n;
    }
  }

  lemma MulNonNegative(x: nat, y: nat)
    ensures x * y >= 0
  {
  }
}
