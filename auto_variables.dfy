/** The `main` that shows `auto` deducing the types of local variables from
    a `std::array` of five `int`: `first` is an `int` copy of the first
    element, `sz` a `std::size_t`, and the printed mean `sum/sz` mixes the
    signed `int` sum with the unsigned size. */
module AutoVariables {
  import opened CppInt
  import opened Folds

  /** `sum / sz` for an `int` sum and a `std::size_t` size: the usual
      arithmetic conversions first turn `sum` into a `std::size_t` (its value
      modulo 2^64) and then divide as unsigned numbers. */
  function MixedQuotient(sum: Int32, sz: Size): (q: Size)
    requires sz > 0
    ensures sum >= 0 ==> q as int == sum as int / sz as int
    ensures sum < 0 ==> q as int == (sum as int + SIZE_MODULUS) / sz as int
  {
    NatDivBounds(ToSize(sum as int) as int, sz as int);
    (ToSize(sum as int) as int / sz as int) as Size
  }

  /** An array of 4-byte `int` cannot have 2^62 elements or more in a 64-bit
      address space. For every size below that, the mixed quotient is the
      truncated signed mean exactly when the sum is non-negative; a negative
      sum turns into a huge positive quotient. */
  lemma MixedQuotientIsMeanIff(sum: Int32, sz: Size)
    requires 0 < sz < 0x4000_0000_0000_0000
    ensures MixedQuotient(sum, sz) as int == CppDiv(sum as int, sz as int) <==> sum >= 0
  {
    var n := sz as int;
    if sum >= 0 {
      assert ToSize(sum as int) as int == sum as int;
      CppDivByPositive(sum as int, n);
      EuclideanUnique(sum as int, n, CppDiv(sum as int, n), sum as int - CppDiv(sum as int, n) * n);
    } else {
      var wrapped := sum as int + SIZE_MODULUS;
      EuclideanUnique(sum as int, SIZE_MODULUS, -1, wrapped);
      assert ToSize(sum as int) as int == wrapped;
      assert wrapped >= n;
      NatDivBounds(wrapped, n);
      MulCancel(1, wrapped / n + 1, n);
      assert MixedQuotient(sum, sz) as int >= 1;
      CppDivIsTruncated(sum as int, n);
      assert CppDiv(sum as int, n) <= 0;
    }
  }

  /** The sum of {-1, -2, -3, -4, -5} over a size of 5 shows the difference:
      the signed mean is -3, the mixed quotient is (2^64 - 15) / 5. */
  lemma NegativeSumExample()
    ensures MixedQuotient(-15, 5) == 3689348814741910320
    ensures CppDiv(-15, 5) == -3
  {
    EuclideanUnique(-15, SIZE_MODULUS, -1, SIZE_MODULUS - 15);
    EuclideanUnique(SIZE_MODULUS - 15, 5, 3689348814741910320, 1);
  }

  /** The printed `first` and `sum/sz`, with the values of `sz` and `sum`. */
  method Run() returns (first: Int32, sz: Size, sum: Int32, mean: Size)
    ensures first == 1 && sz == 5 && sum == 15 && mean == 3
  {
    var col := new Int32[] [1, 2, 3, 4, 5];
    first := col[0];
    sz := col.Length as Size;
    SumsOfOneToFive(col[..]);
    sum := 0;
    for k := 0 to col.Length
      invariant col[..] == [1, 2, 3, 4, 5]
      invariant sum as int == Sum(col[..k])
    {
      SumPrefixStep(col[..], k);
      assert col[..][..k] == col[..k] && col[..][..k + 1] == col[..k + 1];
      assert InInt(0 + Sum(col[..][..k + 1]));
      sum := sum + col[k];
    }
    assert col[..col.Length] == col[..];
    MixedQuotientIsMeanIff(sum, sz);
    CppDivByPositive(15, 5);
    mean := MixedQuotient(sum, sz);
  }
}
