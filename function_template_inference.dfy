/** The function template `mean<Num>`, as `main` instantiates it with
    `Num = int`: the size is stored in an `int`, the elements are summed into
    a `Num` starting from 0, and the sum is divided by the size with C++
    integer division. */
module FunctionTemplateInference {
  import opened CppInt
  import opened Folds

  /** The truncated mean of a non-empty vector. `col.size()` is narrowed to
      `int`, so the size must fit in `int`; dividing by a size of 0 is
      undefined, so the vector must not be empty; every running total must
      fit in `int`. */
  method Mean(col: seq<Int32>) returns (r: Int32)
    requires 0 < |col| <= INT_MAX
    requires PartialSumsFit(0, col)
    ensures r as int == CppDiv(Sum(col), |col|)
  {
    var sz: Int32 := |col| as Int32;
    var res: Int32 := 0;
    for k := 0 to |col|
      invariant res as int == Sum(col[..k])
    {
      SumPrefixStep(col, k);
      assert InInt(0 + Sum(col[..k + 1]));
      res := res + col[k];
    }
    assert col[..|col|] == col;
    r := DivInt32(res, sz);
  }

  /** The truncated mean lies between any lower and any upper bound of the
      elements, whatever the sign of the sum. */
  lemma MeanBetweenExtremes(col: seq<Int32>, lo: int, hi: int)
    requires |col| > 0
    requires forall i :: 0 <= i < |col| ==> lo <= col[i] as int <= hi
    ensures lo <= CppDiv(Sum(col), |col|) <= hi
  {
    var n, s := |col|, Sum(col);
    var q := CppDiv(s, n);
    SumBetween(col, lo, hi);
    assert lo * n <= s <= hi * n;
    CppDivByPositive(s, n);
    if s >= 0 {
      MulCancel(lo, q + 1, n);
      MulCancel(q, hi, n);
    } else {
      MulCancel(lo, q, n);
      MulCancel(q - 1, hi, n);
    }
  }

  /** `mean(col)` printed for {1, 2, 3, 4, 5}. */
  method Run() returns (m: Int32)
    ensures m == 3
  {
    var col: seq<Int32> := [1, 2, 3, 4, 5];
    SumsOfOneToFive(col);
    m := Mean(col);
  }
}
