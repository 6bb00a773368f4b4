/** `accumulate` over a vector taken by `const` reference, with its initial
    value also taken by `const` reference; `main` sums {1, 2, 3, 4, 5}. */
module RemoveModifiers {
  import opened CppInt
  import opened Folds

  /** `init` plus the sum of the elements, added in order to an `int`
      accumulator; every running total must fit in `int`. */
  method Accumulate(col: seq<Int32>, init: Int32) returns (res: Int32)
    requires PartialSumsFit(init as int, col)
    ensures res as int == init as int + Sum(col)
    ensures col == [] ==> res == init
  {
    res := init;
    for k := 0 to |col|
      invariant res as int == init as int + Sum(col[..k])
    {
      SumPrefixStep(col, k);
      assert InInt(init as int + Sum(col[..k + 1]));
      res := res + col[k];
    }
    assert col[..|col|] == col;
  }

  /** The printed value `accumulate(col, 0)`. */
  method Run() returns (total: Int32)
    ensures total == 15
  {
    var col: seq<Int32> := [1, 2, 3, 4, 5];
    SumsOfOneToFive(col);
    total := Accumulate(col, 0);
  }

}
