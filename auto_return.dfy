/** `accumulate` with a deduced (`auto`) return type, taking the vector by
    `const` reference and the initial value by value; the deduced type is
    that of `init`, an `int`. */
module AutoReturn {
  import opened CppInt
  import opened Folds
  import RemoveModifiers

  /** `init` plus the sum of the elements; every running total must fit. */
  method Accumulate(col: seq<Int32>, init: Int32) returns (res: Int32)
    requires PartialSumsFit(init as int, col)
    ensures res as int == init as int + Sum(col)
    ensures col == [] ==> res == init
  {
    var total := init;
    for k := 0 to |col|
      invariant total as int == init as int + Sum(col[..k])
    {
      SumPrefixStep(col, k);
      assert InInt(init as int + Sum(col[..k + 1]));
      total := total + col[k];
    }
    assert col[..|col|] == col;
    res := total;
  }

  /** Passing `init` by value instead of by `const` reference changes
      nothing: both versions return the same value for every input. */
  method AgreesWithConstReferenceVersion(col: seq<Int32>, init: Int32) returns (byValue: Int32, byReference: Int32)
    requires PartialSumsFit(init as int, col)
    ensures byValue == byReference
  {
    byValue := Accumulate(col, init);
    byReference := RemoveModifiers.Accumulate(col, init);
  }

  /** The printed value `accumulate(col, 0)`. */
  method Run() returns (total: Int32)
    ensures total == 15
  {
    var col: seq<Int32> := [1, 2, 3, 4, 5];
    SumsOfOneToFive(col);
    total := Accumulate(col, 0);
  }
}
