/** The fully generic `accumulate(const auto & col, auto init)`, here as it is
    instantiated in `main`: a `std::array` of five `int` and an `int` init. */
module AutoArguments {
  import opened CppInt
  import opened Folds

  /** `res` starts at `init` and each element is added in iteration order;
      the container is only read. */
  method Accumulate(col: array<Int32>, init: Int32) returns (res: Int32)
    requires PartialSumsFit(init as int, col[..])
    ensures res as int == init as int + Sum(col[..])
    ensures col.Length == 0 ==> res == init
  {
    res := init;
    for k := 0 to col.Length
      invariant res as int == init as int + Sum(col[..k])
    {
      SumPrefixStep(col[..], k);
      assert col[..][..k] == col[..k] && col[..][..k + 1] == col[..k + 1];
      assert InInt(init as int + Sum(col[..][..k + 1]));
      res := res + col[k];
    }
    assert col[..col.Length] == col[..];
  }

  /** The printed value: the sum of `std::array{1, 2, 3, 4, 5}` from 0, with
      the array unchanged by the call. */
  method Run() returns (total: Int32, after: seq<Int32>)
    ensures total == 15
    ensures after == [1, 2, 3, 4, 5]
  {
    var col := new Int32[] [1, 2, 3, 4, 5];
    SumsOfOneToFive(col[..]);
    total := Accumulate(col, 0);
    after := col[..];
  }
}
