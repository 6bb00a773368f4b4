/** `analyse`, which returns the minimum, maximum and mean of a vector of
    `double` as one tuple. Only the minimum and maximum are modelled: they
    are running values seeded with 999 and 0 and updated by exact
    comparisons, which `real` captures. */
module ReturnTuple {
  import opened CppInt
  import opened Folds

  const MIN_SEED: real := 999.0
  const MAX_SEED: real := 0.0

  /** The minimum and maximum parts of the tuple. The minimum is the least
      of 999 and the elements, the maximum the greatest of 0 and the
      elements; the `unsigned` counter bounds the size. */
  method Analyse(data: seq<real>) returns (min: real, max: real)
    requires |data| <= UINT_MAX
    ensures min == SeededMin(data, MIN_SEED) && max == SeededMax(data, MAX_SEED)
    ensures min <= MIN_SEED && forall i :: 0 <= i < |data| ==> min <= data[i]
    ensures min == MIN_SEED || min in data
    ensures max >= MAX_SEED && forall i :: 0 <= i < |data| ==> max >= data[i]
    ensures max == MAX_SEED || max in data
  {
    min, max := MIN_SEED, MAX_SEED;
    var i: UInt32 := 0;
    while (i as int) < |data|
      invariant i as int <= |data|
      invariant min == SeededMin(data[..i], MIN_SEED)
      invariant max == SeededMax(data[..i], MAX_SEED)
    {
      assert data[..i + 1][..i] == data[..i];
      if data[i] < min {
        min := data[i];
      }
      if data[i] > max {
        max := data[i];
      }
      i := i + 1;
    }
    assert data[..i] == data;
    SeededMinIsLeast(data, MIN_SEED);
    SeededMaxIsGreatest(data, MAX_SEED);
  }

  /** The printed minimum and maximum of {1, ..., 6}. */
  method Run() returns (min: real, max: real)
    ensures min == 1.0 && max == 6.0
  {
    var data := [1.0, 2.0, 3.0, 4.0, 5.0, 6.0];
    min, max := Analyse(data);
    assert min <= data[0] && max >= data[5];
  }
}
