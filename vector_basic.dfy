/** A `std::vector<double>` initialised from four values: index read and
    write, `++` on the first element, then `front()`, `back()` and
    `size()`. */
module VectorBasic {
  import opened StdVector

  /** The printed values. `n_vector[0]++` turns 2 into 3, exactly. */
  method Run() returns (timeBefore: real, timeAfter: real, first: real, last: real, size: nat)
    ensures timeBefore == -10.0 && timeAfter == 7.5
    ensures first == 3.0 && last == 7.5 && size == 4
  {
    var nVector := new Vector<real>.FromList([2.0, 3.0, 4.0, -10.0]);
    assert nVector.Size() == 4;
    timeBefore := nVector.At(3);

    nVector.Set(3, 7.5);
    timeAfter := nVector.At(3);
    assert nVector.Elements() == [2.0, 3.0, 4.0, 7.5];

    var e := nVector.At(0);
    nVector.Set(0, e + 1.0);
    first := nVector.Front();
    last := nVector.Back();
    size := nVector.Size();
  }
}
