/** A `std::vector<double>` of five values emptied by `clear()`. */
module VectorClear {
  import opened StdVector

  /** The printed sizes before and after `clear()`. */
  method Run() returns (initialSize: nat, finalSize: nat)
    ensures initialSize == 5 && finalSize == 0
  {
    var nVector := new Vector<real>.FromList([-1.0, -2.0, -3.0, -4.0, -5.0]);
    initialSize := nVector.Size();
    assert nVector.Elements() == [-1.0, -2.0, -3.0, -4.0, -5.0];
    nVector.Clear();
    finalSize := nVector.Size();
  }
}
