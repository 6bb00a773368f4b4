/** A `std::vector<double>` of three values with one element inserted at the
    front and one at position 1. */
module VectorInsert {
  import opened StdVector

  /** The printed elements and sizes, and the final contents. */
  method Run() returns (first: real, size1: nat, second: real, size2: nat, final: seq<real>)
    ensures first == 100.0 && size1 == 4
    ensures second == 200.0 && size2 == 5
    ensures final == [100.0, 200.0, -1.0, -2.0, -3.0]
  {
    var nVector := new Vector<real>.FromList([-1.0, -2.0, -3.0]);
    nVector.Insert(0, 100.0);
    first := nVector.At(0);
    size1 := nVector.Size();

    nVector.Insert(1, 200.0);
    second := nVector.At(1);
    size2 := nVector.Size();
    final := nVector.Elements();
  }
}
