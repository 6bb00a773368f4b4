/** A `std::vector<double>` of five values: one element erased at position 2,
    then every element from position 2 to the end. */
module VectorErase {
  import opened StdVector

  /** The printed third element and sizes, and the final contents. */
  method Run() returns (third: real, size1: nat, size2: nat, final: seq<real>)
    ensures third == -4.0 && size1 == 4
    ensures size2 == 2 && final == [-1.0, -2.0]
  {
    var nVector := new Vector<real>.FromList([-1.0, -2.0, -3.0, -4.0, -5.0]);
    nVector.Erase(2);
    third := nVector.At(2);
    size1 := nVector.Size();

    nVector.EraseRange(2, nVector.Size());
    size2 := nVector.Size();
    final := nVector.Elements();
  }
}
