/** An empty `std::vector<double>` grown by three `push_back` calls. */
module VectorPushBack {
  import opened StdVector

  /** The printed elements and sizes: [1.5, 2.7] after two appends, then
      size 3 with 3.9 at index `size() - 1`. */
  method Run() returns (e0: real, e1: real, size2: nat, size3: nat, last: real)
    ensures e0 == 1.5 && e1 == 2.7 && size2 == 2
    ensures size3 == 3 && last == 3.9
  {
    var nVector := new Vector<real>.FromList([]);
    nVector.PushBack(1.5);
    nVector.PushBack(2.7);
    assert nVector.Elements() == [1.5, 2.7];
    e0 := nVector.At(0);
    e1 := nVector.At(1);
    size2 := nVector.Size();

    nVector.PushBack(3.9);
    size3 := nVector.Size();
    last := nVector.At(nVector.Size() - 1);
  }
}
