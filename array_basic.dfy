/** A `std::array<double, 4>` initialised from a list, whose time component
    (index 3) is read, overwritten and read again. */
module ArrayBasic {

  /** The two printed time components and the final contents; the length
      stays 4 and indices 0 to 2 keep 2, 3 and 4. */
  method Run() returns (timeBefore: real, timeAfter: real, final: seq<real>)
    ensures timeBefore == -10.0 && timeAfter == 7.5
    ensures final == [2.0, 3.0, 4.0, 7.5]
  {
    var fourVector := new real[4] [2.0, 3.0, 4.0, -10.0];
    timeBefore := fourVector[3];
    fourVector[3] := 7.5;
    timeAfter := fourVector[3];
    final := fourVector[..];
  }
}
