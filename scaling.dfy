/** Reference definition of scaling every element of an `int` sequence by a
    factor, shared by the three `scale` functions. */
module Scaling {
  import opened CppInt

  /** Every product `s[i] * factor` fits in `int`; a product that does not is
      signed overflow, which C++ leaves undefined. */
  predicate ProductsFit(s: seq<Int32>, factor: Int32) {
    forall i :: 0 <= i < |s| ==> InInt(s[i] as int * factor as int)
  }

  /** The sequence with each element multiplied by `factor`. */
  function Scaled(s: seq<Int32>, factor: Int32): seq<Int32>
    requires ProductsFit(s, factor)
  {
    if s == [] then [] else [s[0] * factor] + Scaled(s[1..], factor)
  }

  /** Scaling keeps the length and multiplies each element in its place. */
  lemma {:induction false} ScaledAt(s: seq<Int32>, factor: Int32)
    requires ProductsFit(s, factor)
    ensures |Scaled(s, factor)| == |s|
    ensures forall i :: 0 <= i < |s| ==> Scaled(s, factor)[i] as int == s[i] as int * factor as int
  {
    if s != [] {
      ScaledAt(s[1..], factor);
    }
  }

  /** A sequence of the same length whose elements are the products is the
      scaled sequence. */
  lemma ScaledFromElements(s: seq<Int32>, factor: Int32, r: seq<Int32>)
    requires ProductsFit(s, factor)
    requires |r| == |s|
    requires forall i :: 0 <= i < |s| ==> r[i] as int == s[i] as int * factor as int
    ensures r == Scaled(s, factor)
  {
    ScaledAt(s, factor);
  }
}
