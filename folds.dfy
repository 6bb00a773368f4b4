/** Reference definitions for the loops that fold a sequence into one value:
    the sum behind every `accumulate` and `mean`, and the sentinel-seeded
    running minimum and maximum of `analyse`. Each is defined on the last
    element, so that "the loop has consumed the prefix s[..k]" reads directly
    as an invariant. */
module Folds {
  import opened CppInt

  /** The exact (unbounded) sum of the elements. */
  function Sum(s: seq<Int32>): int {
    if s == [] then 0 else Sum(s[..|s| - 1]) + s[|s| - 1] as int
  }

  /** Every running total `init + Sum(s[..k])` fits in `int`: a loop that adds
      the elements one at a time to an `int` accumulator never overflows. */
  predicate PartialSumsFit(init: int, s: seq<Int32>) {
    forall k :: 0 <= k <= |s| ==> InInt(init + Sum(s[..k]))
  }

  /** Extending a prefix by one element adds that element to its sum. */
  lemma SumPrefixStep(s: seq<Int32>, k: nat)
    requires k < |s|
    ensures Sum(s[..k + 1]) == Sum(s[..k]) + s[k] as int
  {
    assert s[..k + 1][..k] == s[..k];
  }

  /** A sum of n elements that all lie in [lo, hi] lies in [n * lo, n * hi]. */
  lemma {:induction false} SumBetween(s: seq<Int32>, lo: int, hi: int)
    requires forall i :: 0 <= i < |s| ==> lo <= s[i] as int <= hi
    ensures |s| * lo <= Sum(s) <= |s| * hi
  {
    if s != [] {
      var s' := s[..|s| - 1];
      SumBetween(s', lo, hi);
      assert |s| * lo == |s'| * lo + lo;
      assert |s| * hi == |s'| * hi + hi;
    }
  }

  /** The running minimum of a loop that starts from `seed` and replaces the
      current value whenever an element is strictly smaller. */
  function SeededMin(s: seq<real>, seed: real): real {
    if s == [] then seed
    else
      var m := SeededMin(s[..|s| - 1], seed);
      if s[|s| - 1] < m then s[|s| - 1] else m
  }

  /** The running maximum, replaced whenever an element is strictly larger. */
  function SeededMax(s: seq<real>, seed: real): real {
    if s == [] then seed
    else
      var m := SeededMax(s[..|s| - 1], seed);
      if s[|s| - 1] > m then s[|s| - 1] else m
  }

  /** The seeded minimum is the least of the seed and the elements: it is a
      lower bound of both and is one of them. */
  lemma {:induction false} SeededMinIsLeast(s: seq<real>, seed: real)
    ensures SeededMin(s, seed) <= seed
    ensures forall i :: 0 <= i < |s| ==> SeededMin(s, seed) <= s[i]
    ensures SeededMin(s, seed) == seed || SeededMin(s, seed) in s
  {
    if s != [] {
      var s' := s[..|s| - 1];
      SeededMinIsLeast(s', seed);
      assert forall i :: 0 <= i < |s'| ==> s'[i] == s[i];
    }
  }

  /** The seeded maximum is the greatest of the seed and the elements. */
  lemma {:induction false} SeededMaxIsGreatest(s: seq<real>, seed: real)
    ensures SeededMax(s, seed) >= seed
    ensures forall i :: 0 <= i < |s| ==> SeededMax(s, seed) >= s[i]
    ensures SeededMax(s, seed) == seed || SeededMax(s, seed) in s
  {
    if s != [] {
      var s' := s[..|s| - 1];
      SeededMaxIsGreatest(s', seed);
      assert forall i :: 0 <= i < |s'| ==> s'[i] == s[i];
    }
  }

  /** The running totals of the literal {1, 2, 3, 4, 5} that several of the
      examples fold are 0, 1, 3, 6, 10 and 15. */
  lemma SumsOfOneToFive(col: seq<Int32>)
    requires col == [1, 2, 3, 4, 5]
    ensures Sum(col) == 15
    ensures PartialSumsFit(0, col)
    ensures forall k :: 0 <= k <= |col| ==> 0 <= Sum(col[..k]) <= 15
  {
    assert col[..0] == [];
    SumPrefixStep(col, 0);
    SumPrefixStep(col, 1);
    SumPrefixStep(col, 2);
    SumPrefixStep(col, 3);
    SumPrefixStep(col, 4);
    assert col[..5] == col;
  }
}
