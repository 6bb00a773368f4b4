/** `scale` over a mutable reference that binds `auto & elem` to each element
    in a range-for; `main` reads the first element after scaling. */
module AddModifiers {
  import opened CppInt
  import opened Scaling

  /** Multiplies every element of `col` by `factor` in place, visiting the
      elements in order through a reference. The range-for has no counter
      that could wrap, so there is no bound on the size. */
  method Scale(col: array<Int32>, factor: Int32)
    requires ProductsFit(col[..], factor)
    modifies col
    ensures col[..] == Scaled(old(col[..]), factor)
    ensures forall k :: 0 <= k < col.Length ==> col[k] as int == old(col[k]) as int * factor as int
  {
    for n := 0 to col.Length
      invariant forall k :: 0 <= k < n ==> col[k] as int == old(col[k]) as int * factor as int
      invariant forall k :: n <= k < col.Length ==> col[k] == old(col[k])
    {
      assert InInt(old(col[..])[n] as int * factor as int);
      col[n] := col[n] * factor;
    }
    ScaledFromElements(old(col[..]), factor, col[..]);
  }

  /** `first`, a copy of `col[0]` taken after `scale(col, 2)`. */
  method Run() returns (first: Int32)
    ensures first == 2
  {
    var col := new Int32[] [1, 2, 3, 4, 5];
    Scale(col, 2);
    first := col[0];
  }
}
