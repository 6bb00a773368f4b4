/** `scale` taking its vector by mutable reference and updating it in place
    with an indexed loop over an `unsigned` counter; `main` scales
    {1, 2, 3, 4, 5} by 2 and displays the caller's vector. */
module ArgByReference {
  import opened CppInt
  import opened Scaling

  /** Multiplies every element of `col` by `factor` in place. The counter is
      an `unsigned`, so the vector must have at most UINT_MAX elements for the
      loop to reach its end without the counter wrapping around. */
  method Scale(col: array<Int32>, factor: Int32)
    requires col.Length <= UINT_MAX
    requires ProductsFit(col[..], factor)
    modifies col
    ensures col[..] == Scaled(old(col[..]), factor)
    ensures forall k :: 0 <= k < col.Length ==> col[k] as int == old(col[k]) as int * factor as int
  {
    var i: UInt32 := 0;
    while (i as int) < col.Length
      invariant i as int <= col.Length
      invariant forall k :: 0 <= k < i as int ==> col[k] as int == old(col[k]) as int * factor as int
      invariant forall k :: i as int <= k < col.Length ==> col[k] == old(col[k])
    {
      assert InInt(old(col[..])[i] as int * factor as int);
      col[i] := col[i] * factor;
      i := i + 1;
    }
    ScaledFromElements(old(col[..]), factor, col[..]);
  }

  /** The caller's vector after `scale(col, 2)`: the call changed it. */
  method Run() returns (shown: seq<Int32>)
    ensures shown == [2, 4, 6, 8, 10]
  {
    var col := new Int32[] [1, 2, 3, 4, 5];
    Scale(col, 2);
    shown := col[..];
  }
}
