/** `scale` taking its vector by value: it scales its own copy with an
    indexed loop and returns it, so the caller's vector is left as it was. */
module ReturnByValue {
  import opened CppInt
  import opened Scaling

  /** Returns `col` with every element multiplied by `factor`. As in the
      by-reference version, the `unsigned` counter bounds the size. */
  method Scale(col: seq<Int32>, factor: Int32) returns (r: seq<Int32>)
    requires |col| <= UINT_MAX
    requires ProductsFit(col, factor)
    ensures r == Scaled(col, factor)
    ensures |r| == |col|
    ensures forall k :: 0 <= k < |col| ==> r[k] as int == col[k] as int * factor as int
  {
    r := col;
    var i: UInt32 := 0;
    while (i as int) < |r|
      invariant i as int <= |r| == |col|
      invariant forall k :: 0 <= k < i as int ==> r[k] as int == col[k] as int * factor as int
      invariant forall k :: i as int <= k < |r| ==> r[k] == col[k]
    {
      assert InInt(col[i] as int * factor as int);
      r := r[i := r[i] * factor];
      i := i + 1;
    }
    ScaledFromElements(col, factor, r);
  }

  /** The caller's `input` after the call, and the returned `output`. */
  method Run() returns (input: seq<Int32>, output: seq<Int32>)
    ensures input == [1, 2, 3, 4, 5]
    ensures output == [2, 4, 6, 8, 10]
  {
    var caller := new Int32[] [1, 2, 3, 4, 5];
    output := Scale(caller[..], 2);
    input := caller[..];
  }
}
