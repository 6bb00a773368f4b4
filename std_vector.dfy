/** The part of `std::vector` the examples use, after the sequence-container
    requirements and the vector modifiers of the C++ standard (ISO/IEC 14882,
    [sequence.reqmts] and [vector.modifiers]): a buffer of `capacity` slots
    whose first `size` slots hold the elements. `insert` shifts the elements
    from the position on up by one, `erase` shifts the elements after the
    erased ones down, and `push_back` reallocates to twice the capacity when
    the buffer is full. */
module StdVector {

  /** The elements after inserting `x` before position `p`. */
  function Inserted<T>(s: seq<T>, p: nat, x: T): (r: seq<T>)
    requires p <= |s|
    ensures |r| == |s| + 1
    ensures forall i :: 0 <= i < p ==> r[i] == s[i]
    ensures r[p] == x
    ensures forall i :: p < i < |r| ==> r[i] == s[i - 1]
  {
    s[..p] + [x] + s[p..]
  }

  /** The elements after erasing the one at position `p`. */
  function Erased<T>(s: seq<T>, p: nat): (r: seq<T>)
    requires p < |s|
    ensures |r| == |s| - 1
    ensures forall i :: 0 <= i < p ==> r[i] == s[i]
    ensures forall i :: p <= i < |r| ==> r[i] == s[i + 1]
  {
    s[..p] + s[p + 1..]
  }

  /** The elements after erasing the positions in [first, last). */
  function ErasedRange<T>(s: seq<T>, first: nat, last: nat): (r: seq<T>)
    requires first <= last <= |s|
    ensures |r| == |s| - (last - first)
    ensures forall i :: 0 <= i < first ==> r[i] == s[i]
    ensures forall i :: first <= i < |r| ==> r[i] == s[i + (last - first)]
  {
    s[..first] + s[last..]
  }

  /** Erasing the element just inserted gives back the original elements. */
  lemma EraseUndoesInsert<T>(s: seq<T>, p: nat, x: T)
    requires p <= |s|
    ensures Erased(Inserted(s, p, x), p) == s
  {
    var r := Erased(Inserted(s, p, x), p);
    assert forall i :: 0 <= i < |s| ==> r[i] == s[i];
  }

  /** A single erase is a range erase of length one. */
  lemma EraseIsUnitRange<T>(s: seq<T>, p: nat)
    requires p < |s|
    ensures Erased(s, p) == ErasedRange(s, p, p + 1)
  {
  }

  /** Erasing from `first` to the end leaves exactly the prefix. */
  lemma EraseToEndKeepsPrefix<T>(s: seq<T>, first: nat)
    requires first <= |s|
    ensures ErasedRange(s, first, |s|) == s[..first]
  {
  }

  class Vector<T(0)> {
    var data: array<T>
    var size: nat
    ghost var Repr: set<object>

    /** The object invariant: the elements fit in the buffer. */
    ghost predicate Valid()
      reads this, Repr
      ensures Valid() ==> this in Repr
    {
      this in Repr && data in Repr && size <= data.Length
    }

    /** The elements, in order: the sequence `[begin(), end())`. */
    function Elements(): seq<T>
      reads this, Repr
      requires Valid()
    {
      data[..size]
    }

    /** A vector initialised from a brace-enclosed list holds its elements. */
    constructor FromList(init: seq<T>)
      ensures Valid() && fresh(Repr)
      ensures Elements() == init
    {
      data := new T[|init|](i requires 0 <= i < |init| => init[i]);
      size := |init|;
      Repr := {this, data};
    }

    /** `size()`: the number of elements. */
    function Size(): (n: nat)
      reads this, Repr
      requires Valid()
      ensures n == |Elements()|
    {
      size
    }

    /** `operator[]` read: the element at position `i`, which must exist. */
    function At(i: nat): (x: T)
      reads this, Repr
      requires Valid() && i < |Elements()|
      ensures x == Elements()[i]
    {
      data[i]
    }

    /** `front()`: the first element of a non-empty vector. */
    function Front(): (x: T)
      reads this, Repr
      requires Valid() && Elements() != []
      ensures x == Elements()[0]
    {
      data[0]
    }

    /** `back()`: the last element of a non-empty vector, the one at
        position `size() - 1`. */
    function Back(): (x: T)
      reads this, Repr
      requires Valid() && Elements() != []
      ensures x == Elements()[|Elements()| - 1]
    {
      data[size - 1]
    }

    /** `operator[]` write: replaces the element at position `i`; the size and
        every other element stay as they were. */
    method Set(i: nat, x: T)
      requires Valid() && i < |Elements()|
      modifies Repr
      ensures Valid() && Repr == old(Repr)
      ensures Elements() == old(Elements())[i := x]
    {
      data[i] := x;
    }

    /** Makes room for one more element, reallocating to twice the capacity
        (or to one slot) when the buffer is full; the elements are copied. */
    method GrowIfFull()
      requires Valid()
      modifies Repr
      ensures Valid() && fresh(Repr - old(Repr))
      ensures Elements() == old(Elements())
      ensures size < data.Length
    {
      if size == data.Length {
        var grown := new T[if data.Length == 0 then 1 else 2 * data.Length];
        for k := 0 to size
          invariant forall j :: 0 <= j < k ==> grown[j] == data[j]
          modifies grown
        {
          grown[k] := data[k];
        }
        assert grown[..size] == data[..size];
        data := grown;
        Repr := Repr + {grown};
      }
    }

    /** `push_back(x)`: appends `x`; the size grows by one and the earlier
        elements are unchanged. */
    method PushBack(x: T)
      requires Valid()
      modifies Repr
      ensures Valid() && fresh(Repr - old(Repr))
      ensures Elements() == old(Elements()) + [x]
    {
      GrowIfFull();
      data[size] := x;
      size := size + 1;
    }

    /** `insert(begin() + pos, x)`: the elements at `pos` and after move up by
        one, `x` takes position `pos`, and the earlier elements stay. */
    method Insert(pos: nat, x: T)
      requires Valid() && pos <= |Elements()|
      modifies Repr
      ensures Valid() && fresh(Repr - old(Repr))
      ensures Elements() == Inserted(old(Elements()), pos, x)
    {
      GrowIfFull();
      ghost var s := data[..size];
      var j := size;
      while j > pos
        invariant pos <= j <= size < data.Length
        invariant forall k :: 0 <= k < j ==> data[k] == s[k]
        invariant forall k :: j < k <= size ==> data[k] == s[k - 1]
        modifies data
      {
        data[j] := data[j - 1];
        j := j - 1;
      }
      data[pos] := x;
      size := size + 1;
      assert data[..size] == Inserted(s, pos, x);
    }

    /** `erase(begin() + pos)`: the element at `pos`, which must exist, is
        removed and the later elements move down by one. */
    method Erase(pos: nat)
      requires Valid() && pos < |Elements()|
      modifies Repr
      ensures Valid() && Repr == old(Repr)
      ensures Elements() == Erased(old(Elements()), pos)
    {
      ghost var s := data[..size];
      for j := pos to size - 1
        invariant forall k :: 0 <= k < pos ==> data[k] == s[k]
        invariant forall k :: pos <= k < j ==> data[k] == s[k + 1]
        invariant forall k :: j <= k < size ==> data[k] == s[k]
        modifies data
      {
        data[j] := data[j + 1];
      }
      ghost var r := Erased(s, pos);
      assert forall k :: 0 <= k < size - 1 ==> data[k] == r[k];
      size := size - 1;
      assert data[..size] == r;
    }

    /** `erase(begin() + first, begin() + last)`: the elements in
        [first, last) are removed and the later ones move down by
        `last - first`. */
    method EraseRange(first: nat, last: nat)
      requires Valid() && first <= last <= |Elements()|
      modifies Repr
      ensures Valid() && Repr == old(Repr)
      ensures Elements() == ErasedRange(old(Elements()), first, last)
    {
      ghost var s := data[..size];
      var gap := last - first;
      for j := first to size - gap
        invariant forall k :: 0 <= k < first ==> data[k] == s[k]
        invariant forall k :: first <= k < j ==> data[k] == s[k + gap]
        invariant forall k :: j <= k < size ==> data[k] == s[k]
        modifies data
      {
        data[j] := data[j + gap];
      }
      ghost var r := ErasedRange(s, first, last);
      assert forall k :: 0 <= k < size - gap ==> data[k] == r[k];
      size := size - gap;
      assert data[..size] == r;
    }

    /** `clear()`: removes every element, whatever the vector held. */
    method Clear()
      requires Valid()
      modifies Repr
      ensures Valid() && Repr == old(Repr)
      ensures Elements() == []
    {
      size := 0;
    }
  }
}
