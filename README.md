# C++ teaching snippets: scaling, folds and sequence containers

The modelled repository is a set of standalone C++ lesson programs. Each
program is a `main` with at most one or two helpers. This project models the
ones whose behaviour can be stated exactly:

- **Scaling an `int` vector by a factor**, in three forms. Two work in place
  through a mutable reference: an indexed loop with an `unsigned` counter,
  and a range-for over `auto &`. The third scales a by-value copy and returns
  it. The first two are methods over `array<Int32>` with `modifies`. The copy
  version is a method over `seq<Int32>`. All three are proved against one
  reference function, `Scaling.Scaled`.
- **Folds over a sequence**:
  - three `accumulate` functions, returning `init` plus the sum;
  - the template `mean<int>`, whose division truncates toward zero;
  - the `auto`-variables program, whose `sum/sz` divides a signed sum by an
    unsigned `std::size_t`;
  - the running minimum and maximum of `analyse`, seeded with 999 and 0.

  Each loop is proved against a reference function in `Folds`: `Sum`,
  `SeededMin` or `SeededMax`.
- **`std::array` and `std::vector` scripts**. The `std::vector` programs'
  index assignments, `++`, `push_back`, `insert`, `erase` and `clear` run on
  `StdVector.Vector`, a buffer class. It follows the element-shifting and
  size rules of ISO/IEC 14882 ([sequence.reqmts] and [vector.modifiers]).
  The fixed-length `std::array` of `array-basic.cpp` is an `array<real>`.
  Each program is a method `Run` that returns the values the program prints,
  and its `ensures` states them.

C++ `int` is the newtype `CppInt.Int32`, so every `*=` and `+=` carries
Dafny's range check. Signed overflow is undefined behaviour in C++, so the
model never wraps it. Each operation instead requires that every product or
running total fits in `int`. An `unsigned` loop counter is `CppInt.UInt32`,
and `std::size_t` is `CppInt.Size`: the usual 64-bit platform with 32-bit
`int`. `double` values are only stored, copied and compared, and the one
addition (`2.0 + 1`) is exact, so they are modelled as `real`. Inputs taken
by `const` reference are `seq` values, or arrays the callee may not modify
(the `std::array` of `10-7-auto-arguments.cpp`): either way the callee
cannot change them.

Modules follow the source files: `ArgByReference`, `AddModifiers`,
`ReturnByValue`, `RemoveModifiers`, `AutoReturn`, `AutoArguments`,
`FunctionTemplateInference`, `AutoVariables`, `ReturnTuple`, `ArrayBasic`,
`VectorBasic`, `VectorPushBack`, `VectorInsert`, `VectorErase` and
`VectorClear`. They share `CppInt` (integer types, truncating division),
`Folds`, `Scaling` and `StdVector`.

## Model

| member | source | states |
|---|---|---|
| `ArgByReference.Scale` | _episodes/code/06-arg-by-reference.cpp:4-8 | every element becomes its old value times `factor`, so the vector is `Scaled` of the old one, and its size is unchanged; requires every product to fit in `int` and the size to be at most UINT_MAX, so the `unsigned` counter cannot wrap |
| `ArgByReference.Run` | _episodes/code/06-arg-by-reference.cpp:18-23 | the caller's vector {1,2,3,4,5} reads [2,4,6,8,10] after `scale(col,2)`: the change is visible to the caller |
| `AddModifiers.Scale` | _episodes/code/10-5-add-modifiers.cpp:4-8 | the range-for through `auto &` leaves each element times `factor`, which is the same `Scaled` result as the indexed loop; no size bound, since there is no counter |
| `AddModifiers.Run` | _episodes/code/10-5-add-modifiers.cpp:10-16 | `first`, copied from `col[0]` after scaling, is 2 |
| `ReturnByValue.Scale` | _episodes/code/06-return-by-value.cpp:4-9 | the returned vector has the argument's length and element `k` is `col[k] * factor`, which is `Scaled(col, factor)` |
| `ReturnByValue.Run` | _episodes/code/06-return-by-value.cpp:19-24 | `output` is [2,4,6,8,10] while the caller's `input` is still [1,2,3,4,5] |
| `Scaling.ScaledAt` | _episodes/code/06-arg-by-reference.cpp:6-7 | the reference scaling keeps the length and multiplies each element in place |
| `Scaling.ScaledFromElements` | _episodes/code/10-5-add-modifiers.cpp:6-7 | a sequence of equal length whose elements are the products is exactly the scaled sequence |
| `Folds.SumPrefixStep` | _episodes/code/TypeInference/remove-modifiers.cpp:7-8 | adding the next element to the running total gives the sum of the longer prefix |
| `Folds.SumBetween` | _episodes/code/TypeInference/function-template-inference.cpp:9 | a sum of n elements bounded by [lo, hi] lies in [n*lo, n*hi] |
| `Folds.SumsOfOneToFive` | _episodes/code/TypeInference/remove-modifiers.cpp:14-15 | the running totals of {1,2,3,4,5} stay within 0..15, so they fit in `int`, and the total is 15 |
| `Folds.SeededMinIsLeast` | _episodes/code/Functions/return-tuple.cpp:7-11 | the running minimum seeded with 999 is at most 999 and at most every element, and is 999 or one of the elements |
| `Folds.SeededMaxIsGreatest` | _episodes/code/Functions/return-tuple.cpp:7-12 | the running maximum seeded with 0 is at least 0 and at least every element, and is 0 or one of the elements |
| `RemoveModifiers.Accumulate` | _episodes/code/TypeInference/remove-modifiers.cpp:4-10 | returns `init` plus the sum of `col`, and `init` itself for an empty `col`; requires every running total to fit in `int` |
| `RemoveModifiers.Run` | _episodes/code/TypeInference/remove-modifiers.cpp:12-16 | `accumulate({1,2,3,4,5}, 0)` is 15 |
| `AutoReturn.Accumulate` | _episodes/code/10-6-auto-return.cpp:4-10 | the deduced-return version also returns `init` plus the sum, and `init` for an empty `col` |
| `AutoReturn.AgreesWithConstReferenceVersion` | _episodes/code/10-6-auto-return.cpp:4 | taking `init` by value or by `const` reference gives the same result for every input |
| `AutoReturn.Run` | _episodes/code/10-6-auto-return.cpp:12-16 | `accumulate({1,2,3,4,5}, 0)` is 15 |
| `AutoArguments.Accumulate` | _episodes/code/10-7-auto-arguments.cpp:4-10 | on a `std::array` of `int`, `res` starts at `init` and collects the elements in order, giving `init` plus the sum, or `init` for an empty array |
| `AutoArguments.Run` | _episodes/code/10-7-auto-arguments.cpp:12-16 | the sum of `std::array{1,2,3,4,5}` from 0 is 15, and the array is unchanged |
| `CppInt.CppDivIsTruncated` | _episodes/code/TypeInference/function-template-inference.cpp:10 | C++ `/` truncates toward zero: the quotient's magnitude is the largest q with q*abs(b) <= abs(a), and its sign is the product of the operands' signs |
| `CppInt.CppDivByPositive` | _episodes/code/TypeInference/function-template-inference.cpp:10 | for a positive divisor the quotient is the floor of the exact quotient for a non-negative dividend and its ceiling for a negative one |
| `CppInt.CppDivMatchesEuclideanIff` | _episodes/code/TypeInference/function-template-inference.cpp:10 | truncating division equals Dafny's Euclidean `/` exactly when the dividend is non-negative or divisible by the divisor |
| `CppInt.DivInt32` | _episodes/code/TypeInference/function-template-inference.cpp:10 | `int / int` with a positive divisor is the truncated quotient, and it lies between 0 and the dividend, so it fits in `int` |
| `CppInt.ToSize` | _episodes/code/TypeInference/auto-variables.cpp:15 | converting an `int` to `std::size_t` gives a value congruent to it modulo 2^64: the value itself when it is non-negative, the value plus 2^64 when it is negative |
| `FunctionTemplateInference.Mean` | _episodes/code/TypeInference/function-template-inference.cpp:4-11 | `mean<int>` is the sum divided by the size, truncated toward zero; requires a non-empty vector (the size is a divisor), a size that fits in `int` (it is narrowed), and running totals that fit |
| `FunctionTemplateInference.MeanBetweenExtremes` | _episodes/code/TypeInference/function-template-inference.cpp:8-10 | the truncated mean lies between any lower and any upper bound of the elements, whatever the sign of the sum |
| `FunctionTemplateInference.Run` | _episodes/code/TypeInference/function-template-inference.cpp:13-17 | `mean({1,2,3,4,5})` is 3 |
| `AutoVariables.MixedQuotient` | _episodes/code/TypeInference/auto-variables.cpp:15 | `sum/sz` converts `sum` to `std::size_t` before dividing: a non-negative sum gives `sum / sz`, a negative one `(sum + 2^64) / sz` |
| `AutoVariables.MixedQuotientIsMeanIff` | _episodes/code/TypeInference/auto-variables.cpp:9-15 | for every array size below 2^62, `sum/sz` equals the truncated signed mean exactly when the sum is non-negative; the line 9 comment flags this signed/unsigned mix |
| `AutoVariables.NegativeSumExample` | _episodes/code/TypeInference/auto-variables.cpp:9-15 | a sum of -15 over 5 elements prints (2^64 - 15) / 5 = 3689348814741910320 where the signed mean is -3 |
| `AutoVariables.Run` | _episodes/code/TypeInference/auto-variables.cpp:4-16 | `first` is 1, `sz` is 5, the range-for leaves `sum` at 15, and the printed `sum/sz` is 3 |
| `ReturnTuple.Analyse` | _episodes/code/Functions/return-tuple.cpp:5-15 | the returned min is the least of 999 and the elements, and the max the greatest of 0 and the elements; each is a bound of every element and equals its seed or some element; requires a size that the `unsigned` counter can reach |
| `ReturnTuple.Run` | _episodes/code/Functions/return-tuple.cpp:17-27 | for {1,...,6} the min is 1 and the max is 6 |
| `StdVector.Inserted` | _episodes/code/03-arrays-and-vectors/vector-insert.cpp:6 | inserting before position p keeps the earlier elements, puts x at p, shifts each later element up by one and adds one to the length |
| `StdVector.Erased` | _episodes/code/03-arrays-and-vectors/vector-erase.cpp:7 | erasing position p keeps the prefix, shifts each later element down by one and shortens the length by one |
| `StdVector.ErasedRange` | _episodes/code/03-arrays-and-vectors/vector-erase.cpp:11 | erasing [first, last) keeps the prefix, moves later elements down by the range's length and shortens the length by it |
| `StdVector.EraseUndoesInsert` | _episodes/code/03-arrays-and-vectors/vector-insert.cpp:6 | erasing the element just inserted gives back the original elements |
| `StdVector.EraseIsUnitRange` | _episodes/code/03-arrays-and-vectors/vector-erase.cpp:7-11 | a single erase is a range erase of length one |
| `StdVector.EraseToEndKeepsPrefix` | _episodes/code/03-arrays-and-vectors/vector-erase.cpp:11 | erasing from `first` to the end leaves exactly the prefix before `first` |
| `StdVector.Vector.FromList` | _episodes/code/03-arrays-and-vectors/vector-basic.cpp:5 | a vector built from a brace list holds exactly the listed elements, in order |
| `StdVector.Vector.Size` | _episodes/code/03-arrays-and-vectors/vector-basic.cpp:14 | `size()` is the number of elements and changes nothing |
| `StdVector.Vector.At` | _episodes/code/03-arrays-and-vectors/vector-basic.cpp:6 | `operator[]` reads the element at an existing position |
| `StdVector.Vector.Front` | _episodes/code/03-arrays-and-vectors/vector-basic.cpp:12 | `front()` of a non-empty vector is its first element |
| `StdVector.Vector.Back` | _episodes/code/03-arrays-and-vectors/vector-basic.cpp:13 | `back()` of a non-empty vector is the element at `size()-1` |
| `StdVector.Vector.Set` | _episodes/code/03-arrays-and-vectors/vector-basic.cpp:8 | assigning through `operator[]` replaces one element and keeps the size and every other element |
| `StdVector.Vector.GrowIfFull` | _episodes/code/03-arrays-and-vectors/vector-push-back.cpp:6-7 | reallocation on a full buffer copies every element and leaves room for one more |
| `StdVector.Vector.PushBack` | _episodes/code/03-arrays-and-vectors/vector-push-back.cpp:6-7 | `push_back(x)` appends x: the size grows by exactly one and earlier elements are unchanged |
| `StdVector.Vector.Insert` | _episodes/code/03-arrays-and-vectors/vector-insert.cpp:6 | `insert` at a position in [0, size] yields `Inserted` of the old elements |
| `StdVector.Vector.Erase` | _episodes/code/03-arrays-and-vectors/vector-erase.cpp:7 | `erase` at a position below the size yields `Erased` of the old elements |
| `StdVector.Vector.EraseRange` | _episodes/code/03-arrays-and-vectors/vector-erase.cpp:11 | the range `erase` yields `ErasedRange` of the old elements, shortening the size by the range's length |
| `StdVector.Vector.Clear` | _episodes/code/03-arrays-and-vectors/vector-clear.cpp:8 | `clear()` leaves no elements, whatever the vector held |
| `ArrayBasic.Run` | _episodes/code/03-arrays-and-vectors/array-basic.cpp:4-12 | index 3 reads -10 and then 7.5; the length stays 4 and indices 0..2 keep 2, 3, 4 |
| `VectorBasic.Run` | _episodes/code/03-arrays-and-vectors/vector-basic.cpp:4-17 | index 3 reads -10 and then 7.5; after `n_vector[0]++`, `front()` is 3, `back()` is 7.5 and the size is still 4 |
| `VectorPushBack.Run` | _episodes/code/03-arrays-and-vectors/vector-push-back.cpp:4-16 | two appends to an empty vector give [1.5, 2.7] with size 2; a third gives size 3 with 3.9 at `size()-1` |
| `VectorInsert.Run` | _episodes/code/03-arrays-and-vectors/vector-insert.cpp:4-16 | 100 is at index 0 with size 4, then 200 is at index 1 with size 5, and the contents are [100, 200, -1, -2, -3] |
| `VectorErase.Run` | _episodes/code/03-arrays-and-vectors/vector-erase.cpp:4-15 | after the single erase index 2 holds -4 and the size is 4; the range erase leaves [-1, -2], size 2 |
| `VectorClear.Run` | _episodes/code/03-arrays-and-vectors/vector-clear.cpp:4-12 | the size is 5 before `clear()` and 0 after it |

## Left out

- All console output: the `display` helpers of `06-arg-by-reference.cpp` and
  `06-return-by-value.cpp`, the `std::cout` lines of every `main`, and
  `Functions/arg-by-value.cpp`, which only prints. Each `Run` returns the
  printed values instead.
- The mean returned by `analyse` (`Functions/return-tuple.cpp:10,14`). It is
  a floating-point sum and division, and an empty vector gives 0/0.
- `ReturnTuple.Analyse`: doubles are modelled as `real`, so NaN and the
  infinities are not represented. Comparisons on the other values are exact.
- `Templates/templates-ex1*.cpp` and `Templates/templates-ex2*.cpp`. These
  are compile-time type aliases, a printing-only solution, and
  floating-point epsilon comparisons with rounding. None of this has
  integer or container behaviour to state.
- Template and `auto` type deduction itself. The generic
  `accumulate(const auto &, auto)` is modelled only as `main` instantiates
  it: a `std::array` of `int` and an `int` initial value.
- Signed overflow is not modelled as wrap-around. It is undefined behaviour,
  so the operations require that products and running totals fit in `int`.
- `ArgByReference.Scale`, `ReturnByValue.Scale`, `ReturnTuple.Analyse`:
  with 2^32 or more elements, the `unsigned` counter wraps and the loop
  never ends. The requires excludes those sizes rather than modelling
  non-termination.
- `StdVector.Vector`: `insert` and `erase` return an iterator, and the
  programs discard it, so the model does not return one. Iterator
  invalidation is not modelled either.
- `StdVector.Vector.GrowIfFull` doubles the capacity. The C++ standard only
  requires amortised constant-time growth, and no program observes the
  capacity.
- The platform is assumed to have a 32-bit `int` and `unsigned` and a 64-bit
  `std::size_t`.
