# A Dafny model of a C++20 metaprogramming exercise set

This project models three small C++20 header libraries and proves properties of
the model:

- **A strided view** `Slice<T, extent, stride>` (task0/Slice.hpp). It is a
  non-owning view over a contiguous buffer. Its extent and its stride are each
  either a compile-time constant or stored at run time, marked by a "dynamic"
  sentinel. Around it sit:
  - a random-access iterator with a clamped `==` and a `<=>`;
  - the `MetaFunc` helpers that compute the template arguments of derived views;
  - the derived views `First`, `Last`, `DropFirst`, `DropLast` and `Skip`, each
    in a run-time form and a compile-time form.
- **Compile-time type lists** (task1/type_lists.hpp, task1/type_tuples.hpp,
  task1/fun_value_sequences.hpp). A list is any type with `Head` and `Tail`, or a
  type derived from `Nil`. Lists may be infinite. The model covers:
  - `Cons`, `Repeat`, `Take` and `Drop`;
  - conversion to and from `TTuple`;
  - the lazy `Concatenate` and the Fibonacci generator `FibImpl`/`Fib`;
  - the value-tag arithmetic `Inc` and `Plus`;
  - the trial-division test `IsPrime`.
- **Two small utilities** (task2). `PolymorphicMapper::map` is an ordered
  first-match classifier from an object's dynamic type to a tag. `FixedString`
  is a fixed-capacity character buffer, built by the `_cstr` literal.

## How the model represents the source

- **Pointers** are integer offsets into an abstract buffer. The buffer appears
  only where an element is read (`Slices.Deref`, `Slices.At`).
- **Sentinels.** The "dynamic" sentinel is an explicit datatype case
  (`DynamicExtent`, `DynamicStride`). The machine values `SIZE_MAX` (2^64 - 1)
  and `-1` are used only where the header hands a template argument on as a
  run-time value. That happens in the array constructor and the converting
  constructor.
- **No element type.** A view carries no element type `T`. The converting
  constructor `Slice(const Slice<U, ne, ns>&)` is a template, and C++ picks it
  only when `U`, the extent or the stride differs from the target's. A copy
  between identical types uses the implicit copy constructor, which keeps
  `extent_` and `stride_`. `Slices.Convert` stands only for a conversion to a
  different type, such as from `Slice<int, ...>` to `Slice<const int, ...>`.
  The identical-type copy is plain value copying in the model.
- **Iterators hold their view by value.** The C++ iterator keeps a pointer to
  its view and reads `GetStride()` and `end()` through it each time. A model
  iterator holds a copy of the view. The two agree only while the view is not
  changed or destroyed during its iterators' lifetime.
- **Sentinel template arguments.** In C++ the template arguments `SIZE_MAX`
  and `-1` are the "dynamic" sentinel itself. The datatypes still allow
  `FixedExtent(SizeMax)` and `FixedStride(-1)`, and `Raw` maps each of them to
  the dynamic case's value. A valid view has a positive stride, so it never has
  `FixedStride(-1)`. `FixedExtent(SizeMax)` is not excluded; the model treats
  it as a fixed extent of that many slots.
- **Characters are bytes.** In `FixedStrings`, each `char` stands for one C++
  `char`, a single byte. The `_cstr` length counts those bytes. No Dafny
  character stands for a multi-byte Unicode character.
- **Types** are values of `TypeTuples.Ty`: a named type, a value tag
  `ValueTag<V>`, or a tuple of types.
- **List cells.** Every kind of list cell the headers define is a constructor
  of `TypeLists.TypeList`. `Head` and `Tail` give each cell's member types. A
  possibly infinite list is observed through `Prefix(l, n)`, which follows
  `Tail` at most `n` times, as template instantiation does.
- **Run-time type checks.** `dynamic_cast` and `std::is_base_of_v` are given
  predicates passed to `PolymorphicMappers.Map`.
- **Extent is counted in raw slots.** In the header, `end()` lies `GetExtent()`
  raw slots after the start, while `++` moves `GetStride()` slots. So
  `First(c)` stores `c * stride` slots, and a walk from `begin()` to `end()`
  takes `ceil(extent / stride)` steps (`Slices.Steps`).
- **`Skip` mixes units.** `Skip(k)` stores the logical count
  `ceil(extent / k)` rather than a count of raw slots. A 10-slot, stride-1 view
  has `Skip(2)` of size 5, but its walk visits only 3 positions
  (`SliceProperties.SkipWalkLength`).
- **`Last(c)` mixes units too.** It starts `(extent - c) * stride` slots in.
  That start is at or past `end()` exactly when `(extent - c) * stride >= extent`
  (`SliceProperties.LastStartPastEnd`). For 10 slots and stride 2, `Last(6)`
  starts at slot 8, before the end, while `Last(5)` starts at slot 10, on it.
  `Last(extent)` always starts at the view's start.
- Neither unit mix is a finding. The header gives no single intended unit, so
  the model states exactly what each operation computes. As a result,
  iteration over `Skip` and `Last` disagrees with their `Size()` and
  `operator[]`. `SliceProperties.SkipWalkLength` and
  `SliceProperties.LastStartPastEnd` state the behaviour as written, not an
  intended one.

## Model

| member | source | states |
|---|---|---|
| SliceParams.NewStrideImpl | task0/Slice.hpp:10-39 | a fixed stride reports its template constant whatever the constructor was given; a dynamic stride reports the argument |
| SliceParams.NewExtentImpl | task0/Slice.hpp:41-69 | a fixed extent reports its template constant whatever the constructor was given; a dynamic extent reports the argument |
| SliceParams.DefaultStrideImpl | task0/Slice.hpp:24 | the default-constructed dynamic stride is 1 |
| SliceParams.SetStride | task0/Slice.hpp:33-36 | after `SetStride(s)` the dynamic stride reports `s` |
| SliceParams.ConstructorArgumentIgnoredWhenFixed | task0/Slice.hpp:13-17 | two fixed-variant objects built from different arguments are equal; two dynamic ones are equal exactly when their arguments are |
| MetaFunc.CeilDiv | task0/Slice.hpp:89 | the result `r` is the ceiling of `base / d`: `base <= r * d < base + d` |
| MetaFunc.CeilDivUnique | task0/Slice.hpp:89 | those bounds determine the ceiling uniquely |
| MetaFunc.GetDifference | task0/Slice.hpp:73-76 | the sentinel stays the sentinel; a fixed extent loses `subtrahend` |
| MetaFunc.GetStride | task0/Slice.hpp:78-81 | the sentinel stays the sentinel; a fixed stride is multiplied |
| MetaFunc.GetExtent | task0/Slice.hpp:83-90 | the sentinel stays the sentinel; a fixed extent becomes the ceiling of `base / delimiter` |
| Slices.Make | task0/Slice.hpp:277-282 | the view starts at `first`, keeps its template parameters, and stores `count` and `skip` only where they are dynamic |
| Slices.FromContainer | task0/Slice.hpp:266-271 | a container view starts at the container's data and keeps its template parameters; its extent is the container's size where dynamic and the template constant where fixed, and its stride is 1 where dynamic and the template constant where fixed |
| SliceProperties.ContainerViewWalksContainer | task0/Slice.hpp:418-423 | a container view typed by the deduction guide (`Slice<T, std::dynamic_extent, 1>`), or with parameters matching the container, is valid and walks every element of the container in order |
| Slices.FromPointer | task0/Slice.hpp:273-275 | a view from a bare pointer has its fixed extent and the default stride 1 |
| Slices.FromArray | task0/Slice.hpp:250-256 | as written, the array constructor stores the view's own template arguments as run-time values |
| Slices.FromArrayIntended | task0/Slice.hpp:250-256 | the view keeps its template parameters; a dynamic extent gets the array's length and a dynamic stride gets 1, while fixed ones report their template constants |
| Slices.Convert | task0/Slice.hpp:258-264 | as written, a conversion to a different type keeps the start pointer and the target's parameters; where the target's extent (stride) is dynamic, it stores the source's template extent (stride) as a raw value, so a fixed source's value survives and a dynamic source leaves the sentinel |
| Slices.ConvertIntended | task0/Slice.hpp:258-264 | the conversion keeps the source's run-time extent and stride where the target's are dynamic |
| Slices.Begin | task0/Slice.hpp:312-315 | a plain definition: `begin()` sits at the view's start. Walks from it are stated by `Slices.AtEndAfterSteps` and `SliceProperties.StepsOfWholeStrides` |
| Slices.End | task0/Slice.hpp:317-320 | a plain definition: `end()` lies `GetExtent()` raw slots after the start. `SliceProperties.EqualToEndIffAtOrPast` states how `==` treats it |
| Slices.Increment | task0/Slice.hpp:133-137 | a plain definition of prefix `++`. `SliceProperties.MovesAreExact` and `SliceProperties.AddSubRoundTrip` state that it moves one stride and that `--` undoes it |
| Slices.Decrement | task0/Slice.hpp:144-148 | a plain definition of prefix `--`. `SliceProperties.MovesAreExact` and `SliceProperties.AddSubRoundTrip` state that it moves back one stride and undoes `++` |
| Slices.AddAssign | task0/Slice.hpp:167-171 | a plain definition of `+=`. `SliceProperties.MovesAreExact` and `SliceProperties.AddComposes` state that it moves `delta` strides and that moves compose |
| Slices.SubAssign | task0/Slice.hpp:162-165 | a plain definition of `-=` through `+= -delta`. `SliceProperties.MovesAreExact` states that it moves back `delta` strides |
| Slices.Add | task0/Slice.hpp:173-183 | a plain definition of `it + delta` and `delta + it`. `SliceProperties.AddSubRoundTrip` and `SliceProperties.AddComposes` state its round trip and composition |
| Slices.Sub | task0/Slice.hpp:185-188 | a plain definition of `it - delta` as `it + -delta`. `SliceProperties.AddSubRoundTrip` states that it undoes `+` |
| Slices.Distance | task0/Slice.hpp:190-193 | a plain definition of `it - other` as the raw pointer difference. `SliceProperties.DistanceIsRaw` states that it counts raw slots, not strides |
| Slices.Equal | task0/Slice.hpp:195-202 | a plain definition of the clamped `==`. `SliceProperties.EqualToEndIffAtOrPast` and `SliceProperties.EqualProperties` state its meaning |
| Slices.Compare | task0/Slice.hpp:204-219 | a plain definition of `<=>`. `SliceProperties.CompareIsRawOrder` and `SliceProperties.OvershootIsEqualButGreater` state its meaning |
| Slices.IteratorIndex | task0/Slice.hpp:221-224 | a plain definition of the iterator's `[]`. `SliceProperties.IndexScalesIteratorIndexDoesNot` states that it does not scale by the stride |
| Slices.Deref | task0/Slice.hpp:139-142 | a plain definition of `*it`: it reads the buffer at the iterator's position, which must lie inside the buffer |
| Slices.At | task0/Slice.hpp:297-300 | a plain definition of the view's `[]`: it reads the buffer at `Slices.Index`, whose contract gives the address |
| Slices.PostIncrement | task0/Slice.hpp:150-154 | a plain definition of postfix `++` as written. `SliceProperties.PostfixLeavesOperand` states that it leaves the operand unchanged |
| Slices.PostDecrement | task0/Slice.hpp:156-160 | a plain definition of postfix `--` as written. `SliceProperties.PostfixLeavesOperand` states that it leaves the operand unchanged |
| Slices.StrideDistance | task0/Slice.hpp:190-193 | corrected `it - other`: between iterators of one view that lie whole strides apart, the result times the stride is the raw difference |
| SliceProperties.DistanceIsRaw | task0/Slice.hpp:173-193 | as written, `(it + n) - it` is `n * stride`, so with a stride above 1 `(it + 1) - it` is not 1 |
| SliceProperties.StrideDistanceInvertsAdd | task0/Slice.hpp:173-193 | the corrected difference inverts `+`: `(it + n) - it == n` and `other + (it - other) == it` |
| SliceProperties.LastStartPastEnd | task0/Slice.hpp:345-350 | `Last(c)` starts at or past `end()` exactly when `(extent - c) * stride >= extent`; `Last(extent)` starts at the view's start |
| Slices.StdPostIncrement | task0/Slice.hpp:150-154 | corrected postfix `++`: the operand advances one stride and the old value is yielded |
| Slices.StdPostDecrement | task0/Slice.hpp:156-160 | corrected postfix `--`: the operand retreats one stride and the old value is yielded |
| Slices.Index | task0/Slice.hpp:297-300 | `slice[i]` reads the address `data + i * stride` |
| Slices.Equals | task0/Slice.hpp:284-295 | two views compare equal exactly when their walks from `begin()` to `end()` have the same number of steps; elements are never read |
| Slices.AtEndAfterSteps | task0/Slice.hpp:195-202 | after `k` strides from `begin()`, the clamped `==` reports `end()` exactly when `k >= ceil(extent / stride)` |
| Slices.First | task0/Slice.hpp:332-336 | same start and stride, `count * stride` raw slots, dynamic extent |
| Slices.FirstStatic | task0/Slice.hpp:338-343 | same start and stride; the fixed result extent is `count` |
| Slices.Last | task0/Slice.hpp:345-350 | starts `(extent - count) * stride` slots in and has `count * stride` raw slots |
| Slices.LastStatic | task0/Slice.hpp:352-358 | the same start as `Last(count)`, with the fixed extent `count` |
| Slices.DropFirst | task0/Slice.hpp:360-365 | starts `count * stride` slots in; the two extents sum to the source's |
| Slices.DropFirstStatic | task0/Slice.hpp:367-373 | the same start; the extent loses `count * stride` if dynamic and `count` if fixed |
| Slices.DropLast | task0/Slice.hpp:375-379 | same start; the two extents sum to the source's |
| Slices.DropLastStatic | task0/Slice.hpp:381-386 | the extent loses `count * stride` if dynamic and `count` if fixed |
| Slices.Skip | task0/Slice.hpp:388-392 | same start; the stride is multiplied by `skip`; the extent is the ceiling of `extent / skip` |
| Slices.SkipStatic | task0/Slice.hpp:394-405 | the result's template parameters are `MetaFunc::GetExtent` and `MetaFunc::GetStride` of the source's |
| SliceProperties.MovesAreExact | task0/Slice.hpp:133-188 | `++`, `--`, `+=`, `-=`, `+` and `-` move the raw position by exactly `±delta * stride` and keep the view |
| SliceProperties.AddSubRoundTrip | task0/Slice.hpp:173-188 | `(it + d) - d == it`, `(it - d) + d == it`, and `--` undoes `++` |
| SliceProperties.AddComposes | task0/Slice.hpp:173-193 | two moves compose; the raw distance after `+ a` is `a * stride` |
| SliceProperties.PostfixLeavesOperand | task0/Slice.hpp:150-160 | as written, postfix `++`/`--` leave the operand unchanged and differ from the usual operators whenever the stride is non-zero |
| SliceProperties.StdPostIncrementAdvances | task0/Slice.hpp:150-154 | `k` corrected postfix increments move the operand `k` strides |
| SliceProperties.EqualToEndIffAtOrPast | task0/Slice.hpp:195-202 | an iterator equals its view's `end()` exactly when it is at or past it |
| SliceProperties.EqualProperties | task0/Slice.hpp:195-202 | `==` is reflexive and symmetric, and is raw equality for an iterator before its end |
| SliceProperties.OvershootIsEqualButGreater | task0/Slice.hpp:195-219 | an overshooting iterator is `==` to `end()` yet ordered after it by `<=>` |
| SliceProperties.CompareIsRawOrder | task0/Slice.hpp:204-219 | away from two exact ends, `<=>` is the raw position order, all three outcomes both ways |
| SliceProperties.IndexScalesIteratorIndexDoesNot | task0/Slice.hpp:221-224 | the iterator's `[]` does not scale by the stride, while the view's `[]` does |
| SliceProperties.FirstAddressesPrefix | task0/Slice.hpp:332-343 | element `i` of `First(c)` or `First<c>()` is element `i` of the source |
| SliceProperties.DropFirstAddressesSuffix | task0/Slice.hpp:360-373 | element `i` of `DropFirst(c)` is element `c + i` of the source |
| SliceProperties.LastAddressesTail | task0/Slice.hpp:345-358 | element `i` of `Last(c)` is element `extent - c + i` of the source |
| SliceProperties.SkipAddressesEveryKth | task0/Slice.hpp:388-405 | element `i` of `Skip(k)` is element `i * k` of the source |
| SliceProperties.StepsOfWholeStrides | task0/Slice.hpp:312-320 | a view of `c * stride` raw slots walks `c` steps |
| SliceProperties.StepsAfterDroppingStrides | task0/Slice.hpp:360-379 | dropping `c` elements at either end shortens the walk by exactly `c` |
| SliceProperties.FirstWalksPrefix | task0/Slice.hpp:332-336 | `First(c)` walks the first `c` positions of the source's walk |
| SliceProperties.DropFirstWalksSuffix | task0/Slice.hpp:360-365 | `DropFirst(c)` walks the source's walk without its first `c` positions |
| SliceProperties.DropLastWalksPrefix | task0/Slice.hpp:375-379 | `DropLast(c)` walks the source's walk without its last `c` positions |
| SliceProperties.FirstThenDropFirstIsWhole | task0/Slice.hpp:332-365 | `First(c)`'s walk followed by `DropFirst(c)`'s is the source's walk |
| SliceProperties.LastWalksSuffixWithUnitStride | task0/Slice.hpp:345-350 | with stride 1, `Last(c)` walks the last `c` positions |
| SliceProperties.SkipWalkLength | task0/Slice.hpp:388-392 | the walk of `Skip(k)` has `ceil(ceil(extent / k) / (stride * k))` steps; ten slots with `Skip(2)` give size 5 but 3 steps |
| SliceProperties.SkipStaticAgrees | task0/Slice.hpp:388-405 | `Skip<k>()` and `Skip(k)` give the same start, extent and stride |
| SliceProperties.StaticFirstLastAgreeOnlyOnUnitStride | task0/Slice.hpp:332-358 | the two forms of `First` (and of `Last`) report the same extent exactly when the stride is 1 or the count is 0 |
| SliceProperties.StaticDropsAgreeOnDynamicOrUnitStride | task0/Slice.hpp:360-386 | the two forms of `DropFirst` (and of `DropLast`) agree exactly on a dynamic source extent, stride 1 or count 0 |
| SliceProperties.FromArrayStoresSentinels | task0/Slice.hpp:250-256 | a deduced fixed view of an array is right; an explicitly dynamic one stores `SIZE_MAX` and stride -1 |
| SliceProperties.ConvertLosesRuntimeValues | task0/Slice.hpp:258-264 | converting a dynamic view to a dynamic view of another type stores the sentinels, while the intended conversion walks the same positions |
| TypeTuples.TTuplePacker | task1/type_tuples.hpp:24-27 | the result is a tuple one longer, with `Head` first and then the old elements in order |
| TypeTuples.PackerUnpacks | task1/type_tuples.hpp:24-27 | the head and the original tuple can be read back from the packed tuple |
| TypeTuples.IsTypeTuple | task1/type_tuples.hpp:30-31 | a plain definition of the `TypeTuple` concept: the type is a `TTuple`. `TypeLists.FromTuple` states what each side of it becomes |
| TypeLists.IsEmpty | task1/type_lists.hpp:18-26 | a plain definition of the `Empty` concept: `Nil`, or `Take` with count 0 or an empty list. `TypeLists.EmptyIffSizeZero` states that it holds exactly for lists with no elements |
| TypeLists.Head | task1/type_lists.hpp:28-40 | a plain definition of each cell's `Head`. The `Take` case follows type_lists.hpp line 92, and the `FibImpl` and `Concatenate` cases follow fun_value_sequences.hpp lines 22, 28 and 34. `TypeLists.TakePrefix`, `TypeLists.RepeatPrefix`, `ValueSequences.ConcatenatePrefix` and `ValueSequences.FibImplPrefix` state what the heads add up to |
| TypeLists.Tail | task1/type_lists.hpp:28-40 | the tail of every well-formed cell is well-formed |
| TypeLists.EmptyIffSizeZero | task1/type_lists.hpp:18-26 | a list satisfies `Empty` exactly when it has no elements |
| TypeLists.TailShrinks | task1/type_lists.hpp:28-40 | `Tail` removes exactly one element |
| TypeLists.PrefixLength | task1/type_lists.hpp:10-16 | `n` steps of `Tail` see `min(n, length)` elements |
| TypeLists.PrefixSaturates | task1/type_lists.hpp:10-16 | looking beyond a list's end sees nothing more |
| TypeLists.TakePrefix | task1/type_lists.hpp:89-100 | `Take<n, L>` shows the first `n` elements of `L`; a negative `n` shows all of `L` |
| TypeLists.TakeElements | task1/type_lists.hpp:89-100 | `Take<n, L>` is finite with `min(n, length)` elements, the first ones of `L` |
| TypeLists.RepeatPrefix | task1/type_lists.hpp:35-40 | `Repeat<T>` is infinite and every element is `T` |
| TypeLists.TakeRepeat | task1/type_lists.hpp:35-40 | `Take<n, Repeat<T>>` is `n` copies of `T` |
| TypeLists.Drop | task1/type_lists.hpp:102-119 | `Drop<n, L>` is well-formed, with `length - n` elements (0 if `n` exceeds the length; infinite stays infinite) |
| TypeLists.DropPrefix | task1/type_lists.hpp:102-119 | the first `n + m` elements of `L` are its first `n` followed by the first `m` of `Drop<n, L>` |
| TypeLists.DropNegativeIsNil | task1/type_lists.hpp:102-116 | with a negative count, `Drop` of a finite list walks to `Nil` |
| TypeLists.TakeDropReconstructs | task1/type_lists.hpp:89-119 | the elements of `Take<n, L>` followed by those of `Drop<n, L>` are the elements of `L` |
| TypeLists.ToTuple | task1/type_lists.hpp:42-54 | `ToTuple<L>` is a tuple whose elements are `L`'s elements in order |
| TypeLists.FromElems | task1/type_lists.hpp:56-72 | a tuple's parameter pack becomes a well-formed `Cons` list of the same length |
| TypeLists.FromTuple | task1/type_lists.hpp:56-75 | a tuple becomes a `Cons` list of its length; anything else becomes an empty list |
| TypeLists.FromElemsElements | task1/type_lists.hpp:56-72 | the list built from a pack has exactly the pack's elements |
| TypeLists.ToTupleFromTuple | task1/type_lists.hpp:56-78 | `ToTuple<FromTuple<T>>` is `T` for every tuple `T` |
| TypeLists.FromTupleToTuple | task1/type_lists.hpp:42-78 | `FromTuple<ToTuple<L>>` is `L` for every `Cons` list `L` |
| TypeLists.RoundTripKeepsElements | task1/type_lists.hpp:42-78 | for any finite list, the round trip through a tuple keeps the elements in order |
| ValueSequences.HasValue | task1/fun_value_sequences.hpp:9-10 | a plain definition of the `HasValue` concept: the type is a value tag. The contracts of `ValueSequences.Inc` and `ValueSequences.Plus` state that their results satisfy it |
| ValueSequences.Inc | task1/fun_value_sequences.hpp:12-13 | `Inc<V>` carries a value |
| ValueSequences.Plus | task1/fun_value_sequences.hpp:17-18 | `Plus<L, R>` carries a value |
| ValueSequences.IncIsPlusOne | task1/fun_value_sequences.hpp:12-18 | `Inc` adds one, `Plus` adds and commutes, and `Inc<V>` is `Plus<V, ValueTag<1>>` |
| ValueSequences.ConcatenatePrefix | task1/fun_value_sequences.hpp:26-36 | `Concatenate<L, R>` shows `L`'s elements and then `R`'s, and `R` only once `L` is exhausted |
| ValueSequences.ConcatenateFinite | task1/fun_value_sequences.hpp:26-36 | for a finite `L` of `k` elements, the first `k` come from `L` and the rest from `R` |
| ValueSequences.FibImplPrefix | task1/fun_value_sequences.hpp:20-24 | `FibImpl` started from two consecutive Fibonacci numbers yields the following Fibonacci numbers |
| ValueSequences.Fib | task1/fun_value_sequences.hpp:38 | a plain definition: the tags 0 and 1 followed by `FibImpl<ValueTag<1>, ValueTag<0>>`. `ValueSequences.FibIsFibonacci` states its elements |
| ValueSequences.FibIsFibonacci | task1/fun_value_sequences.hpp:38 | element `i` of `Fib` is the `i`-th Fibonacci number |
| ValueSequences.FibRecurrence | task1/fun_value_sequences.hpp:20-24 | every element of `Fib` carries a value, and from the third on each is the `Plus` of the two before it |
| ValueSequences.TakeFibTuple | task1/fun_value_sequences.hpp:38 | `ToTuple<Take<n, Fib>>` is the tuple of the first `n` Fibonacci numbers |
| ValueSequences.TakeSixFib | task1/fun_value_sequences.hpp:38 | `ToTuple<Take<6, Fib>>` is the tuple of 0, 1, 1, 2, 3, 5 |
| ValueSequences.IsPrime | task1/fun_value_sequences.hpp:40-51 | nothing at most 1 is prime; the recursion terminates from every divisor the source accepts |
| ValueSequences.IsPrimeFrom | task1/fun_value_sequences.hpp:40-51 | when no number in `[2, d)` divides `x`, trial division from `d` answers exactly whether `x` is prime |
| ValueSequences.IsPrimeCorrect | task1/fun_value_sequences.hpp:40 | with the default divisor 2, `IsPrime(x)` holds exactly for the primes |
| PolymorphicMappers.Selects | task2/PolymorphicMapper.hpp:11-37 | a plain definition of the entry that answers: every entry up to it derives from `Base`, none before it matches, and it does. `PolymorphicMappers.Map` states that the result is that entry's tag |
| PolymorphicMappers.Map | task2/PolymorphicMapper.hpp:16-37 | the result is a tag exactly when some entry is selected, and it is the selected entry's tag |
| PolymorphicMappers.MapAllDerived | task2/PolymorphicMapper.hpp:18-37 | when every entry derives from `Base`, there is no result exactly when no entry matches; otherwise the result is the first match's tag |
| PolymorphicMappers.MapAppend | task2/PolymorphicMapper.hpp:24-37 | entries are tried in declaration order; a later list is consulted only when every earlier entry derives from `Base` and fails to match |
| FixedStrings.Construct | task2/FixedString.hpp:8-11 | the buffer has capacity `max_length`, holds the first `length` characters of the input, and is NUL from `length` on |
| FixedStrings.View | task2/FixedString.hpp:12-15 | the view has `len_` characters, those of the buffer's start |
| FixedStrings.ConstructThenView | task2/FixedString.hpp:8-15 | viewing a freshly constructed string gives the input's first `length` characters |
| FixedStrings.CStr | task2/FixedString.hpp:21-24 | the literal yields a capacity-256 string whose view is the literal, NUL-padded |

## Left out

- Reverse iterators (`rbegin`, `rend`) and the deduction guides. They are standard adapters and type deduction only.
- `Size()`, `Data()` and `Stride()` read `GetExtent()`, the start pointer and `GetStride()`, so the model uses those directly. The conversion of `Stride()`'s result to `size_t` is not modelled.
- The default constructors of `Slice` and its iterator, which hold null pointers, and `operator->`. They address nothing.
- `size_t` and `ptrdiff_t` wrap-around. Extents and counts are unbounded naturals. A count that would underflow (`count * stride > extent` in `DropFirst`/`DropLast`, `count > extent` in `Last`) is a precondition. So are a positive stride and a positive `skip`.
- Slices.DropFirstStatic: requires `count * stride <= extent` even where a fixed extent only needs `count <= extent`, so that both forms share one precondition.
- Slices.DropLastStatic: requires `count * stride <= extent` for the same reason.
- Iterators whose view changes or is destroyed. A C++ iterator reads its view through a pointer. A `SetStride` on a view therefore changes the steps of its existing iterators. An iterator of a temporary view, as in `s.First(2).begin()`, dangles. A model iterator holds a copy of its view, so neither behaviour is modelled.
- Out-of-range element access is undefined in the header. `Deref` and `At` require the address to lie inside the buffer.
- C++ concepts and requires-clauses become predicates (`IsTypeTuple`, `IsEmpty`, `HasValue`) and preconditions. Build-time rejection becomes an unmet precondition.
- `Iterate`, `Filter`, `VTuple`, and therefore `Nats`, `Primes` and `IsSimple`. value_types.hpp is not part of this model. `ValueTag<V>::Value` is taken to be `V`, and `VTuple<int, 0, 1>` the tuple of the tags 0 and 1.
- TypeLists.Valid: `Concatenate<L, R>` is required to have a non-empty `R` even when `L` is infinite and `R` is never reached. C++ accepts that case.
- ValueSequences.Inc, ValueSequences.Plus, ValueSequences.FibImplPrefix, ValueSequences.FibIsFibonacci, ValueSequences.FibRecurrence, ValueSequences.TakeFibTuple, ValueSequences.TakeSixFib: tag values are unbounded integers, and the 32-bit `int` overflow of `V::Value + 1` and `L::Value + R::Value` is not modelled. `Fibonacci(47)` = 2971215073 exceeds `INT_MAX`. From there the `FibImpl` cell's `Head` is ill-formed in C++, and `Take<n, Fib>` fails to compile for `n` around 47 and above. The contracts still claim every `n`.
- ValueSequences.IsPrime: `d * d` is computed in unbounded integers. The 32-bit overflow of `d * d` for `x` near `INT_MAX` is not modelled. The default argument `d = 2` is explicit (`IsPrimeCorrect`).
- `dynamic_cast` and run-time type information. `PolymorphicMappers.Map` takes the is-a and derives-from relations as given predicates. The `Target` type agreement between mappings is a type-level check the model does not need.
- `FixedString` overflow (`length > max_length`) and a short input are preconditions of `Construct`. In the header they are undefined.

## Findings

| source | as written | input that shows it | evidently intended | confidence | as-written member | corrected member |
|---|---|---|---|---|---|---|
| task0/Slice.hpp:150-160 | postfix `++`/`--` copy the iterator, move the copy and return it, leaving the operand unchanged | any iterator with a non-zero stride: after `it++`, `it` is where it was and the expression is one stride on | move the operand and yield its old value | not executed | SliceProperties.PostfixLeavesOperand | Slices.StdPostIncrement |
| task0/Slice.hpp:250-256 | the array constructor passes the view's own template arguments `stride` and `extent` to its bases | `Slice<int, std::dynamic_extent, dynamic_stride>` of a 4-element array stores extent `SIZE_MAX` and stride -1 | the array's length and stride 1 | not executed | SliceProperties.FromArrayStoresSentinels | Slices.FromArrayIntended |
| task0/Slice.hpp:258-264 | the converting constructor passes the source's template arguments `new_stride` and `new_extent` | converting a `Slice<int, std::dynamic_extent, dynamic_stride>` of extent 4 and stride 2 into a `Slice<const int, std::dynamic_extent, dynamic_stride>` stores extent `SIZE_MAX` and stride -1 | the source's run-time `GetExtent()` and `GetStride()` | not executed | SliceProperties.ConvertLosesRuntimeValues | Slices.ConvertIntended |
| task0/Slice.hpp:190-193 | `it - other` returns the raw pointer difference `data_ - other.data_` | a view of stride 2: `(it + 1) - it` is 2 | the number of strides between the two iterators, so that `(it + n) - it == n`, as a random-access iterator requires | not executed | SliceProperties.DistanceIsRaw | Slices.StrideDistance |
