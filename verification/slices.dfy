/** The strided view `Slice<T, extent, stride>` and its iterator (task0/Slice.hpp).

    The view borrows a buffer: its start pointer `data_` is an integer offset
    into an abstract buffer, and every iterator is a raw position in the same
    buffer. Elements are read only by `Deref`; nothing else here depends on the
    element type. As in the header, `end()` lies `GetExtent()` raw slots after the
    start, while iteration moves `GetStride()` slots per step.
 */
module Slices {
  import opened SliceParams
  import MetaFunc
  import Arith

  datatype Slice = Slice(data: int, extentImpl: ExtentImpl, strideImpl: StrideImpl) {
    function GetExtent(): nat { extentImpl.GetExtent() }
    function GetStride(): int { strideImpl.GetStride() }
    function ExtentParameter(): ExtentParam { extentImpl.Param() }
    function StrideParameter(): StrideParam { strideImpl.Param() }

    /** The header leaves every view with a non-positive stride undefined. */
    predicate Valid() { GetStride() > 0 }
  }

  /** `Slice::Iterator`: the view it came from and a raw position. */
  datatype Iterator = Iterator(slice: Slice, pos: int)

  /** `std::weak_ordering`. */
  datatype WeakOrdering = Less | Equivalent | Greater

  // ---------------------------------------------------------------------------
  // Construction

  /** `Slice<T, e, s>(first, count, skip)`, the constructor every derived view uses. */
  function Make(e: ExtentParam, s: StrideParam, first: int, count: nat, skip: int): (r: Slice)
    ensures r.data == first
    ensures r.ExtentParameter() == e && r.StrideParameter() == s
    ensures r.GetExtent() == (if e.DynamicExtent? then count else e.n)
    ensures r.GetStride() == (if s.DynamicStride? then skip else s.n)
  {
    Slice(first, NewExtentImpl(e, count), NewStrideImpl(s, skip))
  }

  /** `Slice<T, e, s>(container)`: delegates with the container's size and stride 1. */
  function FromContainer(e: ExtentParam, s: StrideParam, begin: int, size: nat): (r: Slice)
    ensures r.data == begin
    ensures r.ExtentParameter() == e && r.StrideParameter() == s
    ensures r.GetExtent() == (if e.DynamicExtent? then size else e.n)
    ensures r.GetStride() == (if s.DynamicStride? then 1 else s.n)
  {
    Make(e, s, begin, size, 1)
  }

  /** `Slice<T, n, dynamic_stride>(start)`: the bases are default-constructed, which
      only compiles for a fixed extent and the dynamic stride. */
  function FromPointer(e: ExtentParam, s: StrideParam, start: int): (r: Slice)
    requires e.FixedExtent? && s.DynamicStride?
    ensures r.data == start && r.GetExtent() == e.n && r.GetStride() == 1
    ensures r.ExtentParameter() == e && r.StrideParameter() == s
  {
    Slice(start, ConstExtent(e.n), DefaultStrideImpl(s))
  }

  /** `Slice<T, e, s>(std::array<U, ext>&)` as written: the bases receive the
      view's own template arguments, so a dynamic extent stores the sentinel
      `SizeMax` and a dynamic stride stores -1, whatever the array's length. */
  function FromArray(e: ExtentParam, s: StrideParam, arrayStart: int, arrayLength: nat): (r: Slice)
    ensures r.data == arrayStart
    ensures r.GetExtent() == e.Raw() && r.GetStride() == s.Raw()
  {
    Slice(arrayStart, NewExtentImpl(e, e.Raw()), NewStrideImpl(s, s.Raw()))
  }

  /** The array constructor with the array's length and stride 1 passed on. */
  function FromArrayIntended(e: ExtentParam, s: StrideParam, arrayStart: int, arrayLength: nat): (r: Slice)
    ensures r.data == arrayStart
    ensures r.ExtentParameter() == e && r.StrideParameter() == s
    ensures r.GetExtent() == (if e.DynamicExtent? then arrayLength else e.n)
    ensures r.GetStride() == (if s.DynamicStride? then 1 else s.n)
    ensures s.DynamicStride? ==> r.Valid()
  {
    Slice(arrayStart, NewExtentImpl(e, arrayLength), NewStrideImpl(s, 1))
  }

  /** The converting constructor `Slice<T, e, s>(const Slice<U, ne, ns>&)` as
      written: the bases receive the SOURCE's template arguments, not its runtime
      extent and stride. The template is chosen only when the source's type
      differs from the target's (say `Slice<int, ...>` to `Slice<const int, ...>`);
      a copy of the same type uses the implicit copy constructor, which keeps
      `extent_` and `stride_`. The model has no element type, so `Convert` stands
      for a conversion between different types only. */
  function Convert(e: ExtentParam, s: StrideParam, other: Slice): (r: Slice)
    ensures r.data == other.data
    ensures r.ExtentParameter() == e && r.StrideParameter() == s
    ensures e.DynamicExtent? ==> r.GetExtent() == other.ExtentParameter().Raw()
    ensures s.DynamicStride? ==> r.GetStride() == other.StrideParameter().Raw()
  {
    Slice(other.data, NewExtentImpl(e, other.ExtentParameter().Raw()),
          NewStrideImpl(s, other.StrideParameter().Raw()))
  }

  /** The converting constructor with the source's runtime values passed on. */
  function ConvertIntended(e: ExtentParam, s: StrideParam, other: Slice): (r: Slice)
    ensures r.data == other.data
    ensures r.ExtentParameter() == e && r.StrideParameter() == s
    ensures e.DynamicExtent? ==> r.GetExtent() == other.GetExtent()
    ensures s.DynamicStride? ==> r.GetStride() == other.GetStride()
  {
    Slice(other.data, NewExtentImpl(e, other.GetExtent()), NewStrideImpl(s, other.GetStride()))
  }

  // ---------------------------------------------------------------------------
  // Iterator arithmetic

  /** `begin()`. */
  function Begin(s: Slice): Iterator {
    Iterator(s, s.data)
  }

  /** `end()`: `GetExtent()` raw slots past the start, regardless of the stride. */
  function End(s: Slice): Iterator {
    Iterator(s, s.data + s.GetExtent())
  }

  /** Prefix `++it`. */
  function Increment(it: Iterator): Iterator {
    it.(pos := it.pos + it.slice.GetStride())
  }

  /** Prefix `--it`. */
  function Decrement(it: Iterator): Iterator {
    it.(pos := it.pos - it.slice.GetStride())
  }

  /** `it += delta`. */
  function AddAssign(it: Iterator, delta: int): Iterator {
    it.(pos := it.pos + delta * it.slice.GetStride())
  }

  /** `it -= delta`, written as `it += -delta`. */
  function SubAssign(it: Iterator, delta: int): Iterator {
    AddAssign(it, -delta)
  }

  /** `it + delta`: `+=` applied to a copy (and `delta + it`, which calls it). */
  function Add(it: Iterator, delta: int): Iterator {
    var copy := it;
    AddAssign(copy, delta)
  }

  /** `it - delta`, written as `it + -delta`. */
  function Sub(it: Iterator, delta: int): Iterator {
    Add(it, -delta)
  }

  /** `it - other`: the raw pointer difference, not a count of strides. */
  function Distance(it: Iterator, other: Iterator): int {
    it.pos - other.pos
  }

  /** The difference a random-access iterator promises: the number of strides
      from `other` to `it`, for two iterators of one view that lie a whole
      number of strides apart. */
  function StrideDistance(it: Iterator, other: Iterator): (r: int)
    requires it.slice == other.slice && it.slice.Valid()
    requires (it.pos - other.pos) % it.slice.GetStride() == 0
    ensures r * it.slice.GetStride() == it.pos - other.pos
  {
    var q := (it.pos - other.pos) / it.slice.GetStride();
    assert it.pos - other.pos == q * it.slice.GetStride() + (it.pos - other.pos) % it.slice.GetStride();
    q
  }

  /** Postfix `it++` as written: the copy is incremented and returned, the operand
      is left alone. The pair is (operand afterwards, value of the expression). */
  function PostIncrement(it: Iterator): (Iterator, Iterator) {
    var copy := it;
    (it, Increment(copy))
  }

  /** Postfix `it--` as written; the pair is as for `PostIncrement`. */
  function PostDecrement(it: Iterator): (Iterator, Iterator) {
    var copy := it;
    (it, Decrement(copy))
  }

  /** The usual postfix increment: advance the operand, yield its old value. */
  function StdPostIncrement(it: Iterator): (r: (Iterator, Iterator))
    ensures r.0.slice == it.slice && r.0.pos == it.pos + it.slice.GetStride()
    ensures r.1 == it
  {
    (Increment(it), it)
  }

  /** The usual postfix decrement: retreat the operand, yield its old value. */
  function StdPostDecrement(it: Iterator): (r: (Iterator, Iterator))
    ensures r.0.slice == it.slice && r.0.pos == it.pos - it.slice.GetStride()
    ensures r.1 == it
  {
    (Decrement(it), it)
  }

  /** `operator==`: two iterators that are each at or past their own view's end
      are equal; otherwise the raw positions are compared. */
  predicate Equal(it: Iterator, other: Iterator) {
    if it.pos >= End(it.slice).pos && other.pos >= End(other.slice).pos then true
    else it.pos == other.pos
  }

  /** `operator<=>`: equivalent when both are exactly at their own end, otherwise
      ordered by raw position. */
  function Compare(it: Iterator, other: Iterator): WeakOrdering {
    if it.pos == End(it.slice).pos && other.pos == End(other.slice).pos then Equivalent
    else if it.pos < other.pos then Less
    else if it.pos > other.pos then Greater
    else Equivalent
  }

  /** `it[index]`: the address `index` raw slots on, with no stride scaling. */
  function IteratorIndex(it: Iterator, index: nat): int {
    it.pos + index
  }

  /** `*it`: the element at the iterator's raw position. */
  function Deref<T>(buffer: seq<T>, it: Iterator): T
    requires 0 <= it.pos < |buffer|
  {
    buffer[it.pos]
  }

  // ---------------------------------------------------------------------------
  // Element access and traversal

  /** `slice[index]`, which is `*(begin() + index)`: the address it reads. */
  function Index(s: Slice, index: nat): (addr: int)
    ensures addr == s.data + index * s.GetStride()
  {
    Add(Begin(s), index).pos
  }

  /** The element `slice[index]` reads. */
  function At<T>(buffer: seq<T>, s: Slice, index: nat): T
    requires 0 <= Index(s, index) < |buffer|
  {
    Deref(buffer, Add(Begin(s), index))
  }

  /** The number of `++` steps a walk from `begin()` takes until the clamped
      `==` reports `end()`. */
  function Steps(s: Slice): nat
    requires s.Valid()
  {
    MetaFunc.CeilDiv(s.GetExtent(), s.GetStride())
  }

  /** The raw positions a walk from `begin()` to `end()` dereferences. */
  function Walk(s: Slice): seq<int>
    requires s.Valid()
  {
    seq(Steps(s), j => s.data + j * s.GetStride())
  }

  /** `Slice::operator==`. The two walks advance in lockstep until one reaches its
      end; the views are equal when both have. No element is read: the buffer is
      not even a parameter. */
  method Equals(a: Slice, b: Slice) returns (r: bool)
    requires a.Valid() && b.Valid()
    ensures r <==> Steps(a) == Steps(b)
    ensures r <==> |Walk(a)| == |Walk(b)|
  {
    var thisIt := Begin(a);
    var otherIt := Begin(b);
    ghost var k: nat := 0;
    AtEndAfterSteps(a, k);
    AtEndAfterSteps(b, k);
    while !Equal(thisIt, End(a)) && !Equal(otherIt, End(b))
      invariant k <= Steps(a) && k <= Steps(b)
      invariant thisIt == Iterator(a, a.data + k * a.GetStride())
      invariant otherIt == Iterator(b, b.data + k * b.GetStride())
      invariant Equal(thisIt, End(a)) <==> k == Steps(a)
      invariant Equal(otherIt, End(b)) <==> k == Steps(b)
      decreases Steps(a) - k
    {
      thisIt := Increment(thisIt);
      otherIt := Increment(otherIt);
      assert (k + 1) * a.GetStride() == k * a.GetStride() + a.GetStride();
      assert (k + 1) * b.GetStride() == k * b.GetStride() + b.GetStride();
      k := k + 1;
      AtEndAfterSteps(a, k);
      AtEndAfterSteps(b, k);
    }
    r := Equal(thisIt, End(a)) && Equal(otherIt, End(b));
  }

  /** After `k` strides from `begin()` the walk is at (or past) `end()` exactly
      when `k` has reached `Steps`. */
  lemma AtEndAfterSteps(s: Slice, k: nat)
    requires s.Valid()
    ensures Equal(Iterator(s, s.data + k * s.GetStride()), End(s)) <==> k >= Steps(s)
  {
    var n := Steps(s);
    var st := s.GetStride();
    if k >= n {
      Arith.MulMonotone(n, k, st);
    } else {
      Arith.MulMonotone(k, n - 1, st);
      assert (n - 1) * st == n * st - st;
    }
  }

  // ---------------------------------------------------------------------------
  // Derived views

  /** `First(count)`: the same start and stride, `count * stride` raw slots. */
  function First(s: Slice, count: nat): (r: Slice)
    requires s.Valid()
    ensures r.Valid() && r.data == s.data && r.GetStride() == s.GetStride()
    ensures r.GetExtent() == count * s.GetStride()
    ensures r.ExtentParameter() == DynamicExtent && r.StrideParameter() == s.StrideParameter()
  {
    Make(DynamicExtent, s.StrideParameter(), s.data, count * s.GetStride(), s.GetStride())
  }

  /** `First<count>()`: the result type fixes the extent to `count`, so the raw
      extent passed to the constructor is dropped. */
  function FirstStatic(s: Slice, count: nat): (r: Slice)
    requires s.Valid()
    ensures r.Valid() && r.data == s.data && r.GetStride() == s.GetStride()
    ensures r.GetExtent() == count
    ensures r.ExtentParameter() == FixedExtent(count) && r.StrideParameter() == s.StrideParameter()
  {
    Make(FixedExtent(count), s.StrideParameter(), s.data, count * s.GetStride(), s.GetStride())
  }

  /** `Last(count)`: starts `(extent - count) * stride` slots in, `count * stride`
      raw slots. */
  function Last(s: Slice, count: nat): (r: Slice)
    requires s.Valid() && count <= s.GetExtent()
    ensures r.Valid() && r.GetStride() == s.GetStride()
    ensures r.data == s.data + (s.GetExtent() - count) * s.GetStride()
    ensures r.GetExtent() == count * s.GetStride()
    ensures r.ExtentParameter() == DynamicExtent && r.StrideParameter() == s.StrideParameter()
  {
    Make(DynamicExtent, s.StrideParameter(), s.data + (s.GetExtent() - count) * s.GetStride(),
         count * s.GetStride(), s.GetStride())
  }

  /** `Last<count>()`: as `Last(count)` with the extent fixed to `count`. */
  function LastStatic(s: Slice, count: nat): (r: Slice)
    requires s.Valid() && count <= s.GetExtent()
    ensures r.Valid() && r.GetStride() == s.GetStride()
    ensures r.data == s.data + (s.GetExtent() - count) * s.GetStride()
    ensures r.GetExtent() == count
    ensures r.ExtentParameter() == FixedExtent(count) && r.StrideParameter() == s.StrideParameter()
  {
    Make(FixedExtent(count), s.StrideParameter(), s.data + (s.GetExtent() - count) * s.GetStride(),
         count * s.GetStride(), s.GetStride())
  }

  /** `DropFirst(count)`: starts `count * stride` slots in, that many fewer raw slots. */
  function DropFirst(s: Slice, count: nat): (r: Slice)
    requires s.Valid() && count * s.GetStride() <= s.GetExtent()
    ensures r.Valid() && r.GetStride() == s.GetStride()
    ensures r.data == s.data + count * s.GetStride()
    ensures r.GetExtent() + count * s.GetStride() == s.GetExtent()
    ensures r.ExtentParameter() == DynamicExtent && r.StrideParameter() == s.StrideParameter()
  {
    Make(DynamicExtent, s.StrideParameter(), s.data + count * s.GetStride(),
         s.GetExtent() - count * s.GetStride(), s.GetStride())
  }

  /** `DropFirst<count>()`: the result extent is `GetDifference(extent, count)`, so
      a fixed source extent `n` gives the fixed extent `n - count`. */
  function DropFirstStatic(s: Slice, count: nat): (r: Slice)
    requires s.Valid() && count * s.GetStride() <= s.GetExtent()
    ensures r.Valid() && r.GetStride() == s.GetStride()
    ensures r.data == s.data + count * s.GetStride()
    ensures s.ExtentParameter().DynamicExtent? ==> r.GetExtent() + count * s.GetStride() == s.GetExtent()
    ensures s.ExtentParameter().FixedExtent? ==> r.GetExtent() + count == s.GetExtent()
    ensures r.StrideParameter() == s.StrideParameter()
  {
    assert count <= count * s.GetStride() by { Arith.MulMonotone(1, s.GetStride(), count); }
    Make(MetaFunc.GetDifference(s.ExtentParameter(), count), s.StrideParameter(),
         s.data + count * s.GetStride(), s.GetExtent() - count * s.GetStride(), s.GetStride())
  }

  /** `DropLast(count)`: the same start, `count * stride` fewer raw slots. */
  function DropLast(s: Slice, count: nat): (r: Slice)
    requires s.Valid() && count * s.GetStride() <= s.GetExtent()
    ensures r.Valid() && r.data == s.data && r.GetStride() == s.GetStride()
    ensures r.GetExtent() + count * s.GetStride() == s.GetExtent()
    ensures r.ExtentParameter() == DynamicExtent && r.StrideParameter() == s.StrideParameter()
  {
    Make(DynamicExtent, s.StrideParameter(), s.data, s.GetExtent() - count * s.GetStride(), s.GetStride())
  }

  /** `DropLast<count>()`: the result extent is `GetDifference(extent, count)`. */
  function DropLastStatic(s: Slice, count: nat): (r: Slice)
    requires s.Valid() && count * s.GetStride() <= s.GetExtent()
    ensures r.Valid() && r.data == s.data && r.GetStride() == s.GetStride()
    ensures s.ExtentParameter().DynamicExtent? ==> r.GetExtent() + count * s.GetStride() == s.GetExtent()
    ensures s.ExtentParameter().FixedExtent? ==> r.GetExtent() + count == s.GetExtent()
    ensures r.StrideParameter() == s.StrideParameter()
  {
    assert count <= count * s.GetStride() by { Arith.MulMonotone(1, s.GetStride(), count); }
    Make(MetaFunc.GetDifference(s.ExtentParameter(), count), s.StrideParameter(),
         s.data, s.GetExtent() - count * s.GetStride(), s.GetStride())
  }

  /** `Skip(skip)`: every `skip`-th element. The extent becomes the logical count
      `ceil(extent / skip)` and the stride is multiplied by `skip`. */
  function Skip(s: Slice, skip: int): (r: Slice)
    requires s.Valid() && skip > 0
    ensures r.Valid() && r.data == s.data
    ensures r.GetStride() == s.GetStride() * skip
    ensures s.GetExtent() <= r.GetExtent() * skip < s.GetExtent() + skip
    ensures r.ExtentParameter() == DynamicExtent && r.StrideParameter() == DynamicStride
  {
    Arith.MulMonotone(1, skip, s.GetStride());
    Make(DynamicExtent, DynamicStride, s.data, MetaFunc.CeilDiv(s.GetExtent(), skip), s.GetStride() * skip)
  }

  /** `Skip<skip>()`: the result type is computed by `MetaFunc::GetExtent` and
      `MetaFunc::GetStride`. */
  function SkipStatic(s: Slice, skip: int): (r: Slice)
    requires s.Valid() && skip > 0
    ensures r.ExtentParameter() == MetaFunc.GetExtent(s.ExtentParameter(), skip)
    ensures r.StrideParameter() == MetaFunc.GetStride(s.StrideParameter(), skip)
  {
    Make(MetaFunc.GetExtent(s.ExtentParameter(), skip), MetaFunc.GetStride(s.StrideParameter(), skip),
         s.data, MetaFunc.CeilDiv(s.GetExtent(), skip), s.GetStride() * skip)
  }
}
