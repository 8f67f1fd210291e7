/** The extent and stride parameters of a strided view (task0/Slice.hpp, lines 8-69).

    A view's extent and stride are each chosen at the type level: either a fixed
    constant baked into the type, or the "dynamic" sentinel, in which case the
    value is stored in the instance. The sentinel is an explicit datatype case
    here; `SizeMax` and `DynamicStrideValue` are the machine values the header
    uses for it, which matter only where the header passes a template argument
    on as a runtime value.

    In C++ the template arguments `SIZE_MAX` and `-1` ARE the sentinel, so no
    view has a fixed extent of `SizeMax` or a fixed stride of `-1`. The
    datatypes do not exclude `FixedExtent(SizeMax)` and `FixedStride(-1)`;
    `Raw` maps each to the same value as the dynamic case. A valid view has a
    positive stride, which rules out the second; the first is not excluded,
    and a view given it behaves as a fixed view of that many slots.
 */
module SliceParams {

  /** `std::dynamic_extent`, the largest 64-bit `size_t`. */
  const SizeMax: nat := 0xFFFF_FFFF_FFFF_FFFF

  /** `dynamic_stride`. */
  const DynamicStrideValue: int := -1

  /** The `extent` template argument of a view. */
  datatype ExtentParam = FixedExtent(n: nat) | DynamicExtent {
    /** The argument as the `size_t` the header would pass on. */
    function Raw(): nat {
      match this
      case FixedExtent(n) => n
      case DynamicExtent => SizeMax
    }
  }

  /** The `stride` template argument of a view. */
  datatype StrideParam = FixedStride(n: int) | DynamicStride {
    /** The argument as the `ptrdiff_t` the header would pass on. */
    function Raw(): int {
      match this
      case FixedStride(n) => n
      case DynamicStride => DynamicStrideValue
    }
  }

  /** `ExtentImpl<new_extent>`: the fixed variant stores nothing and reports its
      template constant; the dynamic variant stores `extent_`. */
  datatype ExtentImpl = ConstExtent(newExtent: nat) | StoredExtent(extent_: nat) {
    function GetExtent(): nat {
      match this
      case ConstExtent(e) => e
      case StoredExtent(e) => e
    }

    function Param(): ExtentParam {
      match this
      case ConstExtent(e) => FixedExtent(e)
      case StoredExtent(_) => DynamicExtent
    }
  }

  /** `StrideImpl<stride>`: the fixed variant stores nothing and reports its
      template constant; the dynamic variant stores `stride_`. */
  datatype StrideImpl = ConstStride(stride: int) | StoredStride(stride_: int) {
    function GetStride(): int {
      match this
      case ConstStride(s) => s
      case StoredStride(s) => s
    }

    function Param(): StrideParam {
      match this
      case ConstStride(s) => FixedStride(s)
      case StoredStride(_) => DynamicStride
    }
  }

  /** `ExtentImpl<p>(runTimeExtent)`: the fixed variant ignores the argument. */
  function NewExtentImpl(p: ExtentParam, runTimeExtent: nat): (r: ExtentImpl)
    ensures r.Param() == p
    ensures p.FixedExtent? ==> r.GetExtent() == p.n
    ensures p.DynamicExtent? ==> r.GetExtent() == runTimeExtent
  {
    match p
    case FixedExtent(n) => ConstExtent(n)
    case DynamicExtent => StoredExtent(runTimeExtent)
  }

  /** `StrideImpl<p>(runTimeStride)`: the fixed variant ignores the argument. */
  function NewStrideImpl(p: StrideParam, runTimeStride: int): (r: StrideImpl)
    ensures r.Param() == p
    ensures p.FixedStride? ==> r.GetStride() == p.n
    ensures p.DynamicStride? ==> r.GetStride() == runTimeStride
  {
    match p
    case FixedStride(n) => ConstStride(n)
    case DynamicStride => StoredStride(runTimeStride)
  }

  /** The default constructor exists only for the dynamic stride; it stores 1. */
  function DefaultStrideImpl(p: StrideParam): (r: StrideImpl)
    requires p.DynamicStride?
    ensures r.Param() == DynamicStride && r.GetStride() == 1
  {
    StoredStride(1)
  }

  /** `SetStride` exists only for the dynamic stride. */
  function SetStride(impl: StrideImpl, stride: int): (r: StrideImpl)
    requires impl.StoredStride?
    ensures r.Param() == DynamicStride && r.GetStride() == stride
  {
    StoredStride(stride)
  }

  /** A fixed extent or stride reports the same value whatever its constructor
      was given; a dynamic one reports exactly what it was given. */
  lemma ConstructorArgumentIgnoredWhenFixed(e: ExtentParam, s: StrideParam, a1: nat, a2: nat, b1: int, b2: int)
    ensures e.FixedExtent? ==> NewExtentImpl(e, a1) == NewExtentImpl(e, a2)
    ensures s.FixedStride? ==> NewStrideImpl(s, b1) == NewStrideImpl(s, b2)
    ensures e.DynamicExtent? ==> (NewExtentImpl(e, a1) == NewExtentImpl(e, a2) <==> a1 == a2)
    ensures s.DynamicStride? ==> (NewStrideImpl(s, b1) == NewStrideImpl(s, b2) <==> b1 == b2)
  {
  }
}
