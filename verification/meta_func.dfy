/** The compile-time helpers of `namespace MetaFunc` (task0/Slice.hpp, lines 71-91),
    which compute the type parameters of derived views. Each keeps the dynamic
    sentinel unchanged. */
module MetaFunc {
  import opened SliceParams
  import Arith

  /** `base % d == 0 ? base / d : base / d + 1`: the ceiling of `base / d`. */
  function CeilDiv(base: nat, d: int): (r: nat)
    requires d > 0
    ensures base <= r * d < base + d
  {
    var q := base / d;
    assert base == q * d + base % d;
    if base % d == 0 then q
    else
      assert (q + 1) * d == q * d + d;
      q + 1
  }

  /** The bounds in `CeilDiv`'s contract determine its result. */
  lemma CeilDivUnique(base: nat, d: int, r: nat)
    requires d > 0
    requires base <= r * d < base + d
    ensures r == CeilDiv(base, d)
  {
    var c := CeilDiv(base, d);
    Arith.MulStep(r, c, d);
    Arith.MulStep(c, r, d);
  }

  /** `MetaFunc::GetDifference`. */
  function GetDifference(base: ExtentParam, subtrahend: nat): (r: ExtentParam)
    requires base.FixedExtent? ==> subtrahend <= base.n
    ensures base.DynamicExtent? ==> r == DynamicExtent
    ensures base.FixedExtent? ==> r.FixedExtent? && r.n + subtrahend == base.n
  {
    match base
    case DynamicExtent => base
    case FixedExtent(n) => FixedExtent(n - subtrahend)
  }

  /** `MetaFunc::GetStride`. */
  function GetStride(base: StrideParam, multiplier: nat): (r: StrideParam)
    ensures base.DynamicStride? ==> r == DynamicStride
    ensures base.FixedStride? ==> r.FixedStride? && r.n == multiplier * base.n
  {
    match base
    case DynamicStride => base
    case FixedStride(n) => FixedStride(multiplier * n)
  }

  /** `MetaFunc::GetExtent`: the number of elements left after keeping every
      `delimiter`-th one. */
  function GetExtent(base: ExtentParam, delimiter: int): (r: ExtentParam)
    requires delimiter > 0
    ensures base.DynamicExtent? ==> r == DynamicExtent
    ensures base.FixedExtent? ==> r.FixedExtent? && base.n <= r.n * delimiter < base.n + delimiter
  {
    match base
    case DynamicExtent => base
    case FixedExtent(n) => FixedExtent(CeilDiv(n, delimiter))
  }
}
