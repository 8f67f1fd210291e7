/** Properties of the strided view model: iterator arithmetic, the clamped
    iterator comparison, and how derived views address and walk the source
    view's elements. */
module SliceProperties {
  import opened SliceParams
  import MetaFunc
  import Arith
  import opened Slices

  // ---------------------------------------------------------------------------
  // Iterator arithmetic

  /** `++`, `--`, `+=` and `-=` move the raw position by exactly `±delta * stride`
      and keep the view. */
  lemma MovesAreExact(it: Iterator, delta: int)
    ensures Increment(it) == Add(it, 1) && Decrement(it) == Sub(it, 1)
    ensures AddAssign(it, delta).slice == it.slice && SubAssign(it, delta).slice == it.slice
    ensures AddAssign(it, delta).pos == it.pos + delta * it.slice.GetStride()
    ensures SubAssign(it, delta).pos == it.pos - delta * it.slice.GetStride()
    ensures Add(it, delta) == AddAssign(it, delta) && Sub(it, delta) == SubAssign(it, delta)
  {
    assert (-delta) * it.slice.GetStride() == -(delta * it.slice.GetStride());
  }

  /** `(it + d) - d` returns to `it`, and `--` undoes `++`. */
  lemma AddSubRoundTrip(it: Iterator, d: int)
    ensures Sub(Add(it, d), d) == it && Add(Sub(it, d), d) == it
    ensures Decrement(Increment(it)) == it && Increment(Decrement(it)) == it
  {
    assert (-d) * it.slice.GetStride() == -(d * it.slice.GetStride());
  }

  /** Two moves compose into one; the raw distance is `d * stride`, not `d`. */
  lemma AddComposes(it: Iterator, a: int, b: int)
    ensures Add(Add(it, a), b) == Add(it, a + b)
    ensures Distance(Add(it, a), it) == a * it.slice.GetStride()
  {
    assert (a + b) * it.slice.GetStride() == a * it.slice.GetStride() + b * it.slice.GetStride();
  }

  /** As written, `(it + n) - it` is `n * stride` raw slots, so on a view of
      stride above 1 it is not `n`, as a random-access iterator requires. */
  lemma DistanceIsRaw(it: Iterator, n: int)
    ensures Distance(Add(it, n), it) == n * it.slice.GetStride()
    ensures it.slice.GetStride() > 1 ==> Distance(Add(it, 1), it) != 1
  {
  }

  /** The stride-counting difference inverts `+`: `(it + n) - it == n`, and
      `other + (it - other) == it`. */
  lemma StrideDistanceInvertsAdd(it: Iterator, other: Iterator, n: int)
    requires it.slice.Valid()
    requires other.slice == it.slice && (it.pos - other.pos) % it.slice.GetStride() == 0
    ensures (Add(it, n).pos - it.pos) % it.slice.GetStride() == 0
    ensures StrideDistance(Add(it, n), it) == n
    ensures Add(other, StrideDistance(it, other)) == it
  {
    var st := it.slice.GetStride();
    Arith.DivExact(n, st);
    var d := StrideDistance(Add(it, n), it);
    assert d * st == n * st;
    Arith.MulStep(d, n, st);
    Arith.MulStep(n, d, st);
  }

  /** Postfix `++` and `--` as written leave the operand where it was and yield a
      copy moved by one stride; with a non-zero stride this differs from the usual
      postfix operators, which move the operand and yield the old position. */
  lemma PostfixLeavesOperand(it: Iterator)
    ensures PostIncrement(it).0 == it && PostIncrement(it).1 == Increment(it)
    ensures PostDecrement(it).0 == it && PostDecrement(it).1 == Decrement(it)
    ensures it.slice.GetStride() != 0 ==> PostIncrement(it) != StdPostIncrement(it)
    ensures it.slice.GetStride() != 0 ==> PostDecrement(it) != StdPostDecrement(it)
  {
  }

  /** A loop that advances with the corrected postfix `it++` reaches the position
      `k` strides on after `k` steps. */
  lemma StdPostIncrementAdvances(it: Iterator, k: nat)
    ensures IterateStdPostIncrement(it, k).slice == it.slice
    ensures IterateStdPostIncrement(it, k).pos == it.pos + k * it.slice.GetStride()
  {
    if k > 0 {
      StdPostIncrementAdvances(it, k - 1);
      assert k * it.slice.GetStride() == (k - 1) * it.slice.GetStride() + it.slice.GetStride();
    }
  }

  /** The operand after `k` successive `it++` with the corrected operator. */
  function IterateStdPostIncrement(it: Iterator, k: nat): Iterator {
    if k == 0 then it else StdPostIncrement(IterateStdPostIncrement(it, k - 1)).0
  }

  // ---------------------------------------------------------------------------
  // The clamped comparison

  /** An iterator of a view compares equal to `end()` exactly when it is at or
      past it; away from both ends `==` is raw-position equality. */
  lemma EqualToEndIffAtOrPast(it: Iterator, s: Slice)
    requires it.slice == s
    ensures Equal(it, End(s)) <==> it.pos >= End(s).pos
    ensures Equal(it, End(s)) <==> Equal(End(s), it)
  {
  }

  /** `==` is reflexive and symmetric, and reduces to raw equality unless both
      iterators are at or past their ends. */
  lemma EqualProperties(a: Iterator, b: Iterator)
    ensures Equal(a, a)
    ensures Equal(a, b) <==> Equal(b, a)
    ensures a.pos < End(a.slice).pos ==> (Equal(a, b) <==> a.pos == b.pos)
  {
  }

  /** `<=>` and `==` disagree on an iterator that has overshot its end: it is
      `==` to `end()`, yet `<=>` orders it after `end()`. At exactly `end()` the
      two agree. */
  lemma OvershootIsEqualButGreater(it: Iterator, s: Slice)
    requires it.slice == s && it.pos > End(s).pos
    ensures Equal(it, End(s))
    ensures Compare(it, End(s)) == Greater
    ensures Compare(End(s), End(s)) == Equivalent && Equal(End(s), End(s))
  {
  }

  /** `<=>` is a raw-position order except for two iterators exactly at their
      own ends. */
  lemma CompareIsRawOrder(a: Iterator, b: Iterator)
    requires a.pos != End(a.slice).pos || b.pos != End(b.slice).pos
    ensures Compare(a, b) == Less <==> a.pos < b.pos
    ensures Compare(a, b) == Greater <==> a.pos > b.pos
    ensures Compare(a, b) == Equivalent <==> a.pos == b.pos
  {
  }

  // ---------------------------------------------------------------------------
  // Element access

  /** `slice[i]` is `begin()[i * stride]`: the view's operator scales by the
      stride, the iterator's does not. */
  lemma IndexScalesIteratorIndexDoesNot(s: Slice, i: nat)
    requires s.Valid()
    ensures Index(s, i) == IteratorIndex(Begin(s), i * s.GetStride())
    ensures IteratorIndex(Begin(s), i) == s.data + i
  {
  }

  /** `First(c)[i]` and `First<c>()[i]` are `s[i]`. */
  lemma FirstAddressesPrefix(s: Slice, c: nat, i: nat)
    requires s.Valid()
    ensures Index(First(s, c), i) == Index(s, i)
    ensures Index(FirstStatic(s, c), i) == Index(s, i)
  {
  }

  /** `DropFirst(c)[i]` is `s[c + i]`. */
  lemma DropFirstAddressesSuffix(s: Slice, c: nat, i: nat)
    requires s.Valid() && c * s.GetStride() <= s.GetExtent()
    ensures Index(DropFirst(s, c), i) == Index(s, c + i)
    ensures Index(DropFirstStatic(s, c), i) == Index(s, c + i)
  {
    assert (c + i) * s.GetStride() == c * s.GetStride() + i * s.GetStride();
  }

  /** `Last(c)[i]` is `s[extent - c + i]`. */
  lemma LastAddressesTail(s: Slice, c: nat, i: nat)
    requires s.Valid() && c <= s.GetExtent()
    ensures Index(Last(s, c), i) == Index(s, s.GetExtent() - c + i)
    ensures Index(LastStatic(s, c), i) == Index(s, s.GetExtent() - c + i)
  {
    var e := s.GetExtent();
    assert (e - c + i) * s.GetStride() == (e - c) * s.GetStride() + i * s.GetStride();
  }

  /** `Skip(k)[i]` and `Skip<k>()[i]` are `s[i * k]`. */
  lemma SkipAddressesEveryKth(s: Slice, k: int, i: nat)
    requires s.Valid() && k > 0
    ensures Index(Skip(s, k), i) == Index(s, i * k)
    ensures Index(SkipStatic(s, k), i) == Index(s, i * k)
  {
    assert i * (s.GetStride() * k) == (i * k) * s.GetStride();
    SkipStaticAgrees(s, k);
  }

  /** `Last(c)` starts at or past `end()` exactly when `(extent - c) * stride`
      reaches the extent: never for `c == extent`, and, for stride 2 and extent
      10, only from `c <= 5` down. */
  lemma LastStartPastEnd(s: Slice, c: nat)
    requires s.Valid() && c <= s.GetExtent()
    ensures Last(s, c).data >= End(s).pos <==> (s.GetExtent() - c) * s.GetStride() >= s.GetExtent()
    ensures c == s.GetExtent() ==> Last(s, c).data == s.data
    ensures s.GetExtent() == 10 && s.GetStride() == 2 ==> (Last(s, c).data >= End(s).pos <==> c <= 5)
  {
    if s.GetExtent() == 10 && s.GetStride() == 2 {
      assert (10 - c) * 2 == 20 - 2 * c;
    }
  }

  // ---------------------------------------------------------------------------
  // Walks of derived views

  /** A view of `c * stride` raw slots takes exactly `c` steps. */
  lemma StepsOfWholeStrides(s: Slice, c: nat)
    requires s.Valid() && s.GetExtent() == c * s.GetStride()
    ensures Steps(s) == c
  {
    MetaFunc.CeilDivUnique(s.GetExtent(), s.GetStride(), c);
  }

  /** Dropping `c * stride` raw slots takes `c` steps off the walk. */
  lemma StepsAfterDroppingStrides(s: Slice, c: nat)
    requires s.Valid() && c * s.GetStride() <= s.GetExtent()
    ensures c <= Steps(s)
    ensures Steps(DropFirst(s, c)) == Steps(s) - c
    ensures Steps(DropLast(s, c)) == Steps(s) - c
  {
    var st := s.GetStride();
    var e := s.GetExtent();
    var m := Steps(DropFirst(s, c));
    assert e - c * st <= m * st < e - c * st + st;
    assert (m + c) * st == m * st + c * st;
    MetaFunc.CeilDivUnique(e, st, m + c);
  }

  /** A view of a container, as the deduction guide `Slice(Container&)` types it
      (`Slice<T, std::dynamic_extent, 1>`) or with either parameter matching the
      container, is valid and walks every element of the container in order. */
  lemma ContainerViewWalksContainer(e: ExtentParam, s: StrideParam, begin: int, size: nat)
    requires e.DynamicExtent? || e == FixedExtent(size)
    requires s.DynamicStride? || s == FixedStride(1)
    ensures FromContainer(e, s, begin, size).Valid()
    ensures Walk(FromContainer(e, s, begin, size)) == seq(size, i => begin + i)
  {
  }

  /** `First(c)` walks the first `c` positions of the source's walk. */
  lemma FirstWalksPrefix(s: Slice, c: nat)
    requires s.Valid() && c <= Steps(s)
    ensures Walk(First(s, c)) == Walk(s)[..c]
  {
    StepsOfWholeStrides(First(s, c), c);
  }

  /** `DropFirst(c)` walks the source's walk without its first `c` positions. */
  lemma DropFirstWalksSuffix(s: Slice, c: nat)
    requires s.Valid() && c * s.GetStride() <= s.GetExtent()
    ensures c <= Steps(s)
    ensures Walk(DropFirst(s, c)) == Walk(s)[c..]
  {
    StepsAfterDroppingStrides(s, c);
    var st := s.GetStride();
    forall j | 0 <= j < Steps(s) - c
      ensures Walk(DropFirst(s, c))[j] == Walk(s)[c + j]
    {
      assert (c + j) * st == c * st + j * st;
    }
  }

  /** `DropLast(c)` walks the source's walk without its last `c` positions. */
  lemma DropLastWalksPrefix(s: Slice, c: nat)
    requires s.Valid() && c * s.GetStride() <= s.GetExtent()
    ensures c <= Steps(s)
    ensures Walk(DropLast(s, c)) == Walk(s)[..Steps(s) - c]
  {
    StepsAfterDroppingStrides(s, c);
  }

  /** Walking `First(c)` then `DropFirst(c)` walks the whole source view. */
  lemma FirstThenDropFirstIsWhole(s: Slice, c: nat)
    requires s.Valid() && c * s.GetStride() <= s.GetExtent()
    ensures Walk(First(s, c)) + Walk(DropFirst(s, c)) == Walk(s)
  {
    DropFirstWalksSuffix(s, c);
    FirstWalksPrefix(s, c);
    assert Walk(s) == Walk(s)[..c] + Walk(s)[c..];
  }

  /** On a view of stride 1, `Last(c)` walks the last `c` positions. */
  lemma LastWalksSuffixWithUnitStride(s: Slice, c: nat)
    requires s.Valid() && s.GetStride() == 1 && c <= s.GetExtent()
    ensures Steps(s) == s.GetExtent()
    ensures Walk(Last(s, c)) == Walk(s)[s.GetExtent() - c..]
  {
    StepsOfWholeStrides(s, s.GetExtent());
    StepsOfWholeStrides(Last(s, c), c);
  }

  /** `Skip(k)` stores the logical count `ceil(extent / k)` while `end()` is
      measured in raw slots, so its walk is `ceil(ceil(extent / k) / (stride * k))`
      steps long: a stride-1 view of ten slots has `Skip(2)` of size 5 whose
      walk takes 3 steps. */
  lemma SkipWalkLength(s: Slice, k: int)
    requires s.Valid() && k > 0
    ensures Steps(Skip(s, k)) == MetaFunc.CeilDiv(MetaFunc.CeilDiv(s.GetExtent(), k), s.GetStride() * k)
    ensures s.GetExtent() == 10 && s.GetStride() == 1 && k == 2 ==>
              Skip(s, k).GetExtent() == 5 && Steps(Skip(s, k)) == 3
  {
    if s.GetExtent() == 10 && s.GetStride() == 1 && k == 2 {
      MetaFunc.CeilDivUnique(10, 2, 5);
      MetaFunc.CeilDivUnique(5, 2, 3);
    }
  }

  // ---------------------------------------------------------------------------
  // Compile-time variants against run-time ones

  /** `Skip<k>()` yields the same start, extent and stride as `Skip(k)`, whatever
      the source's parameters. */
  lemma SkipStaticAgrees(s: Slice, k: int)
    requires s.Valid() && k > 0
    ensures SkipStatic(s, k).data == Skip(s, k).data
    ensures SkipStatic(s, k).GetExtent() == Skip(s, k).GetExtent()
    ensures SkipStatic(s, k).GetStride() == Skip(s, k).GetStride()
  {
  }

  /** `First<c>()` reports the logical count `c` while `First(c)` reports the raw
      slots `c * stride`; they agree exactly when the stride is 1 or `c` is 0.
      The same holds of `Last`. */
  lemma StaticFirstLastAgreeOnlyOnUnitStride(s: Slice, c: nat)
    requires s.Valid() && c <= s.GetExtent()
    ensures FirstStatic(s, c).GetExtent() == First(s, c).GetExtent() <==> s.GetStride() == 1 || c == 0
    ensures LastStatic(s, c).GetExtent() == Last(s, c).GetExtent() <==> s.GetStride() == 1 || c == 0
    ensures LastStatic(s, c).data == Last(s, c).data
  {
    if c > 0 && s.GetStride() != 1 {
      Arith.MulMonotone(2, s.GetStride(), c);
    }
  }

  /** `DropFirst<c>()` and `DropFirst(c)` agree on a dynamic-extent source; on a
      fixed-extent source they agree exactly when the stride is 1 or `c` is 0.
      The same holds of `DropLast`. */
  lemma StaticDropsAgreeOnDynamicOrUnitStride(s: Slice, c: nat)
    requires s.Valid() && c * s.GetStride() <= s.GetExtent()
    ensures DropFirstStatic(s, c).data == DropFirst(s, c).data
    ensures (DropFirstStatic(s, c).GetExtent() == DropFirst(s, c).GetExtent())
        <==> (s.ExtentParameter().DynamicExtent? || s.GetStride() == 1 || c == 0)
    ensures (DropLastStatic(s, c).GetExtent() == DropLast(s, c).GetExtent())
        <==> (s.ExtentParameter().DynamicExtent? || s.GetStride() == 1 || c == 0)
  {
    if c > 0 && s.GetStride() != 1 {
      Arith.MulMonotone(2, s.GetStride(), c);
    }
  }

  // ---------------------------------------------------------------------------
  // Constructors

  /** A fixed-extent, stride-1 view of an array (what deduction picks) gets the
      array's length; an explicitly dynamic one gets the sentinel instead, and an
      explicitly dynamic stride gets -1, so that view is not even valid. */
  lemma FromArrayStoresSentinels(s: StrideParam, arrayStart: int, arrayLength: nat)
    ensures FromArray(FixedExtent(arrayLength), FixedStride(1), arrayStart, arrayLength).GetExtent() == arrayLength
    ensures FromArray(FixedExtent(arrayLength), FixedStride(1), arrayStart, arrayLength).GetStride() == 1
    ensures FromArray(DynamicExtent, s, arrayStart, arrayLength).GetExtent() == SizeMax
    ensures !FromArray(DynamicExtent, DynamicStride, arrayStart, arrayLength).Valid()
    ensures arrayLength < SizeMax ==>
              FromArray(DynamicExtent, s, arrayStart, arrayLength).GetExtent()
              != FromArrayIntended(DynamicExtent, s, arrayStart, arrayLength).GetExtent()
  {
  }

  /** Converting a dynamic view into a dynamic view of a different element type
      (`Slice<int, ...>` to `Slice<const int, ...>`) loses its extent and
      stride: the result reports the sentinels. The intended conversion keeps
      both, so the result walks the same positions. */
  lemma ConvertLosesRuntimeValues(other: Slice)
    requires other.ExtentParameter().DynamicExtent? && other.StrideParameter().DynamicStride?
    ensures Convert(DynamicExtent, DynamicStride, other).GetExtent() == SizeMax
    ensures Convert(DynamicExtent, DynamicStride, other).GetStride() == DynamicStrideValue
    ensures !Convert(DynamicExtent, DynamicStride, other).Valid()
    ensures other.Valid() ==> Walk(ConvertIntended(DynamicExtent, DynamicStride, other)) == Walk(other)
  {
  }
}
