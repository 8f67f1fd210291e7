/** Compile-time lists of types (task1/type_lists.hpp).

    In C++ a type list is any type with member types `Head` and `Tail` (a
    sequence cell), or a type derived from `Nil` (empty). Lists may be infinite:
    only what is asked for is ever instantiated. Here every kind of cell the
    programs define is a constructor of one datatype, including the two cells of
    task1/fun_value_sequences.hpp (`Concatenate`, `FibImpl`); `Head` and `Tail`
    give each cell's member types, and a list is observed through `Prefix`,
    which follows `Tail` a bounded number of times, just as instantiation does.
 */
module TypeLists {
  import opened TypeTuples

  datatype TypeList =
    | Nil
    | Cons(head: Ty, tail: TypeList)
    | Repeat(elem: Ty)
    /** `Take<n, list>`, with the C++ `int` count. */
    | Take(n: int, list: TypeList)
    /** `Concatenate<left, right>` (fun_value_sequences.hpp). */
    | Concatenate(left: TypeList, right: TypeList)
    /** `FibImpl<ValueTag<prev>, ValueTag<prevPrev>>` (fun_value_sequences.hpp). */
    | FibImpl(prev: int, prevPrev: int)

  /** The `Empty` concept: the cell derives from `Nil`. Besides `Nil` itself,
      that is `Take<n, L>` for `n == 0` or an empty `L`. */
  predicate IsEmpty(l: TypeList) {
    match l
    case Nil => true
    case Take(n, inner) => n == 0 || IsEmpty(inner)
    case _ => false
  }

  /** Every cell reached by `Tail` has a `Head` or is empty. `Concatenate<L, R>`
      with both empty has neither, so the right operand must not be empty. */
  predicate Valid(l: TypeList) {
    match l
    case Cons(_, t) => Valid(t)
    case Take(_, inner) => Valid(inner)
    case Concatenate(left, right) => Valid(left) && Valid(right) && !IsEmpty(right)
    case _ => true
  }

  /** The member type `Head` of a non-empty cell. */
  function Head(l: TypeList): Ty
    requires Valid(l) && !IsEmpty(l)
  {
    match l
    case Cons(h, _) => h
    case Repeat(t) => t
    case Take(_, inner) => Head(inner)
    case Concatenate(left, right) => if IsEmpty(left) then Head(right) else Head(left)
    case FibImpl(prev, prevPrev) => ValueTag(prevPrev + prev)
  }

  /** The member type `Tail` of a non-empty cell. */
  function Tail(l: TypeList): (r: TypeList)
    requires Valid(l) && !IsEmpty(l)
    ensures Valid(r)
  {
    match l
    case Cons(_, t) => t
    case Repeat(_) => l
    case Take(n, inner) => Take(n - 1, Tail(inner))
    case Concatenate(left, right) => if IsEmpty(left) then Tail(right) else Concatenate(Tail(left), right)
    case FibImpl(prev, prevPrev) => FibImpl(prevPrev + prev, prev)
  }

  // ---------------------------------------------------------------------------
  // Length

  datatype Length = Finite(n: nat) | Infinite

  function Succ(len: Length): Length {
    match len
    case Finite(n) => Finite(n + 1)
    case Infinite => Infinite
  }

  function Pred(len: Length): Length {
    match len
    case Finite(n) => Finite(if n == 0 then 0 else n - 1)
    case Infinite => Infinite
  }

  function Sum(a: Length, b: Length): Length {
    if a.Finite? && b.Finite? then Finite(a.n + b.n) else Infinite
  }

  function MinLength(n: nat, len: Length): Length {
    if len.Finite? && len.n < n then len else Finite(n)
  }

  /** How many elements `n` steps of `Tail` can see in a list of length `len`. */
  function Clip(n: nat, len: Length): nat {
    if len.Finite? && len.n < n then len.n else n
  }

  /** The number of cells before the empty one, computed from the structure. */
  function Size(l: TypeList): Length {
    match l
    case Nil => Finite(0)
    case Cons(_, t) => Succ(Size(t))
    case Repeat(_) => Infinite
    case Take(n, inner) => if n < 0 then Size(inner) else MinLength(n, Size(inner))
    case Concatenate(left, right) => Sum(Size(left), Size(right))
    case FibImpl(_, _) => Infinite
  }

  /** A valid list is empty exactly when its size is zero. */
  lemma {:induction false} EmptyIffSizeZero(l: TypeList)
    requires Valid(l)
    ensures IsEmpty(l) <==> Size(l) == Finite(0)
  {
    match l
    case Nil =>
    case Cons(_, t) =>
    case Repeat(_) =>
    case Take(n, inner) => EmptyIffSizeZero(inner);
    case Concatenate(left, right) => EmptyIffSizeZero(right);
    case FibImpl(_, _) =>
  }

  /** `Tail` removes exactly one element. */
  lemma {:induction false} TailShrinks(l: TypeList)
    requires Valid(l) && !IsEmpty(l)
    ensures Size(Tail(l)) == Pred(Size(l))
    ensures Size(l).Finite? ==> Size(l).n > 0 && Size(Tail(l)).n == Size(l).n - 1
  {
    EmptyIffSizeZero(l);
    match l
    case Cons(_, t) =>
    case Repeat(_) =>
    case Take(n, inner) =>
      TailShrinks(inner);
      EmptyIffSizeZero(inner);
    case Concatenate(left, right) =>
      EmptyIffSizeZero(left);
      EmptyIffSizeZero(right);
      if IsEmpty(left) {
        TailShrinks(right);
      } else {
        TailShrinks(left);
      }
    case FibImpl(_, _) =>
  }

  // ---------------------------------------------------------------------------
  // Observation

  /** The heads seen by following `Tail` at most `n` times. */
  function Prefix(l: TypeList, n: nat): seq<Ty>
    requires Valid(l)
    decreases n
  {
    if n == 0 || IsEmpty(l) then [] else [Head(l)] + Prefix(Tail(l), n - 1)
  }

  /** All elements of a finite list. */
  function Elements(l: TypeList): seq<Ty>
    requires Valid(l) && Size(l).Finite?
  {
    Prefix(l, Size(l).n)
  }

  /** `n` steps see `min(n, |l|)` elements. */
  lemma {:induction false} PrefixLength(l: TypeList, n: nat)
    requires Valid(l)
    ensures |Prefix(l, n)| == Clip(n, Size(l))
    decreases n
  {
    EmptyIffSizeZero(l);
    if n > 0 && !IsEmpty(l) {
      TailShrinks(l);
      PrefixLength(Tail(l), n - 1);
      assert |Prefix(l, n)| == 1 + Clip(n - 1, Size(Tail(l)));
    }
  }

  /** Looking further than a list reaches sees nothing more. */
  lemma {:induction false} PrefixSaturates(l: TypeList, n: nat)
    requires Valid(l)
    ensures Prefix(l, n) == Prefix(l, Clip(n, Size(l)))
    decreases n
  {
    EmptyIffSizeZero(l);
    if n > 0 && !IsEmpty(l) {
      TailShrinks(l);
      PrefixSaturates(Tail(l), n - 1);
      var c := Clip(n, Size(l));
      assert c > 0 && Clip(n - 1, Size(Tail(l))) == c - 1;
      assert Prefix(l, c) == [Head(l)] + Prefix(Tail(l), c - 1);
    }
  }

  // ---------------------------------------------------------------------------
  // Take and Drop

  /** `Take<n, L>` shows `L`'s first `n` elements; a negative count never reaches
      0, so it shows all of `L`. */
  lemma {:induction false} TakePrefix(n: int, l: TypeList, m: nat)
    requires Valid(l)
    ensures Valid(Take(n, l))
    ensures Prefix(Take(n, l), m) == Prefix(l, if n < 0 || m <= n then m else n)
    decreases m
  {
    if m > 0 && !IsEmpty(Take(n, l)) {
      TakePrefix(n - 1, Tail(l), m - 1);
    }
  }

  /** `Take(n, L)` for `n >= 0` is finite and its elements are the first
      `min(n, |L|)` elements of `L`. */
  lemma TakeElements(n: nat, l: TypeList)
    requires Valid(l)
    ensures Size(Take(n, l)).Finite? && Size(Take(n, l)).n == Clip(n, Size(l))
    ensures Elements(Take(n, l)) == Prefix(l, n)
  {
    TakePrefix(n, l, Clip(n, Size(l)));
    PrefixSaturates(l, n);
  }

  /** `Take` of a repeated type is that many copies of it. */
  lemma TakeRepeat(n: nat, t: Ty)
    ensures Elements(Take(n, Repeat(t))) == seq(n, _ => t)
  {
    TakeElements(n, Repeat(t));
    RepeatPrefix(t, n);
  }

  /** `Repeat<T>` never ends and every element is `T`. */
  lemma {:induction false} RepeatPrefix(t: Ty, n: nat)
    ensures Size(Repeat(t)) == Infinite
    ensures Prefix(Repeat(t), n) == seq(n, _ => t)
  {
    if n > 0 {
      RepeatPrefix(t, n - 1);
    }
  }

  /** `Drop<n, L>`: `DropImpl<0, L>` is `L`, `DropImpl<n, Empty>` is `Nil`, and
      otherwise one `Tail` is dropped per step. With a negative count the steps
      never reach 0, so the list must be finite for the recursion to end. */
  function Drop(n: int, l: TypeList): (r: TypeList)
    requires Valid(l)
    requires n >= 0 || Size(l).Finite?
    ensures Valid(r)
    ensures n >= 0 ==> Size(r) == (match Size(l)
                                   case Infinite => Infinite
                                   case Finite(k) => Finite(if k <= n then 0 else k - n))
    decreases if n >= 0 then n else Size(l).n
  {
    EmptyIffSizeZero(l);
    if n == 0 then l
    else if IsEmpty(l) then Nil
    else
      TailShrinks(l);
      Drop(n - 1, Tail(l))
  }

  /** Observing `n + m` elements of `L` sees its first `n`, then `m` elements of
      `Drop(n, L)`, for finite and infinite lists alike. */
  lemma {:induction false} DropPrefix(n: nat, l: TypeList, m: nat)
    requires Valid(l)
    ensures Prefix(l, n + m) == Prefix(l, n) + Prefix(Drop(n, l), m)
    decreases n
  {
    if n > 0 && !IsEmpty(l) {
      DropPrefix(n - 1, Tail(l), m);
    }
  }

  /** With a negative count, `Drop` of a finite list walks to its end. */
  lemma {:induction false} DropNegativeIsNil(n: int, l: TypeList)
    requires Valid(l) && Size(l).Finite? && n < 0
    ensures Drop(n, l) == Nil
    decreases Size(l).n
  {
    if !IsEmpty(l) {
      TailShrinks(l);
      DropNegativeIsNil(n - 1, Tail(l));
    }
  }

  /** For a finite list, the elements of `Take(n, L)` followed by those of
      `Drop(n, L)` are the elements of `L`. */
  lemma TakeDropReconstructs(n: nat, l: TypeList)
    requires Valid(l) && Size(l).Finite?
    ensures Elements(Take(n, l)) + Elements(Drop(n, l)) == Elements(l)
  {
    var k := Size(l).n;
    TakeElements(n, l);
    var m := Size(Drop(n, l)).n;
    assert Elements(Drop(n, l)) == Prefix(Drop(n, l), m);
    DropPrefix(n, l, m);
    assert Clip(n + m, Size(l)) == k;
    PrefixSaturates(l, n + m);
  }

  // ---------------------------------------------------------------------------
  // Conversion to and from tuples

  /** `ToTuple<L>`: `TTuple<>` for an empty list, otherwise the head packed in
      front of the tail's tuple. Only finite lists convert. */
  function ToTuple(l: TypeList): (r: Ty)
    requires Valid(l) && Size(l).Finite?
    ensures IsTypeTuple(r)
    ensures r.elems == Elements(l)
    decreases Size(l).n
  {
    if IsEmpty(l) then TTuple([])
    else
      TailShrinks(l);
      TTuplePacker(Head(l), ToTuple(Tail(l)))
  }

  /** `FromTupleImpl` over a tuple's parameter pack: `TTuple<>` gives `Nil`,
      `TTuple<T>` gives `Cons<T, Nil>` and `TTuple<T, Ts...>` gives
      `Cons<T, FromTuple<TTuple<Ts...>>>`. */
  function FromElems(elems: seq<Ty>): (r: TypeList)
    ensures IsConsList(r) && Valid(r)
    ensures Size(r) == Finite(|elems|)
  {
    if |elems| == 0 then Nil
    else if |elems| == 1 then Cons(elems[0], Nil)
    else Cons(elems[0], FromElems(elems[1..]))
  }

  /** `FromTuple<T>`: a type that is not a `TTuple` matches only the primary
      template and gives `Nil`. */
  function FromTuple(t: Ty): (r: TypeList)
    ensures IsConsList(r) && Valid(r) && Size(r).Finite?
    ensures IsTypeTuple(t) ==> Size(r).n == |t.elems|
    ensures !IsTypeTuple(t) ==> IsEmpty(r)
  {
    match t
    case TTuple(elems) => FromElems(elems)
    case _ => Nil
  }

  /** A list built from `Cons` and `Nil` only. */
  predicate IsConsList(l: TypeList) {
    match l
    case Nil => true
    case Cons(_, t) => IsConsList(t)
    case _ => false
  }

  /** Converting a tuple to a list and back gives the tuple. */
  lemma {:induction false} ToTupleFromTuple(t: Ty)
    requires IsTypeTuple(t)
    ensures ToTuple(FromTuple(t)) == t
  {
    FromElemsElements(t.elems);
  }

  /** The list built from a tuple's elements has exactly those elements. */
  lemma {:induction false} FromElemsElements(elems: seq<Ty>)
    ensures Elements(FromElems(elems)) == elems
    decreases |elems|
  {
    if |elems| > 1 {
      FromElemsElements(elems[1..]);
      assert elems == [elems[0]] + elems[1..];
    }
  }

  /** Converting a `Cons` list to a tuple and back gives the list itself. */
  lemma {:induction false} FromTupleToTuple(l: TypeList)
    requires IsConsList(l) && Valid(l) && Size(l).Finite?
    ensures FromTuple(ToTuple(l)) == l
    decreases l
  {
    match l
    case Nil =>
    case Cons(h, t) =>
      FromTupleToTuple(t);
      var e := ToTuple(t).elems;
      assert ToTuple(l).elems == [h] + e;
      if |e| > 0 {
        assert ([h] + e)[1..] == e;
      } else {
        assert t == FromTuple(ToTuple(t)) == Nil;
      }
  }

  /** For any finite list, the round trip through a tuple keeps every element in
      order (the cells may differ: a `Take` comes back as `Cons` cells). */
  lemma RoundTripKeepsElements(l: TypeList)
    requires Valid(l) && Size(l).Finite?
    ensures Elements(FromTuple(ToTuple(l))) == Elements(l)
  {
    FromElemsElements(ToTuple(l).elems);
  }
}
