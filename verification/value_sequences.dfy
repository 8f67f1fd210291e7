/** Sequences of value-carrying types (task1/fun_value_sequences.hpp): the
    `Inc` and `Plus` tag arithmetic, lazy `Concatenate`, the Fibonacci cells
    `FibImpl` and `Fib`, and the trial-division test `IsPrime`. */
module ValueSequences {
  import opened TypeTuples
  import opened TypeLists
  import Arith

  /** The `HasValue` concept. */
  predicate HasValue(t: Ty) {
    t.ValueTag?
  }

  /** `Inc<V>`: the tag of `V::Value + 1`. */
  function Inc(v: Ty): (r: Ty)
    requires HasValue(v)
    ensures HasValue(r)
  {
    ValueTag(v.value + 1)
  }

  /** `Plus<L, R>`: the tag of `L::Value + R::Value`. */
  function Plus(l: Ty, r: Ty): (s: Ty)
    requires HasValue(l) && HasValue(r)
    ensures HasValue(s)
  {
    ValueTag(l.value + r.value)
  }

  /** `Inc` adds one, `Plus` adds and commutes, and `Inc` is `Plus` with the tag 1. */
  lemma IncIsPlusOne(v: Ty, w: Ty)
    requires HasValue(v) && HasValue(w)
    ensures Inc(v).value == v.value + 1
    ensures Plus(v, w).value == v.value + w.value
    ensures Plus(v, w) == Plus(w, v)
    ensures Inc(v) == Plus(v, ValueTag(1))
  {
  }

  // ---------------------------------------------------------------------------
  // Concatenate

  /** `Concatenate<L, R>` shows `L`'s elements and then `R`'s; `R` is reached only
      once `L` is exhausted, so an infinite `L` hides `R` entirely. */
  lemma {:induction false} ConcatenatePrefix(l: TypeList, r: TypeList, n: nat)
    requires Valid(l) && Valid(r) && !IsEmpty(r)
    ensures Valid(Concatenate(l, r))
    ensures |Prefix(l, n)| <= n
    ensures Prefix(Concatenate(l, r), n) == Prefix(l, n) + Prefix(r, n - |Prefix(l, n)|)
    decreases n
  {
    if n == 0 {
      assert Prefix(l, n) == [];
    } else {
      var c := Concatenate(l, r);
      if IsEmpty(l) {
        assert Prefix(l, n) == [];
        assert Head(c) == Head(r) && Tail(c) == Tail(r);
        assert Prefix(c, n) == [Head(r)] + Prefix(Tail(r), n - 1);
      } else {
        var t := Tail(l);
        ConcatenatePrefix(t, r, n - 1);
        var pt := Prefix(t, n - 1);
        var rest := Prefix(r, n - 1 - |pt|);
        assert Prefix(l, n) == [Head(l)] + pt;
        assert Head(c) == Head(l) && Tail(c) == Concatenate(t, r);
        assert Prefix(c, n) == [Head(l)] + (pt + rest);
        assert [Head(l)] + (pt + rest) == ([Head(l)] + pt) + rest;
      }
    }
  }

  /** For a finite `L` of `k` elements, the first `k` elements come from `L` and
      the rest from `R`. */
  lemma ConcatenateFinite(l: TypeList, r: TypeList, n: nat)
    requires Valid(l) && Valid(r) && !IsEmpty(r) && Size(l).Finite?
    ensures Valid(Concatenate(l, r))
    ensures n <= Size(l).n ==> Prefix(Concatenate(l, r), n) == Prefix(l, n)
    ensures n > Size(l).n ==> Prefix(Concatenate(l, r), n) == Elements(l) + Prefix(r, n - Size(l).n)
  {
    ConcatenatePrefix(l, r, n);
    PrefixLength(l, n);
    PrefixSaturates(l, n);
    assert Prefix(r, 0) == [];
  }

  // ---------------------------------------------------------------------------
  // Fibonacci

  /** The Fibonacci numbers, as a reference. */
  function Fibonacci(i: nat): nat {
    if i < 2 then i else Fibonacci(i - 1) + Fibonacci(i - 2)
  }

  /** `Fib = Concatenate<FromTuple<VTuple<int, 0, 1>>, FibImpl<ValueTag<1>, ValueTag<0>>>`,
      reading `VTuple<int, 0, 1>` as the tuple of the tags 0 and 1. */
  const Fib: TypeList := Concatenate(FromTuple(TTuple([ValueTag(0), ValueTag(1)])), FibImpl(1, 0))

  /** `FibImpl` started from two consecutive Fibonacci numbers continues the
      sequence: each head is the sum of the two values before it. */
  lemma {:induction false} FibImplPrefix(k: nat, n: nat)
    requires k >= 1
    ensures var p := Prefix(FibImpl(Fibonacci(k), Fibonacci(k - 1)), n);
      |p| == n && forall i :: 0 <= i < n ==> p[i] == ValueTag(Fibonacci(k + 1 + i))
    decreases n
  {
    if n > 0 {
      var l := FibImpl(Fibonacci(k), Fibonacci(k - 1));
      var t := FibImpl(Fibonacci(k + 1), Fibonacci(k));
      assert Tail(l) == t;
      FibImplPrefix(k + 1, n - 1);
      var p := Prefix(l, n);
      assert p == [ValueTag(Fibonacci(k + 1))] + Prefix(t, n - 1);
      forall i | 0 < i < n
        ensures p[i] == ValueTag(Fibonacci(k + 1 + i))
      {
        assert p[i] == Prefix(t, n - 1)[i - 1];
      }
    }
  }

  /** The `i`-th element of `Fib` is the tag of the `i`-th Fibonacci number. */
  lemma FibIsFibonacci(n: nat)
    ensures Valid(Fib)
    ensures Prefix(Fib, n) == seq(n, i requires 0 <= i => ValueTag(Fibonacci(i)))
  {
    var start := FromTuple(TTuple([ValueTag(0), ValueTag(1)]));
    FromElemsElements([ValueTag(0), ValueTag(1)]);
    ConcatenateFinite(start, FibImpl(1, 0), n);
    if n <= 2 {
      PrefixSaturates(start, n);
      assert Prefix(start, 2) == [ValueTag(0), ValueTag(1)];
    } else {
      FibImplPrefix(1, n - 2);
      var tail := Prefix(FibImpl(1, 0), n - 2);
      assert Prefix(Fib, n) == [ValueTag(0), ValueTag(1)] + tail;
      forall i | 2 <= i < n
        ensures Prefix(Fib, n)[i] == ValueTag(Fibonacci(i))
      {
        assert Prefix(Fib, n)[i] == tail[i - 2];
      }
    }
  }

  /** Every element of `Fib` from the third on is the sum of the two before it. */
  lemma FibRecurrence(n: nat)
    ensures Valid(Fib)
    ensures |Prefix(Fib, n)| == n
    ensures forall i :: 0 <= i < n ==> HasValue(Prefix(Fib, n)[i])
    ensures forall i :: 2 <= i < n ==>
      Prefix(Fib, n)[i] == Plus(Prefix(Fib, n)[i - 1], Prefix(Fib, n)[i - 2])
  {
    FibIsFibonacci(n);
  }

  /** `ToTuple<Take<n, Fib>>` is the tuple of the first `n` Fibonacci numbers. */
  lemma TakeFibTuple(n: nat)
    ensures Valid(Fib) && Size(Take(n, Fib)).Finite?
    ensures ToTuple(Take(n, Fib)).elems == seq(n, i requires 0 <= i => ValueTag(Fibonacci(i)))
  {
    FibIsFibonacci(n);
    TakeElements(n, Fib);
  }

  /** `Take<6, Fib>` converts to the tuple of 0, 1, 1, 2, 3, 5. */
  lemma TakeSixFib()
    ensures Valid(Fib) && Size(Take(6, Fib)).Finite?
    ensures ToTuple(Take(6, Fib)) ==
            TTuple([ValueTag(0), ValueTag(1), ValueTag(1), ValueTag(2), ValueTag(3), ValueTag(5)])
  {
    TakeFibTuple(6);
    FirstSixFibonacci();
  }

  /** The first six Fibonacci numbers. */
  lemma FirstSixFibonacci()
    ensures seq(6, i requires 0 <= i => ValueTag(Fibonacci(i))) ==
            [ValueTag(0), ValueTag(1), ValueTag(1), ValueTag(2), ValueTag(3), ValueTag(5)]
  {
    assert Fibonacci(2) == 1 && Fibonacci(3) == 2 && Fibonacci(4) == 3 && Fibonacci(5) == 5;
  }

  // ---------------------------------------------------------------------------
  // IsPrime

  /** `IsPrime(x, d)`: trial division by `d`, `d + 1`, ... while `d * d <= x`.
      Division by zero is undefined, so `d` may be 0 only when `x <= 1`; from a
      negative `d` the recursion stops at `d == -1` at the latest, which divides
      every `x`. */
  function IsPrime(x: int, d: int): (r: bool)
    requires x <= 1 || d != 0
    ensures x <= 1 ==> !r
    decreases if d <= 0 then 1 else 0, if d <= 0 then -d else x - d
  {
    if x <= 1 then false
    else if d * d > x then true
    else if x % d == 0 then false
    else
      assert d <= 0 || d <= d * d;
      IsPrime(x, d + 1)
  }

  /** `x` has no divisor strictly between 1 and itself. */
  predicate Prime(x: int) {
    x >= 2 && forall k :: 2 <= k < x ==> x % k != 0
  }

  /** A divisor `k` of `x` with `2 <= k < x` has a co-divisor `x / k` with the
      same bounds. */
  lemma CoDivisor(x: int, k: int)
    requires 2 <= k < x
    ensures x % k == 0 ==> 2 <= x / k < x && x % (x / k) == 0 && (x / k) * k == x
  {
    if x % k == 0 {
      var q := x / k;
      assert x == q * k;
      Arith.MulStep(q, 2, k);
      assert q >= 2;
      Arith.MulMonotone(2, k, q);
      Arith.DivExact(k, q);
    }
  }

  /** If no number in `[2, d)` divides `x`, the trial division from `d` decides
      primality. */
  lemma {:induction false} IsPrimeFrom(x: int, d: int)
    requires x >= 2 && d >= 2
    requires forall k :: 2 <= k < d ==> x % k != 0
    ensures IsPrime(x, d) <==> Prime(x)
    decreases x - d
  {
    if d * d > x {
      forall k | 2 <= k < x
        ensures x % k != 0
      {
        CoDivisor(x, k);
        Arith.MulBoth(d, k, d, x / k);
      }
    } else if x % d == 0 {
      Arith.MulMonotone(2, d, d);
    } else {
      Arith.MulMonotone(1, d, d);
      IsPrimeFrom(x, d + 1);
    }
  }

  /** With the default first divisor 2, `IsPrime(x)` holds exactly for primes. */
  lemma IsPrimeCorrect(x: int)
    ensures IsPrime(x, 2) <==> Prime(x)
  {
    if x >= 2 {
      IsPrimeFrom(x, 2);
    }
  }
}
