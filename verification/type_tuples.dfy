/** Compile-time types and the tuple-of-types primitive (task1/type_tuples.hpp).

    The programs' "values" are C++ types. They are modelled by a small universe:
    an opaque named type, a value-carrying tag `ValueTag<V>` (whose `Value` is
    `V`), or a tuple of types `TTuple<Ts...>`. */
module TypeTuples {

  datatype Ty =
    | Named(name: string)
    | ValueTag(value: int)
    | TTuple(elems: seq<Ty>)

  /** The `TypeTuple` concept: satisfied exactly by instantiations of `TTuple`. */
  predicate IsTypeTuple(t: Ty) {
    t.TTuple?
  }

  /** `TTuplePacker<Head, Tail>::Type`: `Head` prepended to the tuple `Tail`.
      A `Tail` that is not a `TTuple` does not compile. */
  function TTuplePacker(head: Ty, tail: Ty): (r: Ty)
    requires IsTypeTuple(tail)
    ensures IsTypeTuple(r)
    ensures |r.elems| == |tail.elems| + 1
    ensures r.elems[0] == head
    ensures forall i :: 0 <= i < |tail.elems| ==> r.elems[i + 1] == tail.elems[i]
  {
    TTuple([head] + tail.elems)
  }

  /** Packing is injective: the head and the original tuple can be read back. */
  lemma PackerUnpacks(head: Ty, tail: Ty)
    requires IsTypeTuple(tail)
    ensures TTuplePacker(head, tail).elems[0] == head
    ensures TTuple(TTuplePacker(head, tail).elems[1..]) == tail
  {
    assert TTuplePacker(head, tail).elems[1..] == tail.elems;
  }
}
