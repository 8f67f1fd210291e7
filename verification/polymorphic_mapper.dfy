/** The ordered first-match classifier `PolymorphicMapper<Base, Target, Mappings...>::map`
    (task2/PolymorphicMapper.hpp).

    Classes are values of a type parameter `C`. Two relations the compiler and
    the run-time type information decide are taken as given parameters:
    `derivesFromBase(c)` is `std::is_base_of_v<Base, c>`, and `isA(c)` says that
    `dynamic_cast<const c *>` of the queried object succeeds. */
module PolymorphicMappers {

  datatype Option<T> = None | Some(value: T)

  /** `Mapping<From, target>`: a class and the tag reported for it. */
  datatype Mapping<C, T> = Mapping(from: C, target: T)

  /** Entry `i` is the one that answers: the specialisation was chosen for every
      entry up to `i` (each derives from `Base`), no earlier entry matched the
      object, and entry `i` does. */
  predicate Selects<C, T>(derivesFromBase: C -> bool, isA: C -> bool, mappings: seq<Mapping<C, T>>, i: int) {
    && 0 <= i < |mappings|
    && (forall j :: 0 <= j <= i ==> derivesFromBase(mappings[j].from))
    && (forall j :: 0 <= j < i ==> !isA(mappings[j].from))
    && isA(mappings[i].from)
  }

  /** `map(object)`: the primary template (no mappings left, or a first entry
      whose class does not derive from `Base`) answers "no match"; the
      specialisation answers the first entry's tag when the object is-a that
      class and otherwise asks the rest of the list. */
  function Map<C, T>(derivesFromBase: C -> bool, isA: C -> bool, mappings: seq<Mapping<C, T>>): (r: Option<T>)
    ensures r.Some? <==> exists i :: Selects(derivesFromBase, isA, mappings, i)
    ensures forall i :: Selects(derivesFromBase, isA, mappings, i) ==> r == Some(mappings[i].target)
    decreases |mappings|
  {
    if |mappings| == 0 || !derivesFromBase(mappings[0].from) then None
    else if isA(mappings[0].from) then
      assert Selects(derivesFromBase, isA, mappings, 0);
      Some(mappings[0].target)
    else
      var rest := Map(derivesFromBase, isA, mappings[1..]);
      ShiftSelects(derivesFromBase, isA, mappings);
      rest
  }

  /** Past a first entry that derives from `Base` and does not match, entry
      `i + 1` answers for the whole list exactly when entry `i` answers for the
      rest. */
  lemma ShiftSelects<C, T>(derivesFromBase: C -> bool, isA: C -> bool, mappings: seq<Mapping<C, T>>)
    requires |mappings| > 0 && derivesFromBase(mappings[0].from) && !isA(mappings[0].from)
    ensures forall i :: Selects(derivesFromBase, isA, mappings, i) ==> i >= 1
    ensures forall i :: Selects(derivesFromBase, isA, mappings[1..], i) <==> Selects(derivesFromBase, isA, mappings, i + 1)
  {
    var rest := mappings[1..];
    forall i
      ensures Selects(derivesFromBase, isA, rest, i) <==> Selects(derivesFromBase, isA, mappings, i + 1)
    {
      if Selects(derivesFromBase, isA, rest, i) {
        forall j | 0 <= j <= i + 1
          ensures derivesFromBase(mappings[j].from)
        {
          if j > 0 {
            assert mappings[j] == rest[j - 1];
          }
        }
        forall j | 0 <= j < i + 1
          ensures !isA(mappings[j].from)
        {
          if j > 0 {
            assert mappings[j] == rest[j - 1];
          }
        }
      }
      if Selects(derivesFromBase, isA, mappings, i + 1) {
        forall j | 0 <= j <= i
          ensures derivesFromBase(rest[j].from)
        {
          assert rest[j] == mappings[j + 1];
        }
        forall j | 0 <= j < i
          ensures !isA(rest[j].from)
        {
          assert rest[j] == mappings[j + 1];
        }
      }
    }
  }

  /** When every entry's class derives from `Base`, `map` finds nothing exactly
      when the object is-a none of them, and otherwise reports the tag of the
      first entry it is-a. */
  lemma MapAllDerived<C, T>(derivesFromBase: C -> bool, isA: C -> bool, mappings: seq<Mapping<C, T>>)
    requires forall j :: 0 <= j < |mappings| ==> derivesFromBase(mappings[j].from)
    ensures Map(derivesFromBase, isA, mappings) == None <==> forall j :: 0 <= j < |mappings| ==> !isA(mappings[j].from)
    ensures forall i :: 0 <= i < |mappings| && isA(mappings[i].from) && (forall j :: 0 <= j < i ==> !isA(mappings[j].from)) ==>
      Map(derivesFromBase, isA, mappings) == Some(mappings[i].target)
  {
    if exists k :: 0 <= k < |mappings| && isA(mappings[k].from) {
      var k :| 0 <= k < |mappings| && isA(mappings[k].from);
      var i := FirstMatch(isA, mappings, k);
      assert Selects(derivesFromBase, isA, mappings, i);
    }
  }

  /** The least index whose class the object is-a, given that `k` is one. */
  lemma {:induction false} FirstMatch<C, T>(isA: C -> bool, mappings: seq<Mapping<C, T>>, k: int) returns (i: int)
    requires 0 <= k < |mappings| && isA(mappings[k].from)
    ensures 0 <= i <= k && isA(mappings[i].from)
    ensures forall j :: 0 <= j < i ==> !isA(mappings[j].from)
    decreases k
  {
    if exists j :: 0 <= j < k && isA(mappings[j].from) {
      var j :| 0 <= j < k && isA(mappings[j].from);
      i := FirstMatch(isA, mappings, j);
    } else {
      i := k;
    }
  }

  /** Every entry derives from `Base` and the object is-a none of them, so the
      specialisation is chosen for each and each passes the query on. */
  predicate PassesOn<C, T>(derivesFromBase: C -> bool, isA: C -> bool, mappings: seq<Mapping<C, T>>) {
    forall j :: 0 <= j < |mappings| ==> derivesFromBase(mappings[j].from) && !isA(mappings[j].from)
  }

  /** Declaration order: `map` over `front + back` answers from `front` when
      `front` decides, consults `back` only when every entry of `front` passes
      the query on, and otherwise (an entry of `front` that does not derive from
      `Base` is reached) answers "no match" without looking at `back`. */
  lemma {:induction false} MapAppend<C, T>(derivesFromBase: C -> bool, isA: C -> bool, front: seq<Mapping<C, T>>, back: seq<Mapping<C, T>>)
    ensures Map(derivesFromBase, isA, front + back) ==
      if Map(derivesFromBase, isA, front).Some? then Map(derivesFromBase, isA, front)
      else if PassesOn(derivesFromBase, isA, front) then Map(derivesFromBase, isA, back)
      else None
    decreases |front|
  {
    if |front| == 0 {
      assert front + back == back;
    } else {
      assert (front + back)[0] == front[0];
      if derivesFromBase(front[0].from) && !isA(front[0].from) {
        assert (front + back)[1..] == front[1..] + back;
        MapAppend(derivesFromBase, isA, front[1..], back);
        PassesOnShift(derivesFromBase, isA, front);
      }
    }
  }

  /** A list whose first entry passes the query on passes it on exactly when
      the rest does. */
  lemma PassesOnShift<C, T>(derivesFromBase: C -> bool, isA: C -> bool, mappings: seq<Mapping<C, T>>)
    requires |mappings| > 0 && derivesFromBase(mappings[0].from) && !isA(mappings[0].from)
    ensures PassesOn(derivesFromBase, isA, mappings) <==> PassesOn(derivesFromBase, isA, mappings[1..])
  {
    if PassesOn(derivesFromBase, isA, mappings[1..]) {
      forall j | 0 <= j < |mappings|
        ensures derivesFromBase(mappings[j].from) && !isA(mappings[j].from)
      {
        if j > 0 {
          assert mappings[j] == mappings[1..][j - 1];
        }
      }
    }
  }
}
