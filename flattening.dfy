/** `_.flatten`: depth-first flattening of nested arrays into an
    accumulator array that is extended in place. */
module Flattening {
  import opened Js

  /** An element of a nested array: a non-array value, or an array. */
  datatype Nested<T> = Leaf(value: T) | List(elements: seq<Nested<T>>)

  /** The non-array values of `ns`, depth first and left to right. */
  function Leaves<T>(ns: seq<Nested<T>>): seq<T>
    decreases ns
  {
    if ns == [] then [] else Leaves(ns[..|ns| - 1]) + LeavesOf(ns[|ns| - 1])
  }

  function LeavesOf<T>(n: Nested<T>): seq<T>
    decreases n
  {
    match n
    case Leaf(x) => [x]
    case List(c) => Leaves(c)
  }

  /** A flat JavaScript array seen as a nested one: every element a leaf. */
  function Flat<T>(s: seq<T>): seq<Nested<T>>
  {
    seq(|s|, i requires 0 <= i < |s| => Leaf(s[i]))
  }

  /** `flatten(nestedArray, result)`: a missing accumulator is replaced by a
      new empty array; a supplied one keeps its contents, gets the leaves
      appended and is the array returned. */
  method Flatten<T>(nestedArray: seq<Nested<T>>, result: JsArray?<T>) returns (r: JsArray<T>)
    modifies result
    ensures result != null ==> r == result
    ensures result == null ==> fresh(r)
    ensures r.items == (if result == null then [] else old(result.items)) + Leaves(nestedArray)
    decreases nestedArray
  {
    if result == null {
      r := new JsArray();
    } else {
      r := result;
    }
    ghost var prefix := r.items;
    for i := 0 to |nestedArray|
      invariant result != null ==> r == result
      invariant result == null ==> fresh(r)
      invariant r.items == prefix + Leaves(nestedArray[..i])
    {
      assert nestedArray[..i + 1][..i] == nestedArray[..i];
      match nestedArray[i]
      case List(c) =>
        var same := Flatten(c, r);
      case Leaf(x) =>
        r.Push(x);
    }
    assert nestedArray[..|nestedArray|] == nestedArray;
  }

  /** Flattening a concatenation concatenates the flattenings. */
  lemma {:induction false} LeavesAppend<T>(a: seq<Nested<T>>, b: seq<Nested<T>>)
    ensures Leaves(a + b) == Leaves(a) + Leaves(b)
  {
    if b == [] {
      assert a + b == a;
    } else {
      var b' := b[..|b| - 1];
      assert (a + b)[..|a + b| - 1] == a + b';
      LeavesAppend(a, b');
    }
  }

  /** The leaves of a two-element array: those of the first element, then
      those of the second. */
  lemma LeavesPair<T>(a: Nested<T>, b: Nested<T>)
    ensures Leaves([a, b]) == LeavesOf(a) + LeavesOf(b)
  {
    assert [a, b][..1] == [a];
    LeavesSingle(a);
  }

  lemma LeavesSingle<T>(a: Nested<T>)
    ensures Leaves([a]) == LeavesOf(a)
  {
    assert [a][..0] == [];
    assert Leaves([a]) == Leaves([]) + LeavesOf(a);
  }

  /** Flattening an already flat array gives an equal copy; in particular
      flattening the output of `flatten` again changes nothing. */
  lemma {:induction false} FlattenFlat<T>(s: seq<T>)
    ensures Leaves(Flat(s)) == s
  {
    if s != [] {
      var init := s[..|s| - 1];
      FlattenFlat(init);
      assert Flat(s)[..|s| - 1] == Flat(init);
    }
  }

  /** Example: `[1, [2], [3, [[[4]]]]]` flattens to `[1, 2, 3, 4]`. */
  lemma FlattenExample()
    ensures Leaves([Leaf(1), List([Leaf(2)]), List([Leaf(3), List([List([List([Leaf(4)])])])])]) == [1, 2, 3, 4]
  {
    var deep: Nested<int> := List([List([Leaf(4)])]);
    assert Leaves([deep]) == [4] by {
      assert Leaves([Leaf(4)]) == [4];
      assert Leaves([List([Leaf(4)])]) == [4];
    }
    var third := [Leaf(3), List([deep])];
    assert Leaves(third) == [3, 4] by {
      assert third[..1] == [Leaf(3)];
      assert Leaves([Leaf(3)]) == [3];
    }
    var top := [Leaf(1), List([Leaf(2)]), List(third)];
    assert top[..2] == [Leaf(1), List([Leaf(2)])];
    assert top[..2][..1] == [Leaf(1)];
    assert Leaves([Leaf(1)]) == [1];
    assert Leaves([Leaf(2)]) == [2];
  }
}
