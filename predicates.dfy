/** The predicate algorithms: `indexOf`, `filter`, `reject`, `contains`,
    `every` and `some`, each built on `each` or on `reduce`. */
module Predicates {
  import opened Js
  import opened Traversal
  import opened Reduction

  /** The smallest index holding `target`, or -1 when there is none. Read
      left to right it keeps the first match and ignores later ones, as the
      `foundIndex == -1` guard does. */
  function FirstIndex<T(==)>(a: seq<T>, target: T): (r: int)
    ensures -1 <= r < |a|
    ensures r == -1 <==> target !in a
    ensures 0 <= r ==> a[r] == target && target !in a[..r]
  {
    if a == [] then -1
    else
      var found := FirstIndex(a[..|a| - 1], target);
      if found == -1 && a[|a| - 1] == target then |a| - 1 else found
  }

  /** Looking `target` up in `a + [x]` finds the same index as in `a` when
      `a` already holds it. */
  lemma FirstIndexExtend<T>(a: seq<T>, x: T, target: T)
    requires target in a
    ensures FirstIndex(a + [x], target) == FirstIndex(a, target)
  {
    assert (a + [x])[..|a|] == a;
  }

  /** The visitor of `indexOf`: records an index only while none is recorded. */
  function FindVisitor<T(==)>(target: T): (int, T, nat) -> int
  {
    (foundIndex, value, index) => if value == target && foundIndex == -1 then index else foundIndex
  }

  lemma {:induction false} WalkFinds<T>(a: seq<T>, target: T)
    ensures Walk(a, FindVisitor(target), -1) == FirstIndex(a, target)
  {
    if a != [] {
      WalkFinds(a[..|a| - 1], target);
    }
  }

  method IndexOf<T(==)>(arr: seq<T>, target: T) returns (foundIndex: int)
    ensures foundIndex == FirstIndex(arr, target)
    ensures foundIndex == -1 <==> target !in arr
    ensures foundIndex != -1 ==> 0 <= foundIndex < |arr| && arr[foundIndex] == target
                                 && forall i :: 0 <= i < foundIndex ==> arr[i] != target
  {
    foundIndex := Each(arr, FindVisitor(target), -1);
    WalkFinds(arr, target);
    if foundIndex != -1 {
      assert forall i :: 0 <= i < foundIndex ==> arr[..foundIndex][i] == arr[i];
    }
  }

  /** The elements of `a` for which `keep` holds, in their original order. */
  function Selected<T>(a: seq<T>, keep: T -> bool): seq<T>
  {
    if a == [] then []
    else Selected(a[..|a| - 1], keep) + (if keep(a[|a| - 1]) then [a[|a| - 1]] else [])
  }

  lemma SelectedSnoc<T>(a: seq<T>, x: T, keep: T -> bool)
    ensures Selected(a + [x], keep) == Selected(a, keep) + (if keep(x) then [x] else [])
  {
    assert (a + [x])[..|a|] == a;
  }

  /** The visitor of `filter`: pushes the values that pass the test. */
  function KeepVisitor<T>(keep: T -> bool): (seq<T>, T, nat) -> seq<T>
  {
    (resultsArray, value, index) => if keep(value) then resultsArray + [value] else resultsArray
  }

  lemma {:induction false} WalkSelects<T>(a: seq<T>, keep: T -> bool)
    ensures Walk(a, KeepVisitor(keep), []) == Selected(a, keep)
  {
    if a != [] {
      WalkSelects(a[..|a| - 1], keep);
    }
  }

  method Filter<T>(collection: seq<T>, test: T -> bool) returns (resultsArray: seq<T>)
    ensures resultsArray == Selected(collection, test)
  {
    resultsArray := Each(collection, KeepVisitor(test), []);
    WalkSelects(collection, test);
  }

  /** The negated test `reject` passes on to `filter`. */
  function Negate<T>(test: T -> bool): T -> bool
  {
    value => !test(value)
  }

  method Reject<T>(collection: seq<T>, test: T -> bool) returns (resultsArray: seq<T>)
    ensures resultsArray == Selected(collection, Negate(test))
  {
    resultsArray := Filter(collection, Negate(test));
  }

  /** Exactly the elements that pass the test are kept. */
  lemma {:induction false} SelectedMembers<T>(a: seq<T>, keep: T -> bool)
    ensures forall x :: x in Selected(a, keep) ==> x in a && keep(x)
    ensures forall x :: x in a && keep(x) ==> x in Selected(a, keep)
  {
    if a != [] {
      var init := a[..|a| - 1];
      SelectedMembers(init, keep);
      assert a == init + [a[|a| - 1]];
    }
  }

  /** Selection preserves the original order: it distributes over concatenation. */
  lemma {:induction false} SelectedAppend<T>(a: seq<T>, b: seq<T>, keep: T -> bool)
    ensures Selected(a + b, keep) == Selected(a, keep) + Selected(b, keep)
  {
    if b == [] {
      assert a + b == a;
    } else {
      var b' := b[..|b| - 1];
      assert (a + b)[..|a + b| - 1] == a + b';
      SelectedAppend(a, b', keep);
    }
  }

  /** `filter` and `reject` with the same test split the input: every
      occurrence lands in exactly one of the two results. */
  lemma {:induction false} FilterRejectPartition<T>(a: seq<T>, test: T -> bool)
    ensures multiset(Selected(a, test)) + multiset(Selected(a, Negate(test))) == multiset(a)
    ensures |Selected(a, test)| + |Selected(a, Negate(test))| == |a|
  {
    if a != [] {
      var init, x := a[..|a| - 1], a[|a| - 1];
      FilterRejectPartition(init, test);
      assert a == init + [x];
      PartitionStep(init, x, test);
    }
  }

  /** One more element goes to exactly one side of the partition. */
  lemma {:induction false} PartitionStep<T>(init: seq<T>, x: T, test: T -> bool)
    requires multiset(Selected(init, test)) + multiset(Selected(init, Negate(test))) == multiset(init)
    requires |Selected(init, test)| + |Selected(init, Negate(test))| == |init|
    ensures multiset(Selected(init + [x], test)) + multiset(Selected(init + [x], Negate(test))) == multiset(init + [x])
    ensures |Selected(init + [x], test)| + |Selected(init + [x], Negate(test))| == |init + [x]|
  {
    SelectedSnoc(init, x, test);
    SelectedSnoc(init, x, Negate(test));
    assert Negate(test)(x) == !test(x);
  }

  /** Nothing is dropped when every element passes. */
  lemma {:induction false} SelectedAll<T>(a: seq<T>, keep: T -> bool)
    requires forall i :: 0 <= i < |a| ==> keep(a[i])
    ensures Selected(a, keep) == a
  {
    if a != [] {
      SelectedAll(a[..|a| - 1], keep);
    }
  }

  /** Nothing is kept when no element passes. */
  lemma {:induction false} SelectedNone<T>(a: seq<T>, keep: T -> bool)
    requires forall i :: 0 <= i < |a| ==> !keep(a[i])
    ensures Selected(a, keep) == []
  {
    if a != [] {
      SelectedNone(a[..|a| - 1], keep);
    }
  }

  /** Two tests that agree on the elements of `a` select the same elements. */
  lemma {:induction false} SelectedCongruent<T>(a: seq<T>, p: T -> bool, q: T -> bool)
    requires forall i :: 0 <= i < |a| ==> p(a[i]) == q(a[i])
    ensures Selected(a, p) == Selected(a, q)
  {
    if a != [] {
      SelectedCongruent(a[..|a| - 1], p, q);
    }
  }

  /** The combiner of `contains`: once found, stay found. */
  function FoundOr<T(==)>(target: T): (Value, T) -> Value
  {
    (wasFound, item) => if Truthy(wasFound) then Bool(true) else Bool(item == target)
  }

  lemma {:induction false} FoldFinds<T>(a: seq<T>, target: T)
    ensures Folded(a, FoundOr(target), Num(0)) == if a == [] then Num(0) else Bool(target in a)
  {
    if a != [] {
      var init := a[..|a| - 1];
      FoldFinds(init, target);
      assert a == init + [a[|a| - 1]];
    }
  }

  /** `contains` reduces with the seed `false`, which is falsy and therefore
      replaced by 0: an empty collection yields the number 0, not `false`. */
  function Contains<T(==)>(collection: seq<T>, target: T): (r: Value)
    ensures collection == [] ==> r == Num(0)
    ensures collection != [] ==> r == Bool(target in collection)
  {
    FoldFinds(collection, target);
    Folded(collection, FoundOr(target), Seed(Bool(false)))
  }

  /** The combiner of `every`: `(wasTrue && test(item)) ? true : false`. */
  function BothTrue<T>(test: T -> bool): (Value, T) -> Value
  {
    (wasTrue, item) => Bool(Truthy(wasTrue) && test(item))
  }

  lemma {:induction false} FoldAll<T>(a: seq<T>, test: T -> bool)
    ensures Folded(a, BothTrue(test), Bool(true)) == Bool(forall i :: 0 <= i < |a| ==> test(a[i]))
  {
    if a != [] {
      var init := a[..|a| - 1];
      FoldAll(init, test);
      assert forall i :: 0 <= i < |init| ==> init[i] == a[i];
    }
  }

  /** `every` with a test: true on an empty collection, otherwise true
      exactly when every element passes. */
  function Every<T>(collection: seq<T>, test: T -> bool): (r: Value)
    ensures r == Bool(forall i :: 0 <= i < |collection| ==> test(collection[i]))
  {
    FoldAll(collection, test);
    Folded(collection, BothTrue(test), Seed(Bool(true)))
  }

  /** `every` without a test uses the truthiness of the elements themselves. */
  function EveryTruthy(collection: seq<Value>): (r: Value)
    ensures r == Bool(forall i :: 0 <= i < |collection| ==> Truthy(collection[i]))
  {
    Every(collection, Truthy)
  }

  function IsFalse(item: bool): bool
  {
    !item
  }

  /** `some` without a test, on booleans: it asks `every` whether every item
      is false and answers the opposite. */
  function AnyTrue(flags: seq<bool>): (r: Value)
    ensures r == Bool(exists i :: 0 <= i < |flags| && flags[i])
  {
    if Truthy(Every(flags, IsFalse)) then Bool(false) else Bool(true)
  }

  /** `some` with a test first maps the test over the collection. False on
      an empty collection, otherwise true exactly when an element passes. */
  function Any<T>(collection: seq<T>, test: T -> bool): (r: Value)
    ensures r == Bool(exists i :: 0 <= i < |collection| && test(collection[i]))
  {
    var flags := seq(|collection|, i requires 0 <= i < |collection| => test(collection[i]));
    assert forall i :: 0 <= i < |collection| ==> flags[i] == test(collection[i]);
    AnyTrue(flags)
  }
}
