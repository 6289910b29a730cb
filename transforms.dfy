/** The transform algorithms: `map` and `uniq`, built on `each`. */
module Transforms {
  import opened Seqs
  import opened Traversal
  import opened Predicates

  /** The visitor of `map`: pushes the transformed value. */
  function PushVisitor<T, U>(transform: T -> U): (seq<U>, T, nat) -> seq<U>
  {
    (resultsArray, value, index) => resultsArray + [transform(value)]
  }

  lemma {:induction false} WalkMaps<T, U>(a: seq<T>, transform: T -> U)
    ensures |Walk(a, PushVisitor(transform), [])| == |a|
    ensures forall i :: 0 <= i < |a| ==> Walk(a, PushVisitor(transform), [])[i] == transform(a[i])
  {
    if a != [] {
      var init := a[..|a| - 1];
      WalkMaps(init, transform);
      assert forall i :: 0 <= i < |init| ==> init[i] == a[i];
    }
  }

  /** `map`: same length and order as the input, each element transformed. */
  method Map<T, U>(arr: seq<T>, transform: T -> U) returns (resultsArray: seq<U>)
    ensures |resultsArray| == |arr|
    ensures forall i :: 0 <= i < |arr| ==> resultsArray[i] == transform(arr[i])
  {
    resultsArray := Each(arr, PushVisitor(transform), []);
    WalkMaps(arr, transform);
  }

  /** `r` with `x` appended unless `r` already holds it. */
  function AddNew<T(==)>(r: seq<T>, x: T): seq<T>
  {
    if x in r then r else r + [x]
  }

  /** The first occurrence of each distinct value of `a`, in order. */
  function Deduped<T(==)>(a: seq<T>): seq<T>
  {
    if a == [] then [] else AddNew(Deduped(a[..|a| - 1]), a[|a| - 1])
  }

  lemma DedupedSnoc<T>(a: seq<T>, x: T)
    ensures Deduped(a + [x]) == AddNew(Deduped(a), x)
  {
    assert (a + [x])[..|a|] == a;
  }

  /** The visitor of `uniq`: pushes a value when `indexOf` does not find it
      among the values pushed so far. */
  function UniqVisitor<T(==)>(): (seq<T>, T, nat) -> seq<T>
  {
    (resultsArray, value, index) =>
      if FirstIndex(resultsArray, value) == -1 then resultsArray + [value] else resultsArray
  }

  lemma {:induction false} WalkDedups<T>(a: seq<T>)
    ensures Walk(a, UniqVisitor(), []) == Deduped(a)
  {
    if a != [] {
      WalkDedups(a[..|a| - 1]);
    }
  }

  /** The values of `Deduped(a)` are exactly those of `a`. */
  lemma {:induction false} DedupedMembers<T>(a: seq<T>)
    ensures forall x :: x in Deduped(a) ==> x in a
    ensures forall x :: x in a ==> x in Deduped(a)
  {
    if a != [] {
      var init := a[..|a| - 1];
      DedupedMembers(init);
      assert a == init + [a[|a| - 1]];
    }
  }

  lemma {:induction false} DedupedDistinct<T>(a: seq<T>)
    ensures Distinct(Deduped(a))
  {
    if a != [] {
      DedupedDistinct(a[..|a| - 1]);
    }
  }

  /** A duplicate-free sequence is left as it is. */
  lemma {:induction false} DedupedOfDistinct<T>(a: seq<T>)
    requires Distinct(a)
    ensures Deduped(a) == a
  {
    if a != [] {
      var init, x := a[..|a| - 1], a[|a| - 1];
      assert forall i :: 0 <= i < |init| ==> init[i] == a[i];
      DedupedOfDistinct(init);
      assert x !in init by {
        forall k | 0 <= k < |init|
          ensures init[k] != x
        {
          assert a[k] != a[|a| - 1];
        }
      }
      assert a == init + [x];
    }
  }

  /** The values appear in the order of their first occurrence in `a`. */
  lemma {:induction false} DedupedOrder<T>(a: seq<T>)
    ensures forall i, j :: 0 <= i < j < |Deduped(a)| ==>
              FirstIndex(a, Deduped(a)[i]) < FirstIndex(a, Deduped(a)[j])
  {
    if a != [] {
      var init, x := a[..|a| - 1], a[|a| - 1];
      DedupedOrder(init);
      assert a == init + [x];
      DedupedOrderStep(init, x);
    }
  }

  lemma DedupedOrderStep<T>(init: seq<T>, x: T)
    requires forall i, j :: 0 <= i < j < |Deduped(init)| ==>
               FirstIndex(init, Deduped(init)[i]) < FirstIndex(init, Deduped(init)[j])
    ensures forall i, j :: 0 <= i < j < |Deduped(init + [x])| ==>
              FirstIndex(init + [x], Deduped(init + [x])[i]) < FirstIndex(init + [x], Deduped(init + [x])[j])
  {
    var a := init + [x];
    assert a[..|a| - 1] == init;
    DedupedMembers(init);
    forall y | y in Deduped(init)
      ensures FirstIndex(a, y) == FirstIndex(init, y)
    {
      FirstIndexExtend(init, x, y);
    }
    if x !in Deduped(init) {
      assert FirstIndex(a, x) == |init|;
    }
  }

  /** `uniq`: each distinct input value exactly once, in order of first occurrence. */
  method Uniq<T(==)>(arr: seq<T>) returns (resultsArray: seq<T>)
    ensures resultsArray == Deduped(arr)
    ensures Distinct(resultsArray)
    ensures forall x :: x in resultsArray <==> x in arr
  {
    resultsArray := Each(arr, UniqVisitor(), []);
    WalkDedups(arr);
    DedupedDistinct(arr);
    DedupedMembers(arr);
  }

  /** `uniq(uniq(a))` equals `uniq(a)`. */
  lemma UniqIdempotent<T>(a: seq<T>)
    ensures Deduped(Deduped(a)) == Deduped(a)
  {
    DedupedDistinct(a);
    DedupedOfDistinct(Deduped(a));
  }
}
