/** `_.intersection` and `_.difference`, both of which flatten their
    arguments and count occurrences in the result. */
module SetAlgorithms {
  import opened Js
  import opened Seqs
  import opened Traversal
  import opened Predicates
  import opened Transforms
  import opened Flattening

  /** A value qualifies when `n >= 2` and it occurs at least `n` times in
      `flattened`. The running count starts at 1 for the value's own slot
      and is compared with `n` only after an increment, so `n` of 0 or 1
      is never reached. */
  function Recurs<T(==)>(flattened: seq<T>, n: int): T -> bool
  {
    value => 2 <= n <= multiset(flattened)[value]
  }

  /** The result of `intersection`: the qualifying values, once each, in
      order of first occurrence in the flattened arguments. */
  function Common<T(==)>(flattened: seq<T>, n: int): seq<T>
  {
    Deduped(Selected(flattened, Recurs(flattened, n)))
  }

  /** The result of `intersection` over the first `i` flattened values. */
  function CommonPrefix<T(==)>(flattened: seq<T>, n: int, i: nat): seq<T>
    requires i <= |flattened|
  {
    Deduped(Selected(flattened[..i], Recurs(flattened, n)))
  }

  lemma CommonStep<T>(flattened: seq<T>, n: int, i: nat)
    requires i < |flattened|
    ensures CommonPrefix(flattened, n, i + 1)
         == if 2 <= n <= multiset(flattened)[flattened[i]]
            then AddNew(CommonPrefix(flattened, n, i), flattened[i])
            else CommonPrefix(flattened, n, i)
  {
    var q := Recurs(flattened, n);
    var pre, x := flattened[..i], flattened[i];
    assert flattened[..i + 1] == pre + [x];
    SelectedSnoc(pre, x, q);
    var s := Selected(pre, q);
    assert q(x) == (2 <= n <= multiset(flattened)[x]);
    if q(x) {
      DedupedSnoc(s, x);
    } else {
      assert s + [] == s;
    }
  }

  /** Membership in the result: `n >= 2` and at least `n` occurrences. */
  lemma CommonMembers<T>(flattened: seq<T>, n: int)
    ensures forall x :: x in Common(flattened, n) ==> 2 <= n <= multiset(flattened)[x]
    ensures forall x :: 2 <= n <= multiset(flattened)[x] ==> x in Common(flattened, n)
    ensures Distinct(Common(flattened, n))
  {
    var q := Recurs(flattened, n);
    SelectedMembers(flattened, q);
    DedupedMembers(Selected(flattened, q));
    DedupedDistinct(Selected(flattened, q));
  }

  lemma CommonComplete<T>(flattened: seq<T>, n: int)
    ensures CommonPrefix(flattened, n, |flattened|) == Common(flattened, n)
    ensures forall x :: x in Common(flattened, n) ==> 2 <= n <= multiset(flattened)[x]
    ensures forall x :: 2 <= n <= multiset(flattened)[x] ==> x in Common(flattened, n)
    ensures Distinct(Common(flattened, n))
  {
    assert flattened[..|flattened|] == flattened;
    CommonMembers(flattened, n);
  }

  /** The visitor of the inner `each` of `intersection`, for the value at
      index `i`: it counts the other slots holding `value` and pushes `value`
      when the count becomes exactly `n` and `result.indexOf(value)` is -1. */
  function TallyVisitor<T(==)>(i: nat, value: T, n: int): ((int, seq<T>), T, nat) -> (int, seq<T>)
  {
    (state: (int, seq<T>), val: T, j: nat) =>
      if i != j && val == value then
        var count := state.0 + 1;
        (count, if count == n && FirstIndex(state.1, value) == -1 then state.1 + [value] else state.1)
      else state
  }

  lemma {:induction false} WalkTallies<T>(f: seq<T>, i: nat, n: int, before: seq<T>, j: nat)
    requires i < |f| && j <= |f|
    ensures Walk(f[..j], TallyVisitor(i, f[i], n), (1, before)).0
            == 1 + multiset(f[..j])[f[i]] - (if i < j then 1 else 0)
    ensures Walk(f[..j], TallyVisitor(i, f[i], n), (1, before)).1
            == if 2 <= n <= Walk(f[..j], TallyVisitor(i, f[i], n), (1, before)).0
               then AddNew(before, f[i]) else before
  {
    if j > 0 {
      WalkTallies(f, i, n, before, j - 1);
      assert f[..j][..j - 1] == f[..j - 1];
      assert f[..j] == f[..j - 1] + [f[j - 1]];
      if i < j - 1 {
        assert f[..j - 1][i] == f[i];
      }
      var (count, result) := Walk(f[..j - 1], TallyVisitor(i, f[i], n), (1, before));
      assert count >= 1;
      assert FirstIndex(before, f[i]) == -1 <==> f[i] !in before;
    }
  }

  /** `intersection(...args)`. */
  method Intersection<T(==)>(args: seq<Nested<T>>) returns (result: seq<T>)
    ensures result == Common(Leaves(args), |args|)
    ensures forall x :: x in result ==> 2 <= |args| <= multiset(Leaves(args))[x]
    ensures forall x :: 2 <= |args| <= multiset(Leaves(args))[x] ==> x in result
    ensures Distinct(result)
    ensures forall i, j :: 0 <= i < j < |result| ==>
              FirstIndex(Leaves(args), result[i]) < FirstIndex(Leaves(args), result[j])
  {
    var flat := Flatten(args, null);
    var flattened := flat.items;
    var n := |args|;
    result := [];
    for i := 0 to |flattened|
      invariant result == CommonPrefix(flattened, n, i)
    {
      var value := flattened[i];
      var count := 1;
      var state := Each(flattened, TallyVisitor(i, value, n), (count, result));
      count, result := state.0, state.1;
      WalkTallies(flattened, i, n, CommonPrefix(flattened, n, i), |flattened|);
      assert flattened[..|flattened|] == flattened;
      CommonStep(flattened, n, i);
    }
    CommonComplete(flattened, n);
    CommonOrder(flattened, Recurs(flattened, n));
  }

  /** The values kept by a test, once each, come in the order of their first
      occurrence in the whole input, not just among the kept ones. */
  lemma {:induction false} CommonOrder<T>(f: seq<T>, q: T -> bool)
    ensures forall i, j :: 0 <= i < j < |Deduped(Selected(f, q))| ==>
              FirstIndex(f, Deduped(Selected(f, q))[i]) < FirstIndex(f, Deduped(Selected(f, q))[j])
  {
    if f != [] {
      var init, x := f[..|f| - 1], f[|f| - 1];
      CommonOrder(init, q);
      assert f == init + [x];
      CommonOrderStep(init, x, q);
    }
  }

  lemma {:induction false} CommonOrderStep<T>(init: seq<T>, x: T, q: T -> bool)
    requires forall i, j :: 0 <= i < j < |Deduped(Selected(init, q))| ==>
               FirstIndex(init, Deduped(Selected(init, q))[i]) < FirstIndex(init, Deduped(Selected(init, q))[j])
    ensures forall i, j :: 0 <= i < j < |Deduped(Selected(init + [x], q))| ==>
              FirstIndex(init + [x], Deduped(Selected(init + [x], q))[i])
              < FirstIndex(init + [x], Deduped(Selected(init + [x], q))[j])
  {
    var f := init + [x];
    var kept := Selected(init, q);
    var before := Deduped(kept);
    SelectedSnoc(init, x, q);
    SelectedMembers(init, q);
    DedupedMembers(kept);
    forall y | y in before
      ensures FirstIndex(f, y) == FirstIndex(init, y) < |init|
    {
      FirstIndexExtend(init, x, y);
    }
    var after := Deduped(Selected(f, q));
    if q(x) {
      DedupedSnoc(kept, x);
    }
    if q(x) && x !in before {
      assert x !in init;
      assert FirstIndex(f, x) == |init|;
      assert after == before + [x];
      forall i, j | 0 <= i < j < |after|
        ensures FirstIndex(f, after[i]) < FirstIndex(f, after[j])
      {
        assert after[i] == before[i] && before[i] in before;
        if j < |before| {
          assert after[j] == before[j] && before[j] in before;
        }
      }
    } else {
      if !q(x) {
        assert Selected(f, q) == kept;
      }
      assert after == before;
      forall i, j | 0 <= i < j < |after|
        ensures FirstIndex(f, after[i]) < FirstIndex(f, after[j])
      {
        assert after[i] in before && after[j] in before;
      }
    }
  }

  /** A single argument (or none) gives `[]`: the count is never compared with 1. */
  lemma IntersectionOfOne<T>(flattened: seq<T>, n: int)
    requires n < 2
    ensures Common(flattened, n) == []
  {
    SelectedNone(flattened, Recurs(flattened, n));
  }

  /** Swapping two arguments may reorder the result but not change its members. */
  lemma IntersectionSymmetric<T>(a: Nested<T>, b: Nested<T>)
    ensures forall x :: x in Common(Leaves([a, b]), 2) ==> x in Common(Leaves([b, a]), 2)
    ensures forall x :: x in Common(Leaves([b, a]), 2) ==> x in Common(Leaves([a, b]), 2)
  {
    LeavesSwap(a, b);
    CommonOfPermutation(Leaves([a, b]), Leaves([b, a]), 2);
    CommonOfPermutation(Leaves([b, a]), Leaves([a, b]), 2);
  }

  lemma LeavesSwap<T>(a: Nested<T>, b: Nested<T>)
    ensures multiset(Leaves([a, b])) == multiset(Leaves([b, a]))
  {
    LeavesPair(a, b);
    LeavesPair(b, a);
  }

  /** Only the occurrence counts of the flattened arguments matter for membership. */
  lemma CommonOfPermutation<T>(f: seq<T>, g: seq<T>, n: int)
    requires multiset(f) == multiset(g)
    ensures forall x :: x in Common(f, n) ==> x in Common(g, n)
  {
    CommonMembers(f, n);
    CommonMembers(g, n);
  }

  /** Occurrences are counted over all arguments together, so a value
      repeated inside one argument qualifies: `intersection([1,1],[2])` is `[1]`. */
  lemma IntersectionCountsDuplicates()
    ensures Common(Leaves([List([Leaf(1), Leaf(1)]), List([Leaf(2)])]), 2) == [1]
  {
    LeavesOfOneOneTwo();
    CommonOfOneOneTwo();
  }

  lemma LeavesOfOneOneTwo()
    ensures Leaves([List([Leaf(1), Leaf(1)]), List([Leaf(2)])]) == [1, 1, 2]
  {
    LeavesPair(List([Leaf(1), Leaf(1)]), List([Leaf(2)]));
    LeavesPair(Leaf(1), Leaf(1));
    LeavesSingle(Leaf(2));
  }

  lemma CommonOfOneOneTwo()
    ensures Common([1, 1, 2], 2) == [1]
  {
    var f := [1, 1, 2];
    var q := Recurs(f, 2);
    assert multiset(f)[1] == 2 && multiset(f)[2] == 1;
    assert q(1) && !q(2);
    SelectedSnoc([], 1, q);
    SelectedSnoc([1], 1, q);
    SelectedSnoc([1, 1], 2, q);
    assert Selected(f, q) == [1, 1];
    DedupedSnoc([], 1);
    DedupedSnoc([1], 1);
  }

  /** Example: `intersection([1,2,3],[2,3,4],[3,4,5])` is `[3]`. */
  lemma IntersectionExample()
    ensures Common(Leaves([List([Leaf(1), Leaf(2), Leaf(3)]), List([Leaf(2), Leaf(3), Leaf(4)]),
                           List([Leaf(3), Leaf(4), Leaf(5)])]), 3) == [3]
  {
    var a, b, c := List([Leaf(1), Leaf(2), Leaf(3)]), List([Leaf(2), Leaf(3), Leaf(4)]), List([Leaf(3), Leaf(4), Leaf(5)]);
    LeavesOfRow(1, 2, 3);
    LeavesOfRow(2, 3, 4);
    LeavesOfRow(3, 4, 5);
    LeavesSingle(c);
    LeavesPair(a, b);
    LeavesAppend([a, b], [c]);
    assert [a, b] + [c] == [a, b, c];
    var f := [1, 2, 3] + [2, 3, 4] + [3, 4, 5];
    assert Leaves([a, b, c]) == f;
    OnlyThree(f);
  }

  lemma LeavesOfRow(x: int, y: int, z: int)
    ensures LeavesOf(List([Leaf(x), Leaf(y), Leaf(z)])) == [x, y, z]
  {
    var row := [Leaf(x), Leaf(y), Leaf(z)];
    assert row == Flat([x, y, z]);
    FlattenFlat([x, y, z]);
  }

  lemma OnlyThree(f: seq<int>)
    requires f == [1, 2, 3] + [2, 3, 4] + [3, 4, 5]
    ensures Common(f, 3) == [3]
  {
    ExampleCounts(f);
    var q := Recurs(f, 3);
    var kept := Selected(f, q);
    SelectedMembers(f, q);
    assert 3 in f && q(3);
    assert 3 in kept;
    forall i | 0 <= i < |kept|
      ensures kept[i] == 3
    {
      assert kept[i] in kept;
    }
    DedupedConstant(kept, 3);
  }

  lemma ExampleCounts(f: seq<int>)
    requires f == [1, 2, 3] + [2, 3, 4] + [3, 4, 5]
    ensures multiset(f)[3] == 3
    ensures forall x :: x != 3 ==> multiset(f)[x] < 3
  {
    assert multiset(f) == multiset([1, 2, 3]) + multiset([2, 3, 4]) + multiset([3, 4, 5]);
    forall x
      ensures multiset(f)[x] == Hits(1, 2, 3, x) + Hits(2, 3, 4, x) + Hits(3, 4, 5, x)
    {
      CountOfThree(1, 2, 3, x);
      CountOfThree(2, 3, 4, x);
      CountOfThree(3, 4, 5, x);
    }
  }

  /** How many of `a`, `b`, `c` equal `x`. */
  function Hits(a: int, b: int, c: int, x: int): nat
  {
    (if a == x then 1 else 0) + (if b == x then 1 else 0) + (if c == x then 1 else 0)
  }

  lemma CountOfThree(a: int, b: int, c: int, x: int)
    ensures multiset([a, b, c])[x] == Hits(a, b, c, x)
  {
    assert multiset([a, b, c]) == multiset{a} + multiset{b} + multiset{c};
  }

  /** Removing duplicates from a non-empty run of one value leaves that value once. */
  lemma {:induction false} DedupedConstant<T>(a: seq<T>, v: T)
    requires |a| > 0
    requires forall i :: 0 <= i < |a| ==> a[i] == v
    ensures Deduped(a) == [v]
  {
    var init := a[..|a| - 1];
    if init != [] {
      DedupedConstant(init, v);
    }
  }

  /** The predicate `difference` keeps: the value occurs once in `first`
      and nowhere among the other arrays' leaves. */
  function OnlyOnceIn<T(==)>(first: seq<T>, others: seq<T>): T -> bool
  {
    value => multiset(first)[value] == 1 && value !in others
  }

  /** `difference(first, ...rest)`: intersect `first` with the flattened
      rest, then keep the elements of `first` that the intersection lacks. */
  method Difference<T(==)>(first: seq<T>, rest: seq<Nested<T>>) returns (result: seq<T>)
    ensures result == Selected(first, OnlyOnceIn(first, Leaves(rest)))
    ensures forall x :: x in result ==> x in first && multiset(first)[x] == 1 && x !in Leaves(rest)
  {
    var flat := Flatten(rest, null);
    var flattened := flat.items;
    var intersected := Intersection([List(Flat(first)), List(Flat(flattened))]);
    var absent := value => FirstIndex(intersected, value) == -1;
    result := Each(first, KeepVisitor(absent), []);
    WalkSelects(first, absent);
    assert Leaves([List(Flat(first)), List(Flat(flattened))]) == first + flattened by {
      LeavesPair(List(Flat(first)), List(Flat(flattened)));
      FlattenFlat(first);
      FlattenFlat(flattened);
    }
    forall i | 0 <= i < |first|
      ensures absent(first[i]) == OnlyOnceIn(first, Leaves(rest))(first[i])
    {
      var v := first[i];
      assert v in first;
      assert multiset(first + flattened)[v] == multiset(first)[v] + multiset(flattened)[v];
    }
    SelectedCongruent(first, absent, OnlyOnceIn(first, Leaves(rest)));
    SelectedMembers(first, OnlyOnceIn(first, Leaves(rest)));
  }

  /** With no other arrays, a duplicate-free first array comes back unchanged. */
  lemma DifferenceAlone<T>(first: seq<T>)
    requires Distinct(first)
    ensures Selected(first, OnlyOnceIn(first, Leaves([]))) == first
  {
    forall i | 0 <= i < |first|
      ensures multiset(first)[first[i]] == 1
    {
      DistinctOnce(first, i);
    }
    SelectedAll(first, OnlyOnceIn(first, Leaves([])));
  }

  lemma {:induction false} DistinctOnce<T>(s: seq<T>, i: nat)
    requires Distinct(s) && i < |s|
    ensures multiset(s)[s[i]] == 1
  {
    var init, x := s[..|s| - 1], s[|s| - 1];
    assert s == init + [x];
    assert forall k :: 0 <= k < |init| ==> init[k] == s[k];
    if i == |s| - 1 {
      assert x !in init by {
        forall k | 0 <= k < |init|
          ensures init[k] != x
        {
          assert s[k] != s[|s| - 1];
        }
      }
    } else {
      DistinctOnce(init, i);
      assert x != s[i];
    }
  }

  /** A value repeated inside the first array is dropped, even with no
      other arrays: `difference([1,1])` is `[]`. */
  lemma DifferenceDropsRepeats<T>(first: seq<T>, rest: seq<Nested<T>>, x: T)
    requires multiset(first)[x] >= 2
    ensures x !in Selected(first, OnlyOnceIn(first, Leaves(rest)))
  {
    SelectedMembers(first, OnlyOnceIn(first, Leaves(rest)));
  }

  /** The comment above `difference` says the elements present in just the
      first array remain, but `difference([1,1])` is `[]`. */
  lemma DifferenceOfRepeat()
    ensures Selected([1, 1], OnlyOnceIn([1, 1], Leaves([]))) == []
  {
    var keep := OnlyOnceIn([1, 1], Leaves([]));
    assert multiset([1, 1])[1] == 2;
    SelectedNone([1, 1], keep);
  }
}
