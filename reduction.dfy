/** `_.reduce`: a left fold built on `each`. */
module Reduction {
  import opened Js
  import opened Traversal

  /** The left fold of `f` over `a`, starting from `acc`. */
  function Folded<T>(a: seq<T>, f: (Value, T) -> Value, acc: Value): Value
  {
    if a == [] then acc else f(Folded(a[..|a| - 1], f, acc), a[|a| - 1])
  }

  /** `initialValue || 0`: an omitted (undefined) or otherwise falsy seed
      becomes the number 0. */
  function Seed(initialValue: Value): Value
  {
    if Falsy(initialValue) then Num(0) else initialValue
  }

  /** The visitor `reduce` hands to `each`: it reassigns the accumulator. */
  function Accumulate<T>(f: (Value, T) -> Value): (Value, T, nat) -> Value
  {
    (result, value, index) => f(result, value)
  }

  lemma {:induction false} WalkIsFold<T>(a: seq<T>, f: (Value, T) -> Value, acc: Value)
    ensures Walk(a, Accumulate(f), acc) == Folded(a, f, acc)
  {
    if a != [] {
      WalkIsFold(a[..|a| - 1], f, acc);
    }
  }

  method Reduce<T>(collection: seq<T>, fn: (Value, T) -> Value, initialValue: Value) returns (result: Value)
    ensures result == Folded(collection, fn, Seed(initialValue))
    ensures Truthy(initialValue) && collection == [] ==> result == initialValue
    ensures Falsy(initialValue) && collection == [] ==> result == Num(0)
  {
    result := Seed(initialValue);
    result := Each(collection, Accumulate(fn), result);
    WalkIsFold(collection, fn, Seed(initialValue));
  }

  /** Folding a concatenation folds the second part from where the first
      one left off: the accumulator is threaded left to right. */
  lemma {:induction false} FoldedAppend<T>(a: seq<T>, b: seq<T>, f: (Value, T) -> Value, acc: Value)
    ensures Folded(a + b, f, acc) == Folded(b, f, Folded(a, f, acc))
  {
    if b == [] {
      assert a + b == a;
    } else {
      var b' := b[..|b| - 1];
      assert (a + b)[..|a + b| - 1] == a + b';
      FoldedAppend(a, b', f, acc);
    }
  }

  /** The documentation's iterator `(total, number) => total + number`, on numbers. */
  function Sum(total: Value, number: Value): Value
  {
    if total.Num? && number.Num? then Num(total.n + number.n) else Undefined
  }

  /** Summing `[1,2,3]` gives 6 with the seed 0 and also with no seed, and an
      empty collection returns its truthy seed unchanged. */
  lemma ReduceSumExamples()
    ensures Folded([Num(1), Num(2), Num(3)], Sum, Seed(Num(0))) == Num(6)
    ensures Folded([Num(1), Num(2), Num(3)], Sum, Seed(Undefined)) == Num(6)
    ensures Folded([], Sum, Seed(Num(10))) == Num(10)
  {
    var s := [Num(1), Num(2), Num(3)];
    assert s[..2] == [Num(1), Num(2)] && s[..2][..1] == [Num(1)] && s[..2][..1][..0] == [];
    assert Folded([Num(1)], Sum, Num(0)) == Num(1);
    assert Folded(s[..2], Sum, Num(0)) == Num(3);
  }
}
