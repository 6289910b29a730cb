/** `_.each`: the one traversal primitive every other operation goes
    through. The visitor's effect on the variables it closes over is made
    explicit: the visitor receives that state and returns the new one. */
module Traversal {
  import opened Seqs

  /** The state after visiting every element of `a` in index order,
      starting from `init`: the visitor sees the element and its index. */
  function Walk<T, S>(a: seq<T>, visit: (S, T, nat) -> S, init: S): S
  {
    if a == [] then init
    else visit(Walk(a[..|a| - 1], visit, init), a[|a| - 1], |a| - 1)
  }

  /** The array branch of `each`: an indexed loop that calls the visitor
      once per element. */
  method Each<T, S>(collection: seq<T>, visitor: (S, T, nat) -> S, init: S) returns (s: S)
    ensures s == Walk(collection, visitor, init)
  {
    s := init;
    for i := 0 to |collection|
      invariant s == Walk(collection[..i], visitor, init)
    {
      assert collection[..i + 1][..i] == collection[..i];
      s := visitor(s, collection[i], i);
    }
    assert collection[..|collection|] == collection;
  }

  /** A visitor that only records what it is shown. */
  function Record<T>(): (seq<(T, nat)>, T, nat) -> seq<(T, nat)>
  {
    (trace, value, index) => trace + [(value, index)]
  }

  /** Every element is visited exactly once, in index order, together with
      its own index. */
  lemma {:induction false} EachVisitsInOrder<T>(a: seq<T>)
    ensures |Walk(a, Record(), [])| == |a|
    ensures forall i :: 0 <= i < |a| ==> Walk(a, Record(), [])[i] == (a[i], i)
  {
    if a != [] {
      var init := a[..|a| - 1];
      EachVisitsInOrder(init);
      assert forall i :: 0 <= i < |init| ==> init[i] == a[i];
    }
  }

  /** The state after visiting the entries of `obj` in the order `keys`. */
  function WalkEntries<V, S>(obj: map<string, V>, keys: seq<string>, visit: (S, V, string) -> S, init: S): S
    requires forall i :: 0 <= i < |keys| ==> keys[i] in obj
  {
    if keys == [] then init
    else
      var last := keys[|keys| - 1];
      visit(WalkEntries(obj, keys[..|keys| - 1], visit, init), obj[last], last)
  }

  /** The object branch of `each`: a `for-in` loop. The engine picks the key
      order; whatever it picks, every key is visited exactly once, and the
      order actually taken is returned. */
  method EachEntry<V, S>(collection: map<string, V>, visitor: (S, V, string) -> S, init: S)
    returns (s: S, order: seq<string>)
    ensures Distinct(order)
    ensures forall key :: key in collection <==> key in order
    ensures forall i :: 0 <= i < |order| ==> order[i] in collection
    ensures s == WalkEntries(collection, order, visitor, init)
  {
    s, order := init, [];
    var remaining := collection.Keys;
    while remaining != {}
      invariant remaining <= collection.Keys
      invariant Distinct(order)
      invariant forall key :: key in collection <==> key in order || key in remaining
      invariant forall key :: key in order ==> key !in remaining
      invariant forall i :: 0 <= i < |order| ==> order[i] in collection
      invariant s == WalkEntries(collection, order, visitor, init)
      decreases remaining
    {
      var key :| key in remaining;
      assert (order + [key])[..|order|] == order;
      s := visitor(s, collection[key], key);
      order := order + [key];
      remaining := remaining - {key};
    }
  }
}
