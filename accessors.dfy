/** The accessor helpers `first`, `last` and `pluck`. */
module Accessors {
  import opened Wrappers
  import opened Js
  import opened Transforms

  /** How `Array.prototype.slice` turns a relative index into a position:
      a negative index counts from the end, and the result is clamped to
      `0..len`. */
  function SliceIndex(len: nat, relative: int): (k: nat)
    ensures k <= len
  {
    if relative < 0 then (if len + relative < 0 then 0 else len + relative)
    else (if relative > len then len else relative)
  }

  /** `arr.slice(start, end)`. */
  function Slice<T>(arr: seq<T>, start: int, end: int): seq<T>
  {
    var from, to := SliceIndex(|arr|, start), SliceIndex(|arr|, end);
    if from < to then arr[from..to] else []
  }

  /** `first(array)`: the first element, `undefined` for an empty array.
      It agrees with the other form: `first(array, 1)` holds exactly it. */
  function First<T>(arr: seq<T>): (r: Option<T>)
    ensures FirstN(arr, 1) == (if r == None then [] else [r.value])
  {
    if arr == [] then None else Some(arr[0])
  }

  /** `first(array, n)`: `array.slice(0, n)`, a prefix of the array with
      `n` elements, all of them when `n` exceeds the length, and all but
      the last `-n` when `n` is negative. */
  function FirstN<T>(arr: seq<T>, n: int): (r: seq<T>)
    ensures |r| <= |arr| && r == arr[..|r|]
    ensures 0 <= n ==> |r| == if n < |arr| then n else |arr|
    ensures n < 0 ==> |r| == if |arr| + n < 0 then 0 else |arr| + n
  {
    Slice(arr, 0, n)
  }

  /** `last(array, n)`: `[]` when `n` is 0, otherwise `array.slice(-n)`: the
      last `n` elements, or, for a negative `n`, everything but the first
      `-n` elements. */
  function LastN<T>(arr: seq<T>, n: int): (r: seq<T>)
    ensures |r| <= |arr| && r == arr[|arr| - |r|..]
    ensures 0 <= n ==> |r| == if n < |arr| then n else |arr|
    ensures n < 0 ==> |r| == if |arr| + n < 0 then 0 else |arr| + n
  {
    if n == 0 then [] else Slice(arr, -n, |arr|)
  }

  /** The first `n` and the last `|arr| - n` elements make up the array. */
  lemma FirstLastSplit<T>(arr: seq<T>, n: nat)
    requires n <= |arr|
    ensures FirstN(arr, n) + LastN(arr, |arr| - n) == arr
  {
    assert arr[..n] + arr[n..] == arr;
  }

  /** `last(array)` with no `n` is `array.pop()`: it removes the last
      element from the caller's array and returns it. */
  method Last<T>(arr: JsArray<T>) returns (r: Option<T>)
    modifies arr
    ensures old(arr.items) == [] ==> r == None && arr.items == []
    ensures old(arr.items) != [] ==> r == Some(old(arr.items)[|old(arr.items)| - 1])
                                     && arr.items + [r.value] == old(arr.items)
  {
    r := arr.Pop();
  }

  /** The projection `pluck` hands to `map`. */
  function Property(propertyName: string): map<string, Value> -> Value
  {
    obj => Get(obj, propertyName)
  }

  /** `pluck(array, propertyName)`: `map` reading one property of each
      object; a missing property reads as `undefined`. */
  method Pluck(arr: seq<map<string, Value>>, propertyName: string) returns (r: seq<Value>)
    ensures |r| == |arr|
    ensures forall i :: 0 <= i < |arr| && propertyName in arr[i] ==> r[i] == arr[i][propertyName]
    ensures forall i :: 0 <= i < |arr| && propertyName !in arr[i] ==> r[i] == Undefined
  {
    r := Map(arr, Property(propertyName));
  }
}
