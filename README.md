# Underbar collection algorithms in Dafny

This project models the collection core of Underbar (`src/underbar.js`), a
small re-implementation of Underscore.js. At its centre is the traversal
primitive `_.each`. These operations call it, directly or through another
operation that does:

- `indexOf`;
- `filter` and `reject`;
- `map`, `pluck` and `uniq`;
- `reduce`, and `contains`, `every` and `some` on top of it;
- the array algorithms `zip`, `flatten`, `intersection` and `difference`;
- the object helpers `extend` and `defaults`.

The model also covers three operations that do not use `_.each`: `sortBy`
(`Array.prototype.sort`), `first` (`slice` or `array[0]`) and `last` (`slice`
or `pop`).

The modules follow the layers of the library:

| module | file | what it holds |
|---|---|---|
| `Js` | js.dfy | JavaScript values (`Value`, truthiness, property lookup) and the mutable `JsArray` and `JsObject` |
| `Traversal` | traversal.dfy | `each`: the indexed loop `Each` and the `for-in` loop `EachEntry` |
| `Reduction` | reduction.dfy | `reduce` as a left fold with Underbar's seed rule |
| `Predicates` | predicates.dfy | `indexOf`, `filter`, `reject`, `contains`, `every`, `some` |
| `Transforms` | transforms.dfy | `map` and `uniq` |
| `Accessors` | accessors.dfy | `first`, `last` and `pluck` |
| `Objects` | objects.dfy | `extend` and `defaults` |
| `Flattening` | flattening.dfy | `flatten` over a `Nested` datatype |
| `SetAlgorithms` | set_algorithms.dfy | `intersection` and `difference` |
| `Zipping` | zipping.dfy | `zip` |
| `Sorting` | sorting.dfy | `sortBy` |

## How the model works

`_.each` is modelled twice, once per branch.

- `Traversal.Each` is the array branch: a `for` loop over the indices that
  hands a visitor the state the JavaScript closure captured, the element and
  its index, and returns the new state. It is proved equal to `Walk`, a
  specification fold.
- `Traversal.EachEntry` is the `for-in` branch over an object's keys.

These operations call `Each` with a visitor (a Dafny function standing for
the closure):

- `indexOf`, `filter`, `map`, `uniq`, `reduce`, and `pluck` through `map`;
- the inner `_.each` of `intersection`, and the last pass of `difference`.

For each of them a lemma (`WalkFinds`, `WalkSelects`, `WalkMaps`,
`WalkDedups`, `WalkIsFold`, `WalkTallies`) identifies that fold with the
operation's own specification function, and the properties are proved about
those functions.

Where the closure passed to `_.each` itself loops, recurses or calls `_.each`
again, the outer `_.each` is written as a direct loop over the indices, in
the same order `Each` would visit them:

- `zip`: nested `for` loops, then the padding loop;
- `flatten`: a `for` loop whose body recurses;
- the outer `_.each` of `intersection`: a `for` loop whose body calls `Each`;
- the outer `_.each` of `extend` and `defaults`: a `for` loop over the
  arguments whose body calls `EachEntry`.

`sortBy` calls no `_.each`: it is an insertion sort on the given `array`.

Modelling choices:

- JavaScript values are the datatype `Js.Value`. Strict equality `===` is
  Dafny's `==`.
- Objects and functions are compared by identity, so they are represented by
  a reference number (`Ref`).
- Arrays are `seq`, except where the source mutates an array that the
  caller also holds: `flatten`'s accumulator and the `pop` in `last` use the
  class `JsArray`, and `sortBy` sorts a Dafny `array` in place.
- Nested arrays are the datatype `Flattening.Nested` (`Leaf` or `List`).
- `zip`'s `undefined` padding is `None` of an `Option`.
- Objects are `map<string, Value>` held by a `JsObject` whose `props` field
  `extend` and `defaults` update.

The model follows the code as written, including its quirks:

- `reduce` replaces any falsy seed (including an explicit `false` or `0`) by
  `0`. So `contains` on an empty array returns `0`, not `false`.
- `zip` appends a row's `undefined` padding at the end of the row. A shorter
  argument followed by a longer one therefore gives misaligned rows:
  `zip([1],[2,3])` is `[[1,2],[3,undefined]]`.
- `intersection` counts occurrences over the flattened concatenation of all
  its arguments. A value is in the result if and only if there are at least
  two arguments and the value occurs at least as many times as there are
  arguments. So `intersection([1,1],[2])` is `[1]`, and a single argument
  gives `[]`.
- `difference` computes `intersection(first, flatten(rest))` and keeps the
  elements of `first` that are not in it. It therefore also drops every value
  repeated within `first` itself.
  - The comment above `difference` (src/underbar.js:391-392) says that the
    elements present in just the first array remain. The code disagrees on
    `difference([1,1])`, which is `[]`. The model follows the code:
    `DifferenceOfRepeat` proves that example, `DifferenceDropsRepeats` shows
    that any repeated value is dropped, and `DifferenceAlone` returns `first`
    unchanged only when it has no repeats.

## Model

| member | source | states |
|---|---|---|
| `Traversal.Each` | src/underbar.js:31-35 | the array branch of `each` calls the visitor once per element in index order, threading the closure state; the result is the fold `Walk` of the visitor over the array |
| `Traversal.EachVisitsInOrder` | src/underbar.js:33-35 | `each` over an array makes exactly one call per element, and the i-th call receives `(collection[i], i)` |
| `Traversal.EachEntry` | src/underbar.js:36-39 | the `for-in` branch of `each` visits every key of the object exactly once, with its value, and no other key; it returns the key order it chose, and the state is the fold over that order |
| `Predicates.FirstIndex` | src/underbar.js:45-54 | the value of `indexOf`: -1 if and only if the target is absent; otherwise the target sits at that index and at no earlier index |
| `Predicates.FirstIndexExtend` | src/underbar.js:48 | appending an element does not move the index of a target that is already present, because the `foundIndex == -1` guard keeps the first hit |
| `Predicates.WalkFinds` | src/underbar.js:46-50 | the `indexOf` visitor, folded over the array from -1, yields exactly `FirstIndex` |
| `Predicates.IndexOf` | src/underbar.js:45-54 | `indexOf` returns -1 exactly when the target is absent, and otherwise the smallest index holding it |
| `Predicates.WalkSelects` | src/underbar.js:58-62 | the `filter` visitor, pushing when the test passes, builds exactly `Selected(a, test)` |
| `Predicates.Filter` | src/underbar.js:57-63 | `filter` returns `Selected(collection, test)`: the passing elements in their original order |
| `Predicates.SelectedSnoc` | src/underbar.js:59-61 | visiting one more element appends it exactly when it passes the test |
| `Predicates.SelectedMembers` | src/underbar.js:57-63 | a value is in the `filter` result if and only if it is in the input and passes the test |
| `Predicates.SelectedAppend` | src/underbar.js:57-63 | `filter` of a concatenation is the concatenation of the `filter`s, so the input order is kept |
| `Predicates.SelectedAll` | src/underbar.js:57-63 | when every element passes, `filter` returns an equal array |
| `Predicates.SelectedNone` | src/underbar.js:57-63 | when no element passes, `filter` returns `[]` |
| `Predicates.SelectedCongruent` | src/underbar.js:57-63 | `filter` depends only on the test's answers for the elements actually present |
| `Predicates.Reject` | src/underbar.js:66-72 | `reject` is `filter` with the negated test |
| `Predicates.FilterRejectPartition` | src/underbar.js:57-72 | every input element lands in exactly one of `filter` and `reject`: the two results' multisets add up to the input's, and so do their lengths |
| `Predicates.PartitionStep` | src/underbar.js:59-68 | one more element goes to exactly one of `filter` and `reject`, so the partition of the input is kept |
| `Predicates.FoldFinds` | src/underbar.js:146-151 | the `contains` reducer, folded from the seed `reduce` substitutes for `false`, gives `0` on an empty array and otherwise whether the target occurs |
| `Predicates.Contains` | src/underbar.js:143-152 | `contains` is `0` on an empty array (the falsy seed became 0) and otherwise `true` exactly when some element `===` the target |
| `Predicates.FoldAll` | src/underbar.js:163-165 | the `every` reducer folded from `true` gives `true` exactly when all elements pass |
| `Predicates.Every` | src/underbar.js:156-167 | `every` is `true` on an empty array and otherwise true if and only if every element passes the test |
| `Predicates.EveryTruthy` | src/underbar.js:158-161 | `every` without a test: true if and only if every element is truthy |
| `Predicates.AnyTrue` | src/underbar.js:172-176 | `some` without a test, on boolean elements: `false` on an empty array, and otherwise true if and only if some element is true |
| `Predicates.Any` | src/underbar.js:171-177 | `some` maps the test over the array and then negates `every` over the results: true if and only if at least one element passes (so `false` on an empty array) |
| `Transforms.WalkMaps` | src/underbar.js:86-90 | the `map` visitor builds an array of the same length whose i-th entry is the transform of the i-th element |
| `Transforms.Map` | src/underbar.js:85-94 | `map` preserves the length, and `result[i] == transform(arr[i])` |
| `Transforms.DedupedSnoc` | src/underbar.js:77-79 | visiting one more value appends it exactly when it is not yet in the result |
| `Transforms.WalkDedups` | src/underbar.js:76-80 | the `uniq` visitor, which pushes a value when `indexOf` does not find it in the result, builds exactly `Deduped(a)` |
| `Transforms.DedupedMembers` | src/underbar.js:75-81 | the values of `uniq(a)` are exactly the values of `a` |
| `Transforms.DedupedDistinct` | src/underbar.js:75-81 | `uniq(a)` holds no value twice |
| `Transforms.DedupedOfDistinct` | src/underbar.js:75-81 | `uniq` returns a duplicate-free array unchanged |
| `Transforms.DedupedOrder` | src/underbar.js:75-81 | the values of `uniq(a)` appear in the order of their first occurrence in `a` |
| `Transforms.DedupedOrderStep` | src/underbar.js:77-79 | one more visit keeps the first-occurrence order of the result |
| `Transforms.Uniq` | src/underbar.js:75-81 | `uniq` returns each distinct value of the input exactly once, and nothing else |
| `Transforms.UniqIdempotent` | src/underbar.js:75-81 | `uniq(uniq(a)) == uniq(a)` |
| `Accessors.SliceIndex` | src/underbar.js:19 | a relative `slice` index (negative counts from the end) is clamped into `0..length` |
| `Accessors.First` | src/underbar.js:18-19 | the two forms of `first` agree: `first(array, 1)` is `[first(array)]`, or `[]` when `first(array)` is `undefined` on an empty array |
| `Accessors.FirstN` | src/underbar.js:18-19 | `first(array, n)` is a prefix of the array: `n` elements capped at the length, or all but the last `-n` for negative `n` |
| `Accessors.LastN` | src/underbar.js:24-26 | `last(array, n)` is `[]` for `n === 0` and otherwise a suffix: `n` elements capped at the length, or all but the first `-n` for negative `n` |
| `Accessors.FirstLastSplit` | src/underbar.js:18-27 | `first(a, n)` followed by `last(a, length - n)` gives back `a` |
| `Accessors.Last` | src/underbar.js:24-26 | `last(array)` pops: it returns the last element and removes it from the caller's array, or returns `undefined` and leaves an empty array as it is |
| `Accessors.Pluck` | src/underbar.js:105-112 | `pluck` returns one entry per object: the property's value, or `undefined` where the object lacks it |
| `Reduction.WalkIsFold` | src/underbar.js:136-138 | the `reduce` visitor, reassigning `result = iterator(result, value)`, folds left over the array |
| `Reduction.Reduce` | src/underbar.js:134-140 | `reduce` is the left fold from `initialValue`, or from `0` when that is falsy; on an empty array it returns the seed |
| `Reduction.FoldedAppend` | src/underbar.js:134-140 | reducing a concatenation reduces the second part from the first part's result |
| `Reduction.ReduceSumExamples` | src/underbar.js:128-140 | summing `[1,2,3]` gives 6 with seed 0 and with no seed, and an empty array with seed 10 gives 10 |
| `Objects.RestrictAll` | src/underbar.js:200 | the inner `each` sees every key of a source, so the keys it visits cover the whole source |
| `Objects.WalkAssigns` | src/underbar.js:200-202 | assigning `obj[key] = val` for the visited keys overwrites the object with those entries of the source |
| `Objects.ExtendedSelf` | src/underbar.js:199 | the outer `each` also visits the object itself first, which changes nothing |
| `Objects.Extend` | src/underbar.js:198-205 | `extend` updates the object in place to `Extended`: each source merged over it in turn, and returns the same object |
| `Objects.ExtendedAppend` | src/underbar.js:199-203 | extending with two lists of sources in a row is extending with their concatenation |
| `Objects.ExtendedUntouched` | src/underbar.js:198-205 | a key no source holds keeps its presence and its value |
| `Objects.LaterSourceWins` | src/underbar.js:198-205 | for a key held by some source, the last source holding it decides the value |
| `Objects.FillStep` | src/underbar.js:211-215 | the `defaults` visitor on a new key fills it exactly when the object's value there is `undefined` |
| `Objects.RestrictSnoc` | src/underbar.js:211 | the entries visited so far grow by exactly the visited key |
| `Objects.WalkFills` | src/underbar.js:211-215 | the inner `each` of `defaults` fills from the source exactly the keys the object has missing or `undefined` |
| `Objects.FilledFromSelf` | src/underbar.js:210 | filling the object from itself changes nothing |
| `Objects.DefaultedSelf` | src/underbar.js:210 | the outer `each` also visits the object itself first, which changes nothing |
| `Objects.Defaults` | src/underbar.js:209-218 | `defaults` updates the object in place to `Defaulted`: each source fills in turn, and returns the same object |
| `Objects.DefaultedAppend` | src/underbar.js:210-216 | filling from two lists of sources in a row is filling from their concatenation |
| `Objects.DefaultsKeepDefined` | src/underbar.js:207-214 | a key whose value is already defined is never overwritten |
| `Objects.DefaultsStayUndefined` | src/underbar.js:209-218 | a key that is undefined in the object and in every source stays undefined |
| `Objects.FirstProviderWins` | src/underbar.js:209-218 | for a key undefined in the object, the first source that defines it provides the value |
| `Flattening.Flatten` | src/underbar.js:352-366 | `flatten` appends the leaves, depth-first and left to right, to the supplied accumulator in place and returns that same array; without one it returns a fresh array holding just the leaves |
| `Flattening.LeavesAppend` | src/underbar.js:357-363 | flattening a concatenation concatenates the flattenings |
| `Flattening.LeavesPair` | src/underbar.js:357-363 | a two-element array flattens to its first element's leaves and then its second's |
| `Flattening.LeavesSingle` | src/underbar.js:357-363 | a one-element array flattens to that element's leaves |
| `Flattening.FlattenFlat` | src/underbar.js:352-366 | flattening an already flat array gives an equal copy |
| `Flattening.FlattenExample` | src/underbar.js:348-366 | `[1, [2], [3, [[[4]]]]]` flattens to `[1, 2, 3, 4]` |
| `SetAlgorithms.CommonStep` | src/underbar.js:376-386 | visiting the i-th value of the flattened arguments pushes it exactly when it occurs at least as many times as there are arguments (two or more) and is not yet in the result |
| `SetAlgorithms.WalkTallies` | src/underbar.js:377-385 | the inner `each` counts the value's occurrences at other positions, starting from 1, and pushes the value when the count reaches the number of arguments |
| `SetAlgorithms.CommonMembers` | src/underbar.js:370-389 | a value is in the `intersection` if and only if there are at least two arguments and it occurs at least that many times in their flattened concatenation; the result has no duplicates |
| `SetAlgorithms.CommonComplete` | src/underbar.js:376-388 | after the last element the pushed values are the whole `intersection` |
| `SetAlgorithms.CommonOrder` | src/underbar.js:376-386 | the values `intersection` pushes appear in the order of their first occurrences in the flattened arguments |
| `SetAlgorithms.CommonOrderStep` | src/underbar.js:381-382 | visiting one more element keeps the pushed values ordered by first occurrence: a new value is pushed only at its first occurrence, after all earlier ones |
| `SetAlgorithms.Intersection` | src/underbar.js:370-389 | `intersection` returns, without duplicates, exactly the values occurring at least N times over the N ≥ 2 flattened arguments, ordered by where each first occurs in the flattened arguments |
| `SetAlgorithms.IntersectionOfOne` | src/underbar.js:377-381 | with fewer than two arguments the count never equals the arity, so the result is `[]` |
| `SetAlgorithms.LeavesSwap` | src/underbar.js:373 | swapping two arguments permutes the flattened concatenation |
| `SetAlgorithms.CommonOfPermutation` | src/underbar.js:376-386 | the members of the `intersection` depend only on the multiset of flattened values |
| `SetAlgorithms.IntersectionSymmetric` | src/underbar.js:370-389 | `intersection(a, b)` and `intersection(b, a)` have the same members, each inclusion stated |
| `SetAlgorithms.CommonOfOneOneTwo` | src/underbar.js:376-386 | in `[1,1,2]` with two arguments only `1` reaches the count |
| `SetAlgorithms.IntersectionCountsDuplicates` | src/underbar.js:379-382 | `intersection([1,1],[2])` is `[1]`: occurrences within one argument count |
| `SetAlgorithms.IntersectionExample` | src/underbar.js:370-389 | `intersection([1,2,3],[2,3,4],[3,4,5])` is `[3]` |
| `SetAlgorithms.OnlyThree` | src/underbar.js:376-386 | with three arguments the example's only value to reach the count is `3` |
| `SetAlgorithms.DedupedConstant` | src/underbar.js:381 | the `indexOf` guard pushes a value repeated throughout the matches only once |
| `SetAlgorithms.Difference` | src/underbar.js:393-406 | `difference` keeps, in `first`'s order, exactly the elements that occur once in `first` and nowhere in the flattened other arrays |
| `SetAlgorithms.DifferenceAlone` | src/underbar.js:393-406 | with no other arrays a duplicate-free `first` comes back unchanged |
| `SetAlgorithms.DifferenceOfRepeat` | src/underbar.js:391-405 | `difference([1,1])` is `[]`, although the comment at 391-392 says elements present only in the first array remain |
| `SetAlgorithms.DistinctOnce` | src/underbar.js:398-400 | in a duplicate-free array every element occurs exactly once |
| `SetAlgorithms.DifferenceDropsRepeats` | src/underbar.js:398-402 | a value occurring twice in `first` is dropped whatever the other arrays hold |
| `Zipping.ColumnBound` | src/underbar.js:331-338 | a row gets at most one value from each argument |
| `Zipping.ColumnBeyond` | src/underbar.js:331-338 | no value lands in a row at or past the longest argument's length |
| `Zipping.LongestBounds` | src/underbar.js:331-338 | the row count is the length of the longest argument |
| `Zipping.Zip` | src/underbar.js:328-346 | `zip` builds `Zipped(args)`: one row per index up to the longest argument, holding the values of the arguments long enough, in argument order, then `undefined` up to the arity |
| `Zipping.ZipShape` | src/underbar.js:328-346 | the result has as many rows as the longest argument and every row has one slot per argument |
| `Zipping.ColumnFull` | src/underbar.js:331-338 | when every argument reaches index i, row i is the i-th element of each argument in order |
| `Zipping.ZipTranspose` | src/underbar.js:328-346 | arguments of equal length are transposed exactly |
| `Zipping.ZipMisaligns` | src/underbar.js:331-343 | `zip([1],[2,3])` is `[[1,2],[3,undefined]]`: the padding goes at the end of the row |
| `Zipping.ZipDocExample` | src/underbar.js:327-346 | `zip(['a','b','c','d'], [1,2,3])` is `[['a',1], ['b',2], ['c',3], ['d',undefined]]` |
| `Sorting.SwapDown` | src/underbar.js:320 | one exchange of neighbouring slots, a permutation of the array |
| `Sorting.Insert` | src/underbar.js:320 | inserting the next element into the sorted prefix extends the sorted prefix by one and permutes the array |
| `Sorting.SortBy` | src/underbar.js:316-321 | `sortBy` returns the very array it was given, permuted in place into ascending order of the key |

## Left out

- `delay` (src/underbar.js:275-280): it is a `setTimeout` timer, which is scheduling and I/O.
- `throttle` (src/underbar.js:418-419): its body is empty.
- `shuffle` (src/underbar.js:289-303): it uses `Math.random` and floating-point index arithmetic.
- `memoize`, `once` and `invoke` (src/underbar.js:115-119, 231-267): closure and `this` plumbing around calls to foreign functions.
- The `console.log` in `difference` (src/underbar.js:404): I/O.
- Numbers are integers. Floating point, `NaN` and `parseFloat` are not modelled.
- Sorting.SortBy: takes an integer key function. It does not model the property-name form (a string `iterator`) or the `parseFloat` conversion of keys. It promises sortedness and a permutation but no particular order among elements with equal keys. `Array.prototype.sort` is stable since ES2019, but this model does not promise stability. It also orders every element by its key, whereas `Array.prototype.sort` moves `undefined` elements to the end of the array without calling the comparator on them (and leaves holes after them); for an array holding `undefined` the model can give a different order.
- Js.Get: reads own properties only. Inherited properties (`toString`, `constructor`, ...) are not modelled, so a key missing from the map reads as `undefined`. In JavaScript `_.pluck([{}], 'toString')` returns a function, where the model gives `undefined`. `_.defaults({}, {constructor: 5})` does not fill `constructor`, because `obj['constructor']` is the inherited `Object`, where the model fills it.
- Objects.Extend: each source is read as a value when its turn comes, so a source that is the target object itself is not modelled. `_.extend(o, a, o)` with `o = {x: 1}` and `a = {x: 2}` leaves `x` as `2` in JavaScript, because the third visit reads the live `o`, while the model's `Extended` gives `1`.
- Predicates.AnyTrue: `some` without a test is modelled on boolean elements only. The loose comparison `(item || false) == false` on other values (`0`, `''`, `'0'`) is JavaScript coercion that is not modelled.
- Predicates.Any: takes a test returning `bool`. A test returning other truthy or falsy values is not modelled.
- Predicates.Every: takes a test returning `bool`. `EveryTruthy` covers the form without a test on arbitrary values.
- Collection operations over objects: `indexOf`, `filter`, `reject`, `map`, `pluck`, `uniq`, `reduce`, `contains`, `every` and `some` also accept an object and then traverse it through the `for-in` branch of `each` (src/underbar.js:37-39). The model takes arrays only, so object inputs are not modelled. In JavaScript, for example, `_.indexOf({a: 1}, 1)` returns the key `'a'`, and `_.filter({a: 1, b: 2}, v => v > 1)` is `[2]`. `Traversal.EachEntry` models the object branch on its own, and `extend` and `defaults` use it.
- Traversal.Each: the array is taken as a value when the traversal starts. The source re-reads `collection.length` on every pass (src/underbar.js:33), so a visitor that grows the array being walked is also called on the new elements. The model does not capture this aliasing. For example, `_.flatten(a, a)` with `a = [1]` never ends in JavaScript, while the model's `Flatten([Leaf(1)], a)` returns `[1, 1]`.
- Traversal.EachEntry: does not fix the engine's `for-in` key order. It promises only that each key is visited once, and it does not model inherited enumerable properties.
- SetAlgorithms.Difference: takes its first argument as a flat array. Nested arrays inside `first` are not modelled.
- Accessors.First, Accessors.FirstN, Accessors.LastN: `arguments.length` decides between the two forms, so each form is its own function. Calling them with an explicit `undefined` for `n` is not modelled.
- Values other than arrays passed to `flatten`, `zip`, `intersection` or `difference` (strings, `arguments` objects) are not modelled.
