/** `_.zip`: rows built by pushing each argument's i-th element onto row i,
    then padded with `undefined` up to the number of arguments. */
module Zipping {
  import opened Wrappers
  import opened Js

  /** The length of the longest argument (0 for none). */
  function Longest<T>(args: seq<seq<T>>): nat
  {
    if args == [] then 0
    else
      var m := Longest(args[..|args| - 1]);
      if |args[|args| - 1]| > m then |args[|args| - 1]| else m
  }

  /** What the pushing phase leaves in row `i`: the `i`-th element of each
      argument long enough to have one, in argument order. */
  function Column<T>(args: seq<seq<T>>, i: nat): seq<Option<T>>
  {
    if args == [] then []
    else
      var last := args[|args| - 1];
      Column(args[..|args| - 1], i) + (if i < |last| then [Some(last[i])] else [])
  }

  /** `n - |row|` copies of `undefined`. */
  function Padding<T>(count: nat): seq<Option<T>>
  {
    seq(count, k => None)
  }

  /** The rows `zip` returns: each column padded to `|args|` entries. */
  function Zipped<T>(args: seq<seq<T>>): seq<seq<Option<T>>>
  {
    seq(Longest(args), i requires 0 <= i < Longest(args) =>
      ColumnBound(args, i);
      Column(args, i) + Padding(|args| - |Column(args, i)|))
  }

  lemma {:induction false} ColumnBound<T>(args: seq<seq<T>>, i: nat)
    ensures |Column(args, i)| <= |args|
  {
    if args != [] {
      ColumnBound(args[..|args| - 1], i);
    }
  }

  /** Past the longest argument a column is empty. */
  lemma {:induction false} ColumnBeyond<T>(args: seq<seq<T>>, i: nat)
    requires i >= Longest(args)
    ensures Column(args, i) == []
  {
    if args != [] {
      ColumnBeyond(args[..|args| - 1], i);
    }
  }

  lemma {:induction false} LongestBounds<T>(args: seq<seq<T>>)
    ensures forall k :: 0 <= k < |args| ==> |args[k]| <= Longest(args)
    ensures args != [] ==> exists k :: 0 <= k < |args| && |args[k]| == Longest(args)
  {
    if args != [] {
      var init := args[..|args| - 1];
      LongestBounds(init);
      assert forall k :: 0 <= k < |init| ==> init[k] == args[k];
      if |args[|args| - 1]| < Longest(args) {
        assert Longest(init) > 0;
        assert init != [];
        var k :| 0 <= k < |init| && |init[k]| == Longest(init);
        assert |args[k]| == Longest(args);
      }
    }
  }

  /** `zip(...args)`. */
  method Zip<T>(args: seq<seq<T>>) returns (result: seq<seq<Option<T>>>)
    ensures result == Zipped(args)
  {
    result := [];
    for k := 0 to |args|
      invariant |result| == Longest(args[..k])
      invariant forall i :: 0 <= i < |result| ==> result[i] == Column(args[..k], i)
    {
      var arr := args[k];
      assert args[..k + 1][..k] == args[..k];
      ghost var before := result;
      for index := 0 to |arr|
        invariant |result| == if index > |before| then index else |before|
        invariant forall i :: 0 <= i < |result| ==>
                    result[i] == (if i < |before| then before[i] else []) + (if i < index then [Some(arr[i])] else [])
      {
        if index >= |result| {
          result := result + [[]];
        }
        result := result[index := result[index] + [Some(arr[index])]];
      }
      forall i | 0 <= i < |result|
        ensures result[i] == Column(args[..k + 1], i)
      {
        if i >= |before| {
          ColumnBeyond(args[..k], i);
        }
      }
    }
    assert args[..|args|] == args;
    var rows := |result|;
    for index := 0 to rows
      invariant |result| == rows
      invariant forall i :: 0 <= i < |result| ==>
                  result[i] == if i < index then Zipped(args)[i] else Column(args, i)
    {
      ColumnBound(args, index);
      while |result[index]| < |args|
        invariant |result| == rows
        invariant |Column(args, index)| <= |result[index]| <= |args|
        invariant result[index] == Column(args, index) + Padding(|result[index]| - |Column(args, index)|)
        invariant forall i :: 0 <= i < |result| && i != index ==>
                    result[i] == if i < index then Zipped(args)[i] else Column(args, i)
        decreases |args| - |result[index]|
      {
        result := result[index := result[index] + [None]];
      }
    }
  }

  /** Every row has one entry per argument, and there is one row per element
      of the longest argument. */
  lemma ZipShape<T>(args: seq<seq<T>>)
    ensures |Zipped(args)| == Longest(args)
    ensures forall i :: 0 <= i < |Zipped(args)| ==> |Zipped(args)[i]| == |args|
    ensures forall k :: 0 <= k < |args| ==> |args[k]| <= |Zipped(args)|
  {
    LongestBounds(args);
    forall i | 0 <= i < Longest(args)
      ensures |Zipped(args)[i]| == |args|
    {
      ColumnBound(args, i);
    }
  }

  /** When every argument is long enough for index `i`, row `i` holds each
      argument's `i`-th element at that argument's position. */
  lemma {:induction false} ColumnFull<T>(args: seq<seq<T>>, i: nat)
    requires forall k :: 0 <= k < |args| ==> i < |args[k]|
    ensures |Column(args, i)| == |args|
    ensures forall k :: 0 <= k < |args| ==> Column(args, i)[k] == Some(args[k][i])
  {
    if args != [] {
      var init := args[..|args| - 1];
      assert forall k :: 0 <= k < |init| ==> init[k] == args[k];
      ColumnFull(init, i);
    }
  }

  /** With arguments of equal length `zip` is an exact transpose. */
  lemma ZipTranspose<T>(args: seq<seq<T>>, len: nat)
    requires forall k :: 0 <= k < |args| ==> |args[k]| == len
    requires args != []
    ensures |Zipped(args)| == len
    ensures forall i, k :: 0 <= i < len && 0 <= k < |args| ==> Zipped(args)[i][k] == Some(args[k][i])
  {
    LongestBounds(args);
    forall i, k | 0 <= i < len && 0 <= k < |args|
      ensures Zipped(args)[i][k] == Some(args[k][i])
    {
      ColumnFull(args, i);
    }
  }

  /** Padding always goes at the end of a row, so when an earlier argument is
      shorter than a later one the row is misaligned: `zip([1], [2, 3])` is
      `[[1, 2], [3, undefined]]`, with 3 under the first argument. */
  lemma ZipMisaligns()
    ensures Zipped([[1], [2, 3]]) == [[Some(1), Some(2)], [Some(3), None]]
  {
    var args: seq<seq<int>> := [[1], [2, 3]];
    assert args[..1] == [[1]] && |args[..1][..0]| == 0;
    assert Longest(args) == 2;
    assert Column(args, 0) == [Some(1), Some(2)];
    assert Column(args, 1) == [Some(3)];
    assert Padding<int>(0) == [] && Padding<int>(1) == [None];
    assert Zipped(args)[0] == [Some(1), Some(2)];
    assert Zipped(args)[1] == [Some(3), None];
  }

  /** The documented example: `zip(['a','b','c','d'], [1,2,3])` is
      `[['a',1], ['b',2], ['c',3], ['d',undefined]]`. */
  lemma ZipDocExample()
    ensures Zipped([[Str("a"), Str("b"), Str("c"), Str("d")], [Num(1), Num(2), Num(3)]])
         == [[Some(Str("a")), Some(Num(1))], [Some(Str("b")), Some(Num(2))],
             [Some(Str("c")), Some(Num(3))], [Some(Str("d")), None]]
  {
    var args := [[Str("a"), Str("b"), Str("c"), Str("d")], [Num(1), Num(2), Num(3)]];
    assert args[..1] == [args[0]] && |args[..1][..0]| == 0;
    assert Longest(args) == 4;
    assert Column(args, 0) == [Some(Str("a")), Some(Num(1))];
    assert Column(args, 1) == [Some(Str("b")), Some(Num(2))];
    assert Column(args, 2) == [Some(Str("c")), Some(Num(3))];
    assert Column(args, 3) == [Some(Str("d"))];
    assert Padding<Value>(0) == [] && Padding<Value>(1) == [None];
    var z := Zipped(args);
    assert z[0] == [Some(Str("a")), Some(Num(1))];
    assert z[1] == [Some(Str("b")), Some(Num(2))];
    assert z[2] == [Some(Str("c")), Some(Num(3))];
    assert z[3] == [Some(Str("d")), None];
  }
}
