/** Vocabulary shared by the collection algorithms. */
module Seqs {

  /** No value occurs twice (strict equality). */
  predicate Distinct<T(==)>(s: seq<T>)
  {
    forall i, j :: 0 <= i < j < |s| ==> s[i] != s[j]
  }
}
