/** Facts about sequences shared by the filter and the pagination. */
module Sequences {

  function Min(a: int, b: int): int {
    if a < b then a else b
  }

  /** `a` is `b` with some elements deleted: order kept, nothing repeated or added. */
  predicate IsSubsequence<T(==)>(a: seq<T>, b: seq<T>)
    decreases |b|
  {
    a == [] ||
    (b != [] && ((a[0] == b[0] && IsSubsequence(a[1..], b[1..])) || IsSubsequence(a, b[1..])))
  }

  /** No element occurs twice. */
  predicate Distinct<T(==)>(s: seq<T>) {
    forall i, j :: 0 <= i < j < |s| ==> s[i] != s[j]
  }
}
