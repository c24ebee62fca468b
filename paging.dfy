/**
 * Pagination of the match list: `displayBooks(list, start, end)` shows
 * `list.slice(start, end)`, page `p` (counted from 1) covers the offsets
 * `[(p - 1) * n, p * n)`, and `updateRemainingBookCount` reports how many
 * matches lie beyond page `p`.
 */
module Paging {
  import opened Sequences

  /** `s.slice(start, end)` for non-negative bounds: `end` is clamped to the length, and the result is empty when `start` is at or past either bound. */
  function Slice<T>(s: seq<T>, start: nat, end: nat): (r: seq<T>)
    ensures |r| == if start < end && start < |s| then Min(end, |s|) - start else 0
    ensures forall i :: 0 <= i < |r| ==> r[i] == s[start + i]
  {
    if start < end && start < |s| then s[start..Min(end, |s|)] else []
  }

  /** The books of page `p` (1-based) with `n` books per page. */
  function PageItems<T>(m: seq<T>, p: nat, n: nat): seq<T>
    requires p >= 1
  {
    Slice(m, (p - 1) * n, p * n)
  }

  /** Everything shown after pages 1..k have been displayed one after the other. */
  function Shown<T>(m: seq<T>, k: nat, n: nat): seq<T> {
    if k == 0 then [] else Shown(m, k - 1, n) + PageItems(m, k, n)
  }

  /** The remaining count of `updateRemainingBookCount`: `count - page * n` when positive, else 0. */
  function Remaining(count: nat, page: nat, n: nat): (r: nat)
    ensures r == count - Min(count, page * n)
    ensures r == 0 <==> count <= page * n
  {
    if count - page * n > 0 then count - page * n else 0
  }

  /** The "Show more" button is disabled when fewer than one book remains. */
  predicate ShowMoreDisabled(remaining: nat) {
    remaining < 1
  }

  /** Appending the slice after a prefix of length `min(|m|, k * n)` extends it to length `min(|m|, (k + 1) * n)`. */
  lemma AppendPage<T>(m: seq<T>, k: nat, n: nat)
    ensures m[..Min(|m|, k * n)] + Slice(m, k * n, (k + 1) * n) == m[..Min(|m|, (k + 1) * n)]
  {
    assert (k + 1) * n == k * n + n;
  }

  /** Pages 1..k together are exactly the first `min(|m|, k * n)` matches: no gaps, no repeats. */
  lemma {:induction false} ShownIsPrefix<T>(m: seq<T>, k: nat, n: nat)
    ensures Shown(m, k, n) == m[..Min(|m|, k * n)]
  {
    if k > 0 {
      ShownIsPrefix(m, k - 1, n);
      AppendPage(m, k - 1, n);
      assert (k - 1 + 1) * n == k * n;
    }
  }

  /** The remaining count is the number of matches not shown after pages 1..k. */
  lemma RemainingIsUnshown<T>(m: seq<T>, k: nat, n: nat)
    ensures Remaining(|m|, k, n) == |m| - |Shown(m, k, n)|
    ensures ShowMoreDisabled(Remaining(|m|, k, n)) <==> Shown(m, k, n) == m
  {
    ShownIsPrefix(m, k, n);
  }

  lemma MulMonotone(a: nat, b: nat, n: nat)
    requires a <= b
    ensures a * n <= b * n
  {
  }

  /** Over a list without repetitions, two different pages share no book. */
  lemma PagesDisjoint<T>(m: seq<T>, j: nat, k: nat, n: nat)
    requires Distinct(m)
    requires 1 <= j < k
    ensures forall x :: x in PageItems(m, j, n) ==> x !in PageItems(m, k, n)
  {
    var pj, pk := PageItems(m, j, n), PageItems(m, k, n);
    MulMonotone(j, k - 1, n);
    forall x | x in pj ensures x !in pk {
      var a :| 0 <= a < |pj| && pj[a] == x;
      assert x == m[(j - 1) * n + a];
      assert (j - 1) * n + a < j * n by {
        assert (j - 1) * n + n == j * n;
      }
      forall b | 0 <= b < |pk| ensures pk[b] != x {
        assert pk[b] == m[(k - 1) * n + b];
      }
    }
  }
}
