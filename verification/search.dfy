/**
 * Go's `sort.Search`: binary search for the smallest index in [0, n) at which
 * f holds, for an f that is false up to some index and true from there on.
 */
module BinarySearch {

  /** f switches from false to true at most once on [0, n). */
  ghost predicate Monotone(n: nat, f: nat -> bool) {
    forall a: nat, c: nat :: a <= c < n && f(a) ==> f(c)
  }

  /**
   * The search itself. Whatever f is, it returns an index where f switches
   * (false just before, true at it, with the ends counting as the switch).
   */
  function Search(n: nat, f: nat -> bool): (r: nat)
    ensures r <= n
    ensures r == 0 || !f(r - 1)
    ensures r == n || f(r)
  {
    SearchBetween(0, n, f)
  }

  /** For a monotone f the switch point is the first index where f holds, and f holds from there on. */
  lemma SearchFindsFirst(n: nat, f: nat -> bool)
    requires Monotone(n, f)
    ensures forall k: nat :: k < Search(n, f) ==> !f(k)
    ensures forall k: nat :: Search(n, f) <= k < n ==> f(k)
  {
  }

  /** One run of the loop `for i < j { h := (i+j)/2; ... }` from state (i, j). */
  function SearchBetween(i: nat, j: nat, f: nat -> bool): (r: nat)
    requires i <= j
    ensures i <= r <= j
    ensures r == i || !f(r - 1)
    ensures r == j || f(r)
    decreases j - i
  {
    if i < j then
      var h := (i + j) / 2;
      if !f(h) then SearchBetween(h + 1, j, f) else SearchBetween(i, h, f)
    else i
  }
}
