/** Facts about sequences without repetition, shared by the intrusive lists
    (free pages, free malloc blocks, run queues). */
module Sequences {

  ghost predicate Distinct<T>(s: seq<T>) {
    forall i, j :: 0 <= i < j < |s| ==> s[i] != s[j]
  }

  /** Pigeonhole: a repetition-free sequence over 0..n has at most n elements. */
  lemma {:induction false} DistinctBounded(s: seq<nat>, n: nat)
    requires Distinct(s)
    requires forall i :: 0 <= i < |s| ==> s[i] < n
    ensures |s| <= n
    decreases n
  {
    if s != [] {
      assert s[0] < n;
      if n - 1 in s {
        var k :| 0 <= k < |s| && s[k] == n - 1;
        DistinctBounded(s[..k] + s[k + 1..], n - 1);
      } else {
        DistinctBounded(s, n - 1);
      }
    }
  }
}
