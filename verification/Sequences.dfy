/** Facts about sequences of distinct numbers. */
module Sequences {

  ghost predicate Distinct(s: seq<nat>) {
    forall j, k :: 0 <= j < k < |s| ==> s[j] != s[k]
  }

  // Distinct numbers below n are at most n.
  lemma {:induction false} PigeonHole(s: seq<nat>, n: nat)
    requires Distinct(s) && forall k :: 0 <= k < |s| ==> s[k] < n
    ensures |s| <= n
    decreases n
  {
    if s != [] {
      assert s[0] < n;
      if n - 1 in s {
        var k :| 0 <= k < |s| && s[k] == n - 1;
        PigeonHole(s[..k] + s[k + 1..], n - 1);
      } else {
        PigeonHole(s, n - 1);
      }
    }
  }
}
