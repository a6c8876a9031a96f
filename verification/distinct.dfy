/** Sequences of numbers without repetition. */
module Distinctness {

  ghost predicate NoRepeats(s: seq<nat>) {
    forall i, j :: 0 <= i < j < |s| ==> s[i] != s[j]
  }

  /** No more than `n` different numbers lie below `n`. */
  lemma {:induction false} NoRepeatsBound(s: seq<nat>, n: nat)
    requires NoRepeats(s) && forall i :: 0 <= i < |s| ==> s[i] < n
    ensures |s| <= n
  {
    if |s| > n {
      assert s[0] < n;
      if i :| 0 <= i < |s| && s[i] == n - 1 {
        var t := s[..i] + s[i + 1..];
        forall k | 0 <= k < |t|
          ensures t[k] == s[if k < i then k else k + 1]
        {
        }
        NoRepeatsBound(t, n - 1);
      } else {
        NoRepeatsBound(s, n - 1);
      }
    }
  }

  /** If they are `n`, all numbers below `n` are among them. */
  lemma NoRepeatsIsAll(s: seq<nat>, n: nat, x: nat)
    requires NoRepeats(s) && |s| == n && x < n && forall i :: 0 <= i < |s| ==> s[i] < n
    ensures x in s
  {
    if x !in s {
      NoRepeatsBound(s + [x], n);
    }
  }
}
