/** Greedy admission: deciding each call from the calls already admitted.

    `cap(i, k)` bounds how many of the calls i..k may be admitted.  Two of the
    limiter's strategies are greedy for a cap of their own. */
module Greedy {
  import opened History

  /** Call `k` is admitted exactly when admitting it breaks no cap on a stretch of
      calls that ends with it. */
  ghost predicate IsGreedy(h: seq<Call>, cap: (int, int) -> real) {
    forall k | 0 <= k < |h| ::
      h[k].admitted <==> forall i | 0 <= i <= k :: (Admitted(h, i, k) + 1) as real <= cap(i, k)
  }

  ghost predicate Conforms(h: seq<Call>, cap: (int, int) -> real) {
    forall i, k | 0 <= i <= k < |h| :: Admitted(h, i, k + 1) as real <= cap(i, k)
  }

  /** A cap is steady when a later call either has at least as much room over the
      same stretch, or so much that the stretch cannot exceed it. */
  ghost predicate Steady(n: nat, cap: (int, int) -> real) {
    && (forall k | 0 <= k < n :: cap(k, k) >= 0.0)
    && (forall i, k | 0 <= i < k < n :: cap(i, k) >= cap(i, k - 1) || cap(i, k) >= (k + 1 - i) as real)
  }

  lemma {:induction false} GreedyConforms(h: seq<Call>, cap: (int, int) -> real, i: nat, k: nat)
    requires IsGreedy(h, cap) && Steady(|h|, cap)
    requires i <= k < |h|
    ensures Admitted(h, i, k + 1) as real <= cap(i, k)
  {
    if !h[k].admitted && i < k {
      GreedyConforms(h, cap, i, k - 1);
      AdmittedSplit(h, i, i, k + 1);
    }
  }

  /** Greedy admission is optimal: whatever other decisions keep every cap on the
      same calls, they have admitted no more by any point. */
  lemma {:induction false} GreedyIsMaximal(h: seq<Call>, policy: seq<Call>, cap: (int, int) -> real, k: nat)
    requires IsGreedy(h, cap) && Conforms(policy, cap)
    requires k <= |h| == |policy|
    ensures Admitted(policy, 0, k) <= Admitted(h, 0, k)
  {
    if k > 0 {
      GreedyIsMaximal(h, policy, cap, k - 1);
      if !h[k - 1].admitted {
        var i :| 0 <= i <= k - 1 && (Admitted(h, i, k - 1) + 1) as real > cap(i, k - 1);
        assert Admitted(policy, i, k - 1 + 1) as real <= cap(i, k - 1);
        GreedyIsMaximal(h, policy, cap, i);
        AdmittedSplit(h, 0, i, k);
        AdmittedSplit(policy, 0, i, k);
      }
    }
  }
}
