module RateLimitConfig {
  import opened History

  /** Anything but the three strategies is `Unknown`. */
  datatype Strategy = TokenBucket | SlidingWindow | FixedWindow | Unknown

  datatype Config = Config(rate: real, burst: nat, strategy: Strategy, window: real) {
    predicate Valid() {
      rate >= 0.0 && burst >= 1 && window > 0.0
    }

    /** Whether a count of `n` admissions is still under the window limit. */
    predicate HasRoom(n: nat) {
      n as real < rate * window
    }

    /** The most admissions that keep the count under the limit before each of them. */
    function Limit(): int {
      Ceil(rate * window)
    }

    lemma RoomIsBelowLimit(n: nat)
      ensures HasRoom(n) <==> n < Limit()
      ensures Valid() ==> Limit() >= 0
    {
      assert Valid() ==> rate * window >= 0.0;
    }
  }
}
