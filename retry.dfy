/** The back-off the contact query is configured with: `min(1000 * 2 ** attemptIndex, 10000)` ms. */
module Retry {

  const BaseDelayMs: nat := 1000
  const MaxDelayMs: nat := 10000

  /** `2 ** n` */
  function Pow2(n: nat): (r: nat)
    ensures r >= 1
  {
    if n == 0 then 1 else 2 * Pow2(n - 1)
  }

  /** Powers of two grow with the exponent. */
  lemma {:induction false} Pow2Monotone(m: nat, n: nat)
    requires m <= n
    ensures Pow2(m) <= Pow2(n)
    decreases n - m
  {
    if m < n {
      Pow2Monotone(m, n - 1);
    }
  }

  /** `retryDelay(attemptIndex)`, in milliseconds: never below the base delay nor above the cap. */
  function RetryDelay(attemptIndex: nat): (ms: nat)
    ensures BaseDelayMs <= ms <= MaxDelayMs
  {
    var raw := BaseDelayMs * Pow2(attemptIndex);
    if raw < MaxDelayMs then raw else MaxDelayMs
  }

  /** The first retry waits one second and each later one twice as long until the cap: 1000, 2000, 4000, 8000. */
  lemma RetryDelayFirstSteps()
    ensures RetryDelay(0) == 1000 && RetryDelay(1) == 2000 && RetryDelay(2) == 4000 && RetryDelay(3) == 8000
  {
  }

  /** A later attempt never waits less than an earlier one. */
  lemma RetryDelayMonotone(m: nat, n: nat)
    requires m <= n
    ensures RetryDelay(m) <= RetryDelay(n)
  {
    Pow2Monotone(m, n);
  }

  /** From the fifth attempt on the delay is the cap. */
  lemma RetryDelayCapped(n: nat)
    requires n >= 4
    ensures RetryDelay(n) == MaxDelayMs
  {
    Pow2Monotone(4, n);
    assert Pow2(4) == 16;
  }
}
