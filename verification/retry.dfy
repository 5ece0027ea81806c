/**
 * `retry_with_exponential_backoff` of `utils.py` with `jitter=False`: call the wrapped
 * function until it succeeds or the retry budget is spent, sleeping an exponentially
 * growing delay between attempts. The wrapped function is an oracle giving the outcome
 * of each attempt; the sleeps are returned instead of performed.
 */
module Retry {
  import opened Wrappers

  /** Outcome of one call of the wrapped function: a value, or the exception it raised. */
  datatype Attempt<T> = Success(value: T) | Failure(error: string)

  function Pow(b: nat, e: nat): nat {
    if e == 0 then 1 else b * Pow(b, e - 1)
  }

  /**
   * The wrapper: `attempt(k)` is what the `k`-th call (from 0) returns or raises. The result
   * is the first success, or the last failure once `max_retries` retries have failed.
   * `sleeps[k]` is the delay waited after the `k`-th failure.
   */
  method RetryWithBackoff<T>(attempt: nat -> Attempt<T>, maxRetries: int, initialDelay: nat, base: nat)
    returns (r: Attempt<T>, calls: nat, sleeps: seq<nat>)
    ensures 1 <= calls <= Max(maxRetries, 0) + 1
    ensures r == attempt(calls - 1)
    ensures forall k :: 0 <= k < calls - 1 ==> attempt(k).Failure?
    ensures r.Failure? ==> calls == Max(maxRetries, 0) + 1
    ensures r.Success? <==> exists k :: 0 <= k <= Max(maxRetries, 0) && attempt(k).Success?
    ensures |sleeps| == calls - 1
    ensures forall k :: 0 <= k < |sleeps| ==> sleeps[k] == initialDelay * Pow(base, k + 1)
  {
    var numRetries: nat := 0;
    var delay := initialDelay;
    sleeps := [];
    r := attempt(0);
    calls := 1;
    while r.Failure? && numRetries < maxRetries
      invariant calls == numRetries + 1 <= Max(maxRetries, 0) + 1
      invariant r == attempt(calls - 1)
      invariant forall k :: 0 <= k < calls - 1 ==> attempt(k).Failure?
      invariant delay == initialDelay * Pow(base, numRetries)
      invariant |sleeps| == numRetries
      invariant forall k :: 0 <= k < |sleeps| ==> sleeps[k] == initialDelay * Pow(base, k + 1)
      decreases maxRetries - numRetries
    {
      numRetries := numRetries + 1;
      delay := delay * base;
      sleeps := sleeps + [delay];
      r := attempt(calls);
      calls := calls + 1;
    }
  }
}
