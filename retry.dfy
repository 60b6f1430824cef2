/**
 * The retry policy and the retry loop of src/utils.rs.
 *
 * The retried operation is a sequence of outcomes, one per call in call
 * order; the random jitter is a sequence of draws, one per sleep; and each
 * sleep is recorded by appending its delay to an output sequence. The loop
 * does not consult a circuit breaker.
 */
module Retry {

  import opened Ints

  datatype Result<T, E> = Ok(value: T) | Err(error: E)

  /** The largest jitter a sleep can add, in milliseconds (`gen_range(0..=100)`). */
  const MAX_JITTER_MS: nat := 100

  /** An attempt ceiling and a caller-chosen map from retry number to base delay. */
  datatype RetryPolicy = RetryPolicy(maxRetries: u32, backoffMs: u32 -> u64)

  /** `RetryPolicy::new`. */
  function NewPolicy(maxRetries: u32, backoffMs: u32 -> u64): (p: RetryPolicy)
    ensures p.maxRetries == maxRetries && p.backoffMs == backoffMs
  {
    RetryPolicy(maxRetries, backoffMs)
  }

  /** `get_backoff_ms`: the policy's own function at the retry number, unaltered. */
  function GetBackoffMs(p: RetryPolicy, retryCount: u32): (ms: u64)
    ensures ms == p.backoffMs(retryCount)
  {
    p.backoffMs(retryCount)
  }

  /**
   * The most calls the loop makes: the first call always happens, and the
   * loop gives up once the failure count reaches `maxRetries`.
   */
  function MaxCalls(maxRetries: u32): (n: nat)
    ensures 1 <= n <= U32_MAX
    ensures n >= maxRetries && (n == maxRetries || n == 1)
  {
    if maxRetries == 0 then 1 else maxRetries
  }

  /**
   * `base_backoff + jitter` in a release build, where a u64 overflow wraps.
   * Unless the base delay is within 100 ms of the largest u64, the delay is
   * the base plus the jitter, so it lies between the base and the base plus 100.
   */
  function Delay(base: u64, jitter: nat): (d: u64)
    requires jitter <= MAX_JITTER_MS
    ensures base <= U64_MAX - MAX_JITTER_MS ==> d == base + jitter && base <= d <= base + MAX_JITTER_MS
  {
    WrappingAddU64(base, jitter)
  }

  /**
   * `retry_async`: call the operation until it succeeds or has failed
   * `maxRetries` times (once, when `maxRetries` is 0), sleeping for the
   * backoff of the failure number plus a jitter after every failure that
   * does not end the loop.
   *
   * `calls` is the number of times the operation ran and `delays[k]` the
   * sleep between call k and call k + 1 (counting from 0).
   */
  method RetryAsync<T, E>(policy: RetryPolicy, outcomes: seq<Result<T, E>>, jitters: seq<nat>)
    returns (result: Result<T, E>, calls: nat, delays: seq<u64>)
    requires MaxCalls(policy.maxRetries) <= |outcomes|
    requires MaxCalls(policy.maxRetries) - 1 <= |jitters|
    requires forall k :: 0 <= k < |jitters| ==> jitters[k] <= MAX_JITTER_MS
    ensures 1 <= calls <= MaxCalls(policy.maxRetries)
    // the outcome of the last call is returned unchanged, Ok or Err
    ensures result == outcomes[calls - 1]
    // every call but the last failed, so an Ok result is the first Ok
    ensures forall i :: 0 <= i < calls - 1 ==> outcomes[i].Err?
    // an error is returned only once the retry budget is spent
    ensures result.Err? ==> calls == MaxCalls(policy.maxRetries)
    // exactly one sleep between consecutive calls, of backoff(k + 1) plus the k-th jitter
    ensures |delays| == calls - 1
    ensures forall k :: 0 <= k < |delays| ==> delays[k] == Delay(GetBackoffMs(policy, k + 1), jitters[k])
  {
    var attempt: u32 := 0;
    calls := 0;
    delays := [];
    while true
      invariant calls == attempt < MaxCalls(policy.maxRetries)
      invariant forall i :: 0 <= i < calls ==> outcomes[i].Err?
      invariant |delays| == calls
      invariant forall k :: 0 <= k < |delays| ==> delays[k] == Delay(GetBackoffMs(policy, k + 1), jitters[k])
      decreases MaxCalls(policy.maxRetries) - attempt
    {
      var outcome := outcomes[calls];
      calls := calls + 1;
      match outcome
      case Ok(value) =>
        return Ok(value), calls, delays;
      case Err(e) =>
        attempt := attempt + 1;
        if attempt >= policy.maxRetries {
          return Err(e), calls, delays;
        }
        var baseBackoff := GetBackoffMs(policy, attempt);
        var jitter := jitters[attempt - 1];
        var delay := Delay(baseBackoff, jitter);
        delays := delays + [delay];
    }
  }

  /**
   * With `maxRetries` 5 and a zero backoff, an operation that always fails is
   * called five times and the fifth error is returned; every sleep is the
   * jitter alone.
   */
  method ExhaustsAfterFiveFailures(jitters: seq<nat>)
    returns (result: Result<string, nat>, calls: nat, delays: seq<u64>)
    requires |jitters| == 4
    requires forall k :: 0 <= k < |jitters| ==> jitters[k] <= MAX_JITTER_MS
    ensures result == Err(5) && calls == 5
    ensures |delays| == 4 && forall k :: 0 <= k < 4 ==> delays[k] == jitters[k]
  {
    var policy := NewPolicy(5, (n: u32) => 0);
    var outcomes: seq<Result<string, nat>> := [Err(1), Err(2), Err(3), Err(4), Err(5)];
    result, calls, delays := RetryAsync(policy, outcomes, jitters);
  }

  /**
   * With `maxRetries` 3, an operation that fails once and then succeeds is
   * called twice and its success value is returned, after one sleep.
   */
  method SucceedsOnSecondCall(jitter: nat)
    returns (result: Result<string, string>, calls: nat, delays: seq<u64>)
    requires jitter <= MAX_JITTER_MS
    ensures result == Ok("ok") && calls == 2
    ensures delays == [1000 + jitter]
  {
    var policy := NewPolicy(3, (n: u32) => if n == 1 then 1000 else 2000);
    var outcomes: seq<Result<string, string>> := [Err("down"), Ok("ok"), Ok("later")];
    result, calls, delays := RetryAsync(policy, outcomes, [jitter, 0]);
    assert calls != 1 by { assert outcomes[0].Err?; }
    assert calls != 3 by { assert !outcomes[1].Err?; }
  }
}
