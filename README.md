# Circuit breaker and retry loop of warp-chatbot, in Dafny

This project models the resilience helpers of `src/utils.rs` in the
warp-chatbot repository and proves properties of them.

- **Circuit breaker** (`ints.dfy`, `circuit_breaker.dfy`, module `Breaker`).
  A three-state machine (`Closed`, `Open`, `HalfOpen`) with a consecutive-failure
  count, a fixed failure threshold, a fixed reset timeout in milliseconds and an
  optional time of the last failure. The pure functions `Initial`,
  `AfterSuccess`, `AfterFailure` and `Gate` on the value type `Snapshot` are the
  specification. The class `CircuitBreaker` is the mutable struct of the source:
  its methods `RecordSuccess`, `RecordFailure` and `CanExecute` update its fields
  in place, and each is proved to move `View()` exactly as the matching function
  says, keeping the invariant `Consistent`. A non-closed breaker has a failure
  time and has reached its threshold. A closed breaker is below its threshold,
  or has seen no failure since its last reset. `Run` folds a sequence of
  successes, failures and gate checks over a breaker. The lemmas about `Run`
  cover the state machine across several calls: when the breaker opens, that
  it stays open during the cooldown, and that it turns half-open at the first
  check after the cooldown.
- **Retry policy and retry loop** (`retry.dfy`, module `Retry`). `RetryPolicy`
  holds `maxRetries` and a backoff function from retry number to milliseconds.
  `RetryAsync` is the loop of `retry_async`. It models three things as
  explicit values. The operation is a sequence of outcomes, one per call. The
  random jitter is a sequence of draws in `0..=100`. Each sleep is the delay
  appended to the output sequence `delays`.

Time is an explicit parameter `now: nat`, a reading in milliseconds of a
monotonic clock. The elapsed time is `now - lastFailureTime`, and it stays at
zero if the clock reads earlier, as Rust's `Instant::elapsed` does. Fixed-width
integers are subset types `u32` and `u64` of `int`.

The retry loop and the breaker are independent. `retry_async` never calls
`can_execute`, `record_success` or `record_failure`, so the model keeps the
two apart. The only use of the breaker to gate a retry is the commented-out
example at src/utils.rs:184-205, which is not compiled code. Two edge cases
follow the code. When `max_retries` is 0 the loop still makes one call,
because the exit test comes after the first failure (src/utils.rs:137-138).
The jitter range `0..=100` includes 100 (src/utils.rs:144).

## Model

| member | source | states |
|---|---|---|
| `Breaker.Initial` | src/utils.rs:35-43 | a new breaker is Closed with count 0 and no failure time, stores threshold and timeout exactly as given, and satisfies the invariant |
| `Breaker.AfterSuccess` | src/utils.rs:45-47 | whatever the prior state, the breaker is Closed with count 0 afterwards; the configuration and the failure time are untouched; the result always satisfies the invariant |
| `Breaker.SuccessIsIdempotent` | src/utils.rs:45-47 | recording a success twice gives the same breaker as recording it once |
| `Breaker.AfterFailure` | src/utils.rs:51-58 | the count goes up by exactly one and the failure time becomes `now`; threshold and timeout do not change; the breaker is Open afterwards iff the new count reaches the threshold or it was Open already; below the threshold the prior state is kept; the invariant is preserved; a failure while HalfOpen (or Open) always leaves it Open |
| `Breaker.ClosedIffBelowThreshold` | src/utils.rs:51-58 | for a positive threshold, a breaker satisfying the invariant is Closed exactly when its count is below the threshold |
| `Breaker.Elapsed` | src/utils.rs:67 | the elapsed milliseconds since a failure time, zero when the clock reads earlier |
| `Breaker.Gate` | src/utils.rs:61-88 | Closed and HalfOpen allow the call and change nothing; Open allows it iff a failure time exists and the elapsed time is at least the timeout, and then moves to HalfOpen; a refused call leaves the breaker Open and unchanged; the invariant is preserved |
| `Breaker.RemainingMs` | src/utils.rs:73-82 | the reported wait never exceeds the timeout; it is 0 with no failure time; otherwise it is 0 iff the elapsed time (after `as u64`) has reached the timeout, and elapsed plus wait equals the timeout when it is positive |
| `Breaker.BlockedWaitIsPositive` | src/utils.rs:64-84 | when the gate refuses a breaker that has a failure time, the reported wait, taken at the same clock reading, is positive and equals the timeout minus the elapsed time |
| `Breaker.Run` | src/utils.rs:45-88 | across any sequence of successes, failures and gate checks in which no failure meets a count at its u32 maximum (`NoOverflow`; a success resets the count), threshold and timeout never change, the invariant is preserved, and a failure time once recorded stays present |
| `Breaker.SuccessRenewsFailureBudget` | src/utils.rs:45-53 | after a success, any number of failures up to the u32 maximum can follow without overflow, and the count equals their number |
| `Breaker.ConsecutiveFailures` | src/utils.rs:51-58 | after k failures with no success in between, the count has grown by k, the failure time is the last failure's, and the breaker is Open iff it was Open before or the count reached the threshold; otherwise its state is unchanged |
| `Breaker.OpensAtThreshold` | src/utils.rs:35-58 | a new breaker fed i failures has count i and is Open iff i is positive and at least the threshold, and Closed otherwise: it opens at the failure where the count first reaches the threshold |
| `Breaker.OpenWhileCooling` | src/utils.rs:64-84 | every gate check made before the cooldown has run out is refused and leaves the Open breaker unchanged |
| `Breaker.RunAppend` | src/utils.rs:45-88 | running two event sequences one after the other equals running their concatenation, and neither part overflows when the whole does not |
| `Breaker.NoOverflowAppend` | src/utils.rs:51-53 | two sequences that do not overflow in turn do not overflow when concatenated |
| `Breaker.HalfOpenAfterCooldown` | src/utils.rs:64-71 | after refused checks during the cooldown, the first check once it has run out moves the breaker to HalfOpen and changes nothing else |
| `Breaker.CircuitBreaker.constructor` | src/utils.rs:35-43 | the new object's fields equal `Initial` of the arguments and satisfy the invariant |
| `Breaker.CircuitBreaker.RecordSuccess` | src/utils.rs:45-49 | the fields afterwards are `AfterSuccess` of the fields before, and the invariant holds |
| `Breaker.CircuitBreaker.RecordFailure` | src/utils.rs:51-59 | the fields afterwards are `AfterFailure` of the fields before at `now`, and the invariant is kept |
| `Breaker.CircuitBreaker.CanExecute` | src/utils.rs:61-88 | the returned flag and the fields afterwards are exactly `Gate` of the fields before at `now`, and the invariant is kept |
| `Breaker.TripAndRecover` | src/utils.rs:51-85 | with threshold 3 and timeout 1000: Closed after two failures (its own output), Open after the third; a check 500 ms later is refused; a check 1000 ms later is allowed and leaves the breaker HalfOpen |
| `Ints.TruncateToU64` | src/utils.rs:74 | `as u64` leaves values up to the u64 maximum unchanged |
| `Ints.WrappingAddU64` | src/utils.rs:145 | u64 addition equals the mathematical sum when it fits and wraps below its first operand when it does not |
| `Retry.NewPolicy` | src/utils.rs:105-110 | the policy stores the retry ceiling and the backoff function as given |
| `Retry.GetBackoffMs` | src/utils.rs:113-115 | the backoff is exactly the policy's function at the retry number |
| `Retry.MaxCalls` | src/utils.rs:129-141 | the call budget is at least 1 and at least `maxRetries`, and is one of the two |
| `Retry.Delay` | src/utils.rs:143-145 | unless the base is within 100 of the u64 maximum, the delay is base plus jitter and lies between base and base + 100, inclusive |
| `Retry.RetryAsync` | src/utils.rs:119-156 | at least 1 and at most `MaxCalls(maxRetries)` calls; the last call's outcome is returned unchanged; every earlier call failed, so an Ok result is the first Ok; an Err is returned only after the whole budget is spent; there is exactly one sleep between consecutive calls, and sleep k is `Delay(GetBackoffMs(k + 1), jitters[k])`, so the backoff is queried with 1, 2, 3 and so on in order; termination holds because `attempt` strictly increases |
| `Retry.ExhaustsAfterFiveFailures` | src/utils.rs:129-141 | with `maxRetries` 5, zero backoff and five failing calls, the fifth error is returned after five calls, and each of the four sleeps is the jitter alone |
| `Retry.SucceedsOnSecondCall` | src/utils.rs:129-152 | with `maxRetries` 3 and an operation that fails once, then succeeds, the success value is returned after two calls and one sleep of backoff(1) + jitter |

## Left out

- Logging: every `println!` in `src/utils.rs` is output only and changes no state.
- Concurrency and async: the `Future`s and `await`, and any sharing of a breaker through `Arc<Mutex<…>>`. The live code shares no breaker, and callers are taken to be sequential.
- Clock: `Instant::now()` and `elapsed()` become the parameter `now` in milliseconds. Sub-millisecond precision of the `Duration` comparison at line 67 is not modelled.
- Breaker.Gate: uses one clock reading for the whole check. The source reads the clock again at line 74 for the wait it logs, so a later second reading is not modelled.
- Randomness: `rand::thread_rng().gen_range(0..=100)` becomes the input sequence `jitters`, each draw at most 100.
- Sleeping: `tokio::time::sleep` becomes appending the delay to `delays`. Wall-clock time passing during a sleep is not modelled.
- Breaker.AfterFailure: requires the count to be below the u32 maximum. At the maximum, the source's `+= 1` panics in a debug build and wraps in a release build; neither is modelled.
- Breaker.CircuitBreaker.RecordFailure: needs the same bound on the count, for the same reason.
- Breaker.Run: requires the same bound at every failure of the sequence (`NoOverflow`), for the same reason.
- Retry.Delay: models `base_backoff + jitter` as release-build u64 wrap-around. The debug-build overflow panic is not modelled.
- The `E: Display` bound of `retry_async`: it serves only the log lines, so error values are plain type parameters.
- The commented-out usage example (src/utils.rs:160-218): it is not compiled code, and its `retry_async(3, …)` call does not match the real signature.
- `src/routes/question.rs` and `src/store.rs`: these are HTTP handlers and store plumbing over warp, serde and `RwLock`. They use neither the breaker nor the retry loop.
