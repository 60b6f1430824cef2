/**
 * The circuit breaker of src/utils.rs: a three-state machine that counts
 * consecutive failures of a dependency and blocks calls to it for a cooldown
 * once a threshold of failures is reached.
 *
 * Time is an explicit parameter: `now` and the stored failure time are
 * readings, in milliseconds, of a monotonic clock.
 *
 * The pure functions on `Snapshot` are the specification; the class
 * `CircuitBreaker` is the mutable object of the source, and each of its
 * methods is proved to move its `View()` exactly as the matching function says.
 */
module Breaker {

  import opened Ints

  datatype Option<T> = None | Some(value: T)

  datatype CircuitState = Closed | Open | HalfOpen

  /** The five fields of the breaker, as a value. */
  datatype Snapshot = Snapshot(
    state: CircuitState,
    failureCount: u32,
    failureThreshold: u32,
    resetTimeoutMs: u64,
    lastFailureTime: Option<nat>)

  /** Outcome of the gate: whether the call may go ahead, and the breaker after the check. */
  datatype Decision = Decision(allowed: bool, next: Snapshot)

  /**
   * The invariant every reachable breaker keeps: a breaker that is not closed
   * has recorded a failure and has reached its threshold, and a closed breaker
   * is below its threshold unless it has seen no failures since the last reset.
   */
  predicate Consistent(b: Snapshot)
  {
    (b.state != Closed ==> b.lastFailureTime.Some? && b.failureCount >= b.failureThreshold) &&
    (b.state == Closed ==> b.failureCount == 0 || b.failureCount < b.failureThreshold)
  }

  /** `CircuitBreaker::new`. */
  function Initial(failureThreshold: u32, resetTimeoutMs: u64): (b: Snapshot)
    ensures b.state == Closed && b.failureCount == 0 && b.lastFailureTime == None
    ensures b.failureThreshold == failureThreshold && b.resetTimeoutMs == resetTimeoutMs
    ensures Consistent(b)
  {
    Snapshot(Closed, 0, failureThreshold, resetTimeoutMs, None)
  }

  /** `record_success`: forget the failures and close, whatever the prior state. */
  function AfterSuccess(b: Snapshot): (r: Snapshot)
    ensures r.state == Closed && r.failureCount == 0
    ensures r.failureThreshold == b.failureThreshold && r.resetTimeoutMs == b.resetTimeoutMs
    ensures r.lastFailureTime == b.lastFailureTime
    ensures Consistent(r)
  {
    b.(failureCount := 0, state := Closed)
  }

  /**
   * `record_failure` at time `now`. The count is a u32: the model requires it
   * not to be at its maximum, where the source's `+= 1` would overflow.
   */
  function AfterFailure(b: Snapshot, now: nat): (r: Snapshot)
    requires b.failureCount < U32_MAX
    ensures r.failureCount == b.failureCount + 1
    ensures r.lastFailureTime == Some(now)
    ensures r.failureThreshold == b.failureThreshold && r.resetTimeoutMs == b.resetTimeoutMs
    ensures r.state == Open <==> r.failureCount >= b.failureThreshold || b.state == Open
    ensures r.failureCount < b.failureThreshold ==> r.state == b.state
    ensures Consistent(b) ==> Consistent(r)
    // a failing trial call (or any failure while not closed) always re-opens
    ensures Consistent(b) && b.state != Closed ==> r.state == Open
  {
    var counted := b.(failureCount := b.failureCount + 1, lastFailureTime := Some(now));
    if counted.failureCount >= b.failureThreshold then counted.(state := Open) else counted
  }

  /** `Instant::elapsed` in milliseconds: it saturates at zero when the clock reads earlier. */
  function Elapsed(since: nat, now: nat): (ms: nat)
    ensures since <= now ==> since + ms == now
    ensures now <= since ==> ms == 0
  {
    if since <= now then now - since else 0
  }

  /** The cooldown has run out: a failure was recorded at least `resetTimeoutMs` ago. */
  predicate CooledDown(b: Snapshot, now: nat)
  {
    b.lastFailureTime.Some? && Elapsed(b.lastFailureTime.value, now) >= b.resetTimeoutMs
  }

  /** `can_execute` at time `now`. */
  function Gate(b: Snapshot, now: nat): (d: Decision)
    ensures b.state != Open ==> d.allowed && d.next == b
    ensures b.state == Open ==> (d.allowed <==> CooledDown(b, now))
    ensures b.state == Open && d.allowed ==> d.next == b.(state := HalfOpen)
    ensures !d.allowed ==> d.next == b && b.state == Open
    ensures Consistent(b) ==> Consistent(d.next)
  {
    match b.state
    case Closed => Decision(true, b)
    case HalfOpen => Decision(true, b)
    case Open =>
      if CooledDown(b, now) then Decision(true, b.(state := HalfOpen))
      else Decision(false, b)
  }

  /**
   * The `remaining_ms` of `can_execute`: the wait still to go before the
   * cooldown ends, by saturating subtraction from the timeout. The elapsed
   * milliseconds pass through `as u64` first.
   */
  function RemainingMs(b: Snapshot, now: nat): (ms: u64)
    ensures ms <= b.resetTimeoutMs
    ensures b.lastFailureTime.None? ==> ms == 0
    ensures b.lastFailureTime.Some? ==>
      var elapsed := TruncateToU64(Elapsed(b.lastFailureTime.value, now));
      (ms == 0 <==> elapsed >= b.resetTimeoutMs) &&
      (ms > 0 ==> elapsed + ms == b.resetTimeoutMs)
  {
    match b.lastFailureTime
    case Some(failureTime) =>
      var elapsedMs := TruncateToU64(Elapsed(failureTime, now));
      if elapsedMs < b.resetTimeoutMs then b.resetTimeoutMs - elapsedMs else 0
    case None => 0
  }

  /**
   * Whenever the gate blocks a breaker that has a failure time, the wait it
   * reports is positive and is exactly what is left of the timeout: the
   * `as u64` truncation never applies there. This holds because the model
   * reads the clock once per check; the source reads it a second time for the
   * logged wait, which is 0 when the cooldown runs out in between.
   */
  lemma BlockedWaitIsPositive(b: Snapshot, now: nat)
    requires b.lastFailureTime.Some?
    requires !Gate(b, now).allowed
    ensures 0 < RemainingMs(b, now)
    ensures Elapsed(b.lastFailureTime.value, now) + RemainingMs(b, now) == b.resetTimeoutMs
  {
  }

  /** `record_success` applied twice leaves the breaker as applying it once. */
  lemma SuccessIsIdempotent(b: Snapshot)
    ensures AfterSuccess(AfterSuccess(b)) == AfterSuccess(b)
  {
  }

  /** For a positive threshold, a reachable breaker is closed exactly while it is below the threshold. */
  lemma ClosedIffBelowThreshold(b: Snapshot)
    requires Consistent(b) && b.failureThreshold > 0
    ensures b.state == Closed <==> b.failureCount < b.failureThreshold
  {
  }

  // ---------------------------------------------------------------------
  // Sequences of calls on one breaker

  datatype Event = Success | Failure(at: nat) | Check(at: nat)

  function Step(b: Snapshot, e: Event): (r: Snapshot)
    requires e.Failure? ==> b.failureCount < U32_MAX
  {
    match e
    case Success => AfterSuccess(b)
    case Failure(now) => AfterFailure(b, now)
    case Check(now) => Gate(b, now).next
  }

  /**
   * The count is below its maximum at every failure of the sequence, so no
   * `+= 1` of `record_failure` overflows. A success in between resets the
   * count, as it does in the source.
   */
  predicate NoOverflow(b: Snapshot, es: seq<Event>)
    decreases |es|
  {
    es == [] ||
    ((es[0].Failure? ==> b.failureCount < U32_MAX) && NoOverflow(Step(b, es[0]), es[1..]))
  }

  /** The breaker after the events, in order. */
  function Run(b: Snapshot, es: seq<Event>): (r: Snapshot)
    requires NoOverflow(b, es)
    ensures r.failureThreshold == b.failureThreshold && r.resetTimeoutMs == b.resetTimeoutMs
    ensures Consistent(b) ==> Consistent(r)
    ensures b.lastFailureTime.Some? ==> r.lastFailureTime.Some?
    decreases |es|
  {
    if es == [] then b else Run(Step(b, es[0]), es[1..])
  }

  /** Failures recorded at the given times. */
  function Failures(times: seq<nat>): seq<Event>
  {
    seq(|times|, i requires 0 <= i < |times| => Failure(times[i]))
  }

  /** Gate checks made at the given times. */
  function Checks(times: seq<nat>): seq<Event>
  {
    seq(|times|, i requires 0 <= i < |times| => Check(times[i]))
  }

  /**
   * Consecutive failures with no success in between: each adds one to the
   * count, the last one stamps the time, and the breaker is open afterwards
   * exactly when it was open already or the count has reached the threshold;
   * otherwise it keeps its state.
   */
  lemma {:induction false} ConsecutiveFailures(b: Snapshot, times: seq<nat>)
    requires b.failureCount + |times| <= U32_MAX
    ensures NoOverflow(b, Failures(times))
    ensures
      var r := Run(b, Failures(times));
      r.failureCount == b.failureCount + |times| &&
      r.state == (if b.state == Open || (|times| > 0 && b.failureCount + |times| >= b.failureThreshold)
                  then Open else b.state) &&
      (|times| > 0 ==> r.lastFailureTime == Some(times[|times| - 1])) &&
      (|times| == 0 ==> r == b)
    decreases |times|
  {
    if times != [] {
      var b' := AfterFailure(b, times[0]);
      assert Failures(times)[0] == Failure(times[0]);
      assert Failures(times)[1..] == Failures(times[1..]);
      ConsecutiveFailures(b', times[1..]);
    }
  }

  /**
   * A fresh breaker fed failures opens at the failure where the count first
   * reaches the threshold, and not before.
   */
  lemma OpensAtThreshold(failureThreshold: u32, resetTimeoutMs: u64, times: seq<nat>, i: nat)
    requires i <= |times| <= U32_MAX
    ensures NoOverflow(Initial(failureThreshold, resetTimeoutMs), Failures(times[..i]))
    ensures
      var r := Run(Initial(failureThreshold, resetTimeoutMs), Failures(times[..i]));
      r.failureCount == i && (r.state == Open <==> i > 0 && i >= failureThreshold) &&
      (r.state != Open ==> r.state == Closed)
  {
    ConsecutiveFailures(Initial(failureThreshold, resetTimeoutMs), times[..i]);
  }

  /**
   * Failures at the count's maximum are refused only while no success has
   * reset it: after a success the count can climb all the way again.
   */
  lemma SuccessRenewsFailureBudget(b: Snapshot, times: seq<nat>)
    requires |times| <= U32_MAX
    ensures NoOverflow(b, [Success] + Failures(times))
    ensures Run(b, [Success] + Failures(times)).failureCount == |times|
  {
    var es := [Success] + Failures(times);
    assert es[0] == Success;
    assert es[1..] == Failures(times);
    ConsecutiveFailures(AfterSuccess(b), times);
  }

  /** Gate checks made while the cooldown is still running block and leave the breaker as it was. */
  lemma {:induction false} OpenWhileCooling(b: Snapshot, times: seq<nat>)
    requires b.state == Open
    requires forall i :: 0 <= i < |times| ==> !CooledDown(b, times[i])
    ensures NoOverflow(b, Checks(times))
    ensures Run(b, Checks(times)) == b
    ensures forall i :: 0 <= i < |times| ==> !Gate(b, times[i]).allowed
    decreases |times|
  {
    if times != [] {
      assert Checks(times)[0] == Check(times[0]);
      assert Checks(times)[1..] == Checks(times[1..]);
      OpenWhileCooling(b, times[1..]);
    }
  }

  /** Running two sequences one after the other is running their concatenation. */
  lemma {:induction false} RunAppend(b: Snapshot, es: seq<Event>, more: seq<Event>)
    requires NoOverflow(b, es + more)
    ensures NoOverflow(b, es) && NoOverflow(Run(b, es), more)
    ensures Run(b, es + more) == Run(Run(b, es), more)
    decreases |es|
  {
    if es == [] {
      assert es + more == more;
    } else {
      assert (es + more)[0] == es[0];
      assert (es + more)[1..] == es[1..] + more;
      RunAppend(Step(b, es[0]), es[1..], more);
    }
  }

  /**
   * After checks that block during the cooldown, the first check made once it
   * has run out is allowed and moves the breaker to half-open.
   */
  lemma HalfOpenAfterCooldown(b: Snapshot, early: seq<nat>, now: nat)
    requires b.state == Open
    requires forall i :: 0 <= i < |early| ==> !CooledDown(b, early[i])
    requires CooledDown(b, now)
    ensures NoOverflow(b, Checks(early + [now]))
    ensures Run(b, Checks(early + [now])) == b.(state := HalfOpen)
  {
    OpenWhileCooling(b, early);
    var last := [Check(now)];
    assert NoOverflow(b, last) by {
      assert last[1..] == [];
    }
    assert Checks(early + [now]) == Checks(early) + last;
    NoOverflowAppend(b, Checks(early), last);
    RunAppend(b, Checks(early), last);
    assert Run(b, last) == b.(state := HalfOpen) by {
      assert last[1..] == [];
    }
  }

  /** A sequence that does not overflow, followed by one that does not from where it ends, does not overflow. */
  lemma {:induction false} NoOverflowAppend(b: Snapshot, es: seq<Event>, more: seq<Event>)
    requires NoOverflow(b, es) && NoOverflow(Run(b, es), more)
    ensures NoOverflow(b, es + more)
    decreases |es|
  {
    if es == [] {
      assert es + more == more;
    } else {
      assert (es + more)[0] == es[0];
      assert (es + more)[1..] == es[1..] + more;
      NoOverflowAppend(Step(b, es[0]), es[1..], more);
    }
  }

  // ---------------------------------------------------------------------
  // The mutable breaker

  class CircuitBreaker {
    var state: CircuitState
    var failureCount: u32
    const failureThreshold: u32
    const resetTimeoutMs: u64
    var lastFailureTime: Option<nat>

    function View(): Snapshot
      reads this
    {
      Snapshot(state, failureCount, failureThreshold, resetTimeoutMs, lastFailureTime)
    }

    ghost predicate Valid()
      reads this
    {
      Consistent(View())
    }

    constructor (failureThreshold: u32, resetTimeoutMs: u64)
      ensures Valid()
      ensures View() == Initial(failureThreshold, resetTimeoutMs)
    {
      state := Closed;
      failureCount := 0;
      this.failureThreshold := failureThreshold;
      this.resetTimeoutMs := resetTimeoutMs;
      lastFailureTime := None;
    }

    method RecordSuccess()
      modifies this
      ensures Valid()
      ensures View() == AfterSuccess(old(View()))
    {
      failureCount := 0;
      state := Closed;
    }

    method RecordFailure(now: nat)
      requires Valid()
      requires failureCount < U32_MAX
      modifies this
      ensures Valid()
      ensures View() == AfterFailure(old(View()), now)
    {
      failureCount := failureCount + 1;
      lastFailureTime := Some(now);
      if failureCount >= failureThreshold {
        state := Open;
      }
    }

    method CanExecute(now: nat) returns (allowed: bool)
      requires Valid()
      modifies this
      ensures Valid()
      ensures Decision(allowed, View()) == Gate(old(View()), now)
    {
      match state
      case Closed =>
        allowed := true;
      case Open =>
        if lastFailureTime.Some? && Elapsed(lastFailureTime.value, now) >= resetTimeoutMs {
          state := HalfOpen;
          return true;
        }
        allowed := false;
      case HalfOpen =>
        allowed := true;
    }
  }

  /**
   * A breaker with threshold 3 and a 1000 ms cooldown that fails three times
   * opens; a check 500 ms after the last failure is refused and one 1000 ms
   * after it is allowed and moves it to half-open.
   */
  method TripAndRecover()
    returns (closedAfterTwo: bool, openAfterThree: bool, earlyCheck: bool, lateCheck: bool, halfOpen: bool)
    ensures closedAfterTwo && openAfterThree && !earlyCheck && lateCheck && halfOpen
  {
    var breaker := new CircuitBreaker(3, 1000);
    breaker.RecordFailure(0);
    breaker.RecordFailure(10);
    closedAfterTwo := breaker.state == Closed;
    breaker.RecordFailure(20);
    openAfterThree := breaker.state == Open;
    earlyCheck := breaker.CanExecute(520);
    lateCheck := breaker.CanExecute(1020);
    halfOpen := breaker.state == HalfOpen;
  }
}
