/** Calling an agent to run a job, with retries and an exponential backoff in 64-bit nanoseconds. */
module Backoff {
  import opened Wrappers
  import opened Types

  function Power2(n: nat): nat {
    if n == 0 then 1 else 2 * Power2(n - 1)
  }

  /** The backoff after `n` more rounds of doubling: it is capped, and the doubling ends, as soon as it exceeds the
      cap. */
  function Doubled(backoff: int, max: int, n: nat): int
    decreases n
  {
    if n == 0 then Min(backoff, max)
    else
      var next := Wrap64(backoff * 2);
      if next > max then max else Doubled(next, max, n - 1)
  }

  // The pause before the given attempt, which is not the first.
  function Delay(initial: int, max: int, attempt: nat): int
    requires attempt > 0
  {
    Doubled(initial, max, attempt - 1)
  }

  /** The pause as it is computed. */
  method ComputeBackoff(initialInterval: int, maxInterval: int, attempt: nat) returns (backoff: int)
    requires attempt > 0
    ensures backoff == Delay(initialInterval, maxInterval, attempt)
  {
    backoff := initialInterval;
    var i := 1;
    while i < attempt
      invariant 1 <= i <= attempt
      invariant Doubled(backoff, maxInterval, attempt - i) == Delay(initialInterval, maxInterval, attempt)
    {
      backoff := Wrap64(backoff * 2);
      // Cap early to prevent overflow.
      if backoff > maxInterval {
        backoff := maxInterval;
        break;
      }
      i := i + 1;
    }
    if backoff > maxInterval {
      backoff := maxInterval;
    }
  }

  lemma NoWrap(x: int)
    requires -MAX_INT64 - 1 <= x <= MAX_INT64
    ensures Wrap64(x) == x
  {
  }

  /** The largest number that `initial` reaches by doubling within 64 bits. */
  function Top(initial: int): (top: int)
    requires 0 < initial <= MAX_INT64
    ensures initial <= top <= MAX_INT64 < 2 * top
    decreases MAX_INT64 - initial
  {
    if 2 * initial <= MAX_INT64 then Top(2 * initial) else initial
  }

  // Doubling does not leave 64 bits before it exceeds the cap.
  predicate Safe(initial: int, max: int)
    requires 0 < initial <= MAX_INT64
  {
    2 * initial <= MAX_INT64 && max < Top(initial)
  }

  lemma PowerPositive(n: nat)
    ensures Power2(n) > 0
  {
  }

  lemma {:induction false} SafeIsExact(initial: int, max: int, n: nat)
    requires 0 < initial <= MAX_INT64 && max < Top(initial) && (n > 0 ==> 2 * initial <= MAX_INT64)
    ensures Doubled(initial, max, n) == Min(initial * Power2(n), max)
    decreases n
  {
    if n > 0 {
      NoWrap(2 * initial);
      PowerPositive(n - 1);
      Regroup(initial, Power2(n - 1));
      if 2 * initial <= max {
        // Top is reached from here by further doubling.
        SafeIsExact(2 * initial, max, n - 1);
      } else {
        AtLeast(2 * initial, Power2(n - 1));
      }
    }
  }

  lemma Regroup(a: int, p: int)
    ensures a * (2 * p) == (2 * a) * p
  {
  }

  lemma AtLeast(a: int, p: int)
    requires a > 0 && p > 0
    ensures a * p >= a
  {
  }

  lemma {:induction false} TopWraps(initial: int, max: int) returns (n: nat)
    requires 0 < initial <= MAX_INT64 && Top(initial) <= max
    ensures n > 0 && Doubled(initial, max, n) < 0
    decreases MAX_INT64 - initial
  {
    if 2 * initial <= MAX_INT64 {
      n := TopWraps(2 * initial, max);
      NoWrap(2 * initial);
      n := n + 1;
    } else {
      n := 1;
      DoublingWraps(initial, max);
    }
  }

  lemma DoublingWraps(initial: int, max: int)
    requires 0 < initial <= MAX_INT64 < 2 * initial && 0 < max
    ensures Doubled(initial, max, 1) < 0
  {
    assert Wrap64(initial * 2) == 2 * initial - 0x1_0000_0000_0000_0000;
    assert Doubled(initial, max, 1) == Doubled(Wrap64(initial * 2), max, 0);
  }

  /** An unsafe doubling goes negative, and stays below the cap for one attempt at least. */
  lemma UnsafeGoesWrong(initial: int, max: int) returns (n: nat)
    requires 0 < initial <= MAX_INT64 && 0 < max && !Safe(initial, max)
    ensures n > 0 && Doubled(initial, max, n) < 0
  {
    if 2 * initial <= MAX_INT64 {
      n := TopWraps(initial, max);
    } else {
      n := 1;
      DoublingWraps(initial, max);
    }
  }

  ghost predicate ExactAt(initial: int, max: int, attempt: nat)
    requires attempt > 0
  {
    Delay(initial, max, attempt) == Min(initial * Power2(attempt - 1), max)
  }

  /** The pause before attempt k is min(initial * 2^(k-1), max) for every k exactly when the first doubling and all
      doublings up to the cap stay within 64 bits. */
  lemma BackoffExactIff(initial: int, max: int)
    requires 0 < initial <= MAX_INT64 && 0 < max <= MAX_INT64
    ensures (forall attempt: nat | attempt > 0 :: ExactAt(initial, max, attempt)) <==> Safe(initial, max)
  {
    if Safe(initial, max) {
      forall attempt: nat | attempt > 0 ensures ExactAt(initial, max, attempt) {
        SafeIsExact(initial, max, attempt - 1);
      }
    } else {
      var n := UnsafeGoesWrong(initial, max);
      PowerPositive(n);
      AtLeast(initial, Power2(n));
      assert !ExactAt(initial, max, n + 1);
    }
  }

  /** It is enough that both intervals are at most half of the largest 64-bit integer. */
  lemma HalfRangeIsExact(initial: int, max: int, attempt: nat)
    requires 0 < initial <= MAX_INT64 / 2 && max <= MAX_INT64 / 2 && attempt > 0
    ensures Delay(initial, max, attempt) == Min(initial * Power2(attempt - 1), max)
  {
    SafeIsExact(initial, max, attempt - 1);
  }

  // ---- The retry loop ----

  /** How a call of the agent ends. */
  datatype CallResult = Ran | Failed(error: string, retryable: bool)

  /** The first call that decides: it succeeds or fails for good, or no further retry is left. */
  function LastCall(call: nat -> CallResult, attempt: nat, maxRetries: int): nat
    requires attempt <= maxRetries
    decreases maxRetries - attempt
  {
    if attempt == maxRetries || call(attempt).Ran? || !call(attempt).retryable then attempt
    else LastCall(call, attempt + 1, maxRetries)
  }

  lemma {:induction false} LastCallIsFirst(call: nat -> CallResult, attempt: nat, maxRetries: int)
    requires attempt <= maxRetries
    ensures var last := LastCall(call, attempt, maxRetries);
            && attempt <= last <= maxRetries
            && (forall k | attempt <= k < last :: call(k).Failed? && call(k).retryable)
            && (last == maxRetries || call(last).Ran? || !call(last).retryable)
    decreases maxRetries - attempt
  {
    if !(attempt == maxRetries || call(attempt).Ran? || !call(attempt).retryable) {
      LastCallIsFirst(call, attempt + 1, maxRetries);
    }
  }

  /** Calls the agent until a call succeeds, fails for good, or no retry is left: at most maxRetries + 1 times, with
      the pause of the backoff before each further call. With a negative number of retries the agent is never called,
      and no error is returned. */
  method AgentRun(call: nat -> CallResult, maxRetries: int, initialInterval: int, maxInterval: int)
    returns (lastErr: Option<string>, calls: nat, pauses: seq<int>)
    ensures maxRetries < 0 ==> calls == 0 && lastErr.None?
    ensures maxRetries >= 0 ==>
              && calls == LastCall(call, 0, maxRetries) + 1 <= maxRetries + 1
              && lastErr == match call(calls - 1) case Ran => None case Failed(error, _) => Some(error)
    ensures |pauses| == (if calls == 0 then 0 else calls - 1)
    ensures forall k | 0 <= k < |pauses| :: pauses[k] == Delay(initialInterval, maxInterval, k + 1)
  {
    lastErr, calls, pauses := None, 0, [];
    if maxRetries >= 0 { LastCallIsFirst(call, 0, maxRetries); }
    var attempt := 0;
    while attempt <= maxRetries
      invariant attempt == calls && |pauses| == (if calls == 0 then 0 else calls - 1)
      invariant attempt <= maxRetries + 1 || attempt == 0
      invariant 0 <= attempt <= maxRetries ==> LastCall(call, 0, maxRetries) == LastCall(call, attempt, maxRetries)
      invariant attempt > 0 ==> call(attempt - 1).Failed? && lastErr == Some(call(attempt - 1).error)
      invariant attempt == 0 ==> lastErr.None?
      invariant attempt > maxRetries >= 0 ==> LastCall(call, 0, maxRetries) == maxRetries
      invariant forall k | 0 <= k < |pauses| :: pauses[k] == Delay(initialInterval, maxInterval, k + 1)
    {
      if attempt > 0 {
        var backoff := ComputeBackoff(initialInterval, maxInterval, attempt);
        pauses := pauses + [backoff];
      }
      var result := call(attempt);
      calls := calls + 1;
      if result.Ran? {
        return None, calls, pauses;
      }
      lastErr := Some(result.error);
      if !result.retryable {
        break;
      }
      attempt := attempt + 1;
    }
  }
}
