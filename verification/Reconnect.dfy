/** The reconnect loop (packages/paratix/src/ssh.ts): jittered exponential backoff inside a time window.
    Clock, random numbers and the outcome of each attempt are given from outside; times are milliseconds. */
module Reconnect {
  import opened Wrappers

  const RECONNECT_BASE_DELAY := 1000.0
  const RECONNECT_MAX_DELAY := 30000.0
  const JITTER_BASE := 0.75
  const JITTER_RANGE := 0.5

  /** How one connection attempt ends: connected, with an error that ends the loop, or with another one;
      and after that one the sleep is either waited out or cut short by the abort signal. */
  datatype Attempt = Connected | Fatal | Failed(sleepAborted: bool)

  /** What the loop meets: the clock when the guard is evaluated before attempt `k`, the attempt, the clock
      when its delay is computed, and the random number in it. */
  datatype World = World(guardAt: nat -> real, attempt: nat -> Attempt, failedAt: nat -> real, random: nat -> real)

  function Min(a: real, b: real): real { if a <= b then a else b }

  function Max(a: real, b: real): real { if a <= b then b else a }

  function Pow2(n: nat): (r: real)
    ensures r >= 1.0
  {
    if n == 0 then 1.0 else 2.0 * Pow2(n - 1)
  }

  function Backoff(attempt: nat): real {
    Min(RECONNECT_BASE_DELAY * Pow2(attempt), RECONNECT_MAX_DELAY)
  }

  function Delay(attempt: nat, random: real, remaining: real): real {
    Min(Backoff(attempt) * (JITTER_BASE + random * JITTER_RANGE), Max(0.0, remaining))
  }

  /** The clock does not run backwards, sleeps last at least as long as requested, and random numbers are
      in the unit interval. `start` is the clock when the deadline was computed. */
  ghost predicate Honest(w: World, start: real, deadline: real) {
    && start <= w.guardAt(0)
    && (forall k: nat {:trigger w.failedAt(k)} :: w.guardAt(k) <= w.failedAt(k) && 0.0 <= w.random(k) < 1.0)
    && (forall k: nat {:trigger w.failedAt(k)} ::
          w.failedAt(k) + Delay(k, w.random(k), deadline - w.failedAt(k)) <= w.guardAt(k + 1))
  }

  /** The least that `n` sleeps take when none is cut by the deadline. */
  function LeastSlept(n: nat): (r: real)
    ensures r >= 0.0
  {
    if n == 0 then 0.0 else LeastSlept(n - 1) + JITTER_BASE * Backoff(n - 1)
  }

  lemma Pow2Constants()
    ensures Pow2(0) == 1.0 && Pow2(1) == 2.0 && Pow2(2) == 4.0 && Pow2(3) == 8.0 && Pow2(4) == 16.0
  {
    assert Pow2(2) == 4.0;
  }

  lemma {:induction false} Pow2Late(n: nat)
    requires n >= 5
    ensures Pow2(n) >= 32.0
  {
    if n == 5 { Pow2Constants(); } else { Pow2Late(n - 1); }
  }

  lemma FirstBackoffs()
    ensures LeastSlept(5) == 23250.0
  {
    Pow2Constants();
    assert LeastSlept(1) == 750.0;
    assert LeastSlept(2) == 2250.0;
    assert LeastSlept(3) == 5250.0;
    assert LeastSlept(4) == 11250.0;
  }

  lemma {:induction false} SleptAtLeast(n: nat)
    ensures LeastSlept(n) >= 22500.0 * (n as real - 4.0)
  {
    if n == 5 {
      FirstBackoffs();
    } else if n > 5 {
      SleptAtLeast(n - 1);
      Pow2Late(n - 1);
    }
  }

  /** A sleep that ends before the deadline was not cut by it. */
  lemma FullSleep(k: nat, random: real, failedAt: real, next: real, deadline: real)
    requires 0.0 <= random < 1.0
    requires failedAt + Delay(k, random, deadline - failedAt) <= next && next < deadline
    ensures failedAt + JITTER_BASE * Backoff(k) <= next
  {
    var b := Backoff(k);
    assert b >= 0.0;
    assert b * (JITTER_BASE + random * JITTER_RANGE) >= JITTER_BASE * b by {
      assert b * (random * JITTER_RANGE) >= 0.0;
    }
  }

  datatype Outcome = Reconnected | GaveUp | Threw

  datatype Sleep = Sleep(from: real, delay: real)

  /** How many backoffs of 750 ms still fit: what makes the loop end. */
  function RoundsLeft(now: real, deadline: real): nat {
    if now < deadline then 1 + ((deadline - now) / 750.0).Floor else 0
  }

  lemma RoundsFall(k: nat, random: real, guardAt: real, failedAt: real, next: real, deadline: real)
    requires 0.0 <= random < 1.0 && guardAt <= failedAt && guardAt < deadline
    requires failedAt + Delay(k, random, deadline - failedAt) <= next
    ensures RoundsLeft(next, deadline) < RoundsLeft(guardAt, deadline)
  {
    if next < deadline {
      FullSleep(k, random, failedAt, next, deadline);
      assert Backoff(k) >= 1000.0;
      assert (deadline - next) / 750.0 <= (deadline - guardAt) / 750.0 - 1.0;
    }
  }

  /** A requested sleep ends by the deadline, or asks for nothing once that has passed. */
  predicate InWindow(sleep: Sleep, deadline: real) {
    sleep.delay >= 0.0 && sleep.from + sleep.delay <= Max(deadline, sleep.from)
  }

  /** Fewer than 5 + timeout / 22500. */
  predicate Few(attempts: nat, timeout: real) {
    attempts as real < 5.0 + timeout / 22500.0
  }

  /** The sleep that the loop requests after attempt `k` has failed. */
  function Requested(w: World, k: nat, deadline: real): Sleep {
    Sleep(w.failedAt(k), Delay(k, w.random(k), deadline - w.failedAt(k)))
  }

  ghost predicate OnTime(w: World, k: nat, start: real, deadline: real) {
    w.guardAt(k) < deadline ==> start + LeastSlept(k) <= w.guardAt(k)
  }

  /** One failed attempt and its sleep. */
  lemma Round(w: World, k: nat, start: real, deadline: real)
    requires Honest(w, start, deadline) && w.guardAt(k) < deadline && OnTime(w, k, start, deadline)
    ensures InWindow(Requested(w, k, deadline), deadline)
    ensures OnTime(w, k + 1, start, deadline)
    ensures RoundsLeft(w.guardAt(k + 1), deadline) < RoundsLeft(w.guardAt(k), deadline)
  {
    var random, failedAt, next := w.random(k), w.failedAt(k), w.guardAt(k + 1);
    assert w.guardAt(k) <= failedAt && 0.0 <= random < 1.0;
    assert failedAt + Delay(k, random, deadline - failedAt) <= next;
    DelayInWindow(k, random, failedAt, deadline);
    RoundsFall(k, random, w.guardAt(k), failedAt, next, deadline);
    if next < deadline { FullSleep(k, random, failedAt, next, deadline); }
  }

  lemma JitterRange(b: real, random: real)
    requires 0.0 <= random < 1.0 && b >= 0.0
    ensures 0.75 * b <= b * (JITTER_BASE + random * JITTER_RANGE) <= 1.25 * b
  {
    var r := random * JITTER_RANGE;
    assert 0.0 <= r <= 0.5;
    assert 0.0 <= b * r <= b * 0.5;
    assert b * (JITTER_BASE + r) == b * JITTER_BASE + b * r;
  }

  /** A second, then twice the previous one, but never more than half a minute. */
  lemma BackoffRange(k: nat)
    ensures 1000.0 <= Backoff(k) <= 30000.0
    ensures Backoff(k) == 30000.0 || Backoff(k) == 1000.0 * Pow2(k)
  {}

  lemma MinRange(low: real, x: real, high: real, cut: real)
    requires low <= x <= high
    ensures Min(x, cut) <= high && Min(x, cut) <= cut
    ensures Min(x, cut) >= low || Min(x, cut) == cut
  {}

  /** A sleep asks for between three quarters and five quarters of the backoff, which doubles from a second
      up to thirty, or for what is left of the window if that is less. */
  lemma DelayRange(k: nat, random: real, remaining: real)
    requires 0.0 <= random < 1.0
    ensures 1000.0 <= Backoff(k) <= 30000.0
    ensures Backoff(k) == 30000.0 || Backoff(k) == 1000.0 * Pow2(k)
    ensures Delay(k, random, remaining) <= 1.25 * Backoff(k)
    ensures Delay(k, random, remaining) <= Max(0.0, remaining)
    ensures Delay(k, random, remaining) >= 0.75 * Backoff(k) || Delay(k, random, remaining) == Max(0.0, remaining)
  {
    BackoffRange(k);
    var b := Backoff(k);
    JitterRange(b, random);
    MinRange(0.75 * b, b * (JITTER_BASE + random * JITTER_RANGE), 1.25 * b, Max(0.0, remaining));
  }

  method RequestSleep(w: World, attempt: nat, start: real, deadline: real) returns (sleep: Sleep)
    requires Honest(w, start, deadline) && w.guardAt(attempt) < deadline && OnTime(w, attempt, start, deadline)
    ensures sleep == Requested(w, attempt, deadline) && InWindow(sleep, deadline)
    ensures OnTime(w, attempt + 1, start, deadline)
    ensures RoundsLeft(w.guardAt(attempt + 1), deadline) < RoundsLeft(w.guardAt(attempt), deadline)
  {
    Round(w, attempt, start, deadline);
    var now := w.failedAt(attempt);
    var jitter := Backoff(attempt) * (JITTER_BASE + w.random(attempt) * JITTER_RANGE);
    sleep := Sleep(now, Min(jitter, Max(0.0, deadline - now)));
  }

  /** However long the window and without a cap on attempts, a window of `timeout` ms sees fewer than
      5 + timeout / 22500 attempts, and no requested sleep passes the deadline. */
  method Reconnect(w: World, start: real, timeout: real, maxAttempts: Option<int>)
    returns (outcome: Outcome, attempts: nat, sleeps: seq<Sleep>)
    requires Honest(w, start, start + timeout)
    ensures attempts > 0 ==> Few(attempts, timeout)
    ensures maxAttempts.Some? && attempts > 0 ==> attempts <= maxAttempts.value
    ensures forall i :: 0 <= i < |sleeps| ==> InWindow(sleeps[i], start + timeout)
    ensures forall i :: 0 <= i < |sleeps| ==> sleeps[i] == Requested(w, i, start + timeout)
    ensures outcome == Reconnected <==> attempts > 0 && w.attempt(attempts - 1) == Connected
    ensures outcome == Threw <==>
              attempts > 0 && (w.attempt(attempts - 1) == Fatal || w.attempt(attempts - 1) == Failed(true))
    ensures |sleeps| == if attempts > 0 && !w.attempt(attempts - 1).Failed? then attempts - 1 else attempts
    ensures outcome == GaveUp ==>
              || w.guardAt(attempts) >= start + timeout
              || (maxAttempts.Some? && attempts >= maxAttempts.value)
    ensures forall i :: 0 <= i < attempts - 1 ==> w.attempt(i) == Failed(false)
  {
    var deadline := start + timeout;
    var attempt: nat := 0;
    sleeps := [];
    while w.guardAt(attempt) < deadline && (maxAttempts.None? || attempt < maxAttempts.value)
      invariant OnTime(w, attempt, start, deadline)
      invariant attempt > 0 ==> Few(attempt, timeout)
      invariant maxAttempts.Some? && attempt > 0 ==> attempt <= maxAttempts.value
      invariant |sleeps| == attempt
      invariant forall i :: 0 <= i < |sleeps| ==> sleeps[i] == Requested(w, i, deadline) && InWindow(sleeps[i], deadline)
      invariant forall i :: 0 <= i < attempt ==> w.attempt(i) == Failed(false)
      decreases RoundsLeft(w.guardAt(attempt), deadline)
    {
      AttemptsBounded(attempt, start, timeout, w.guardAt(attempt));
      var result := w.attempt(attempt);
      if result == Connected { return Reconnected, attempt + 1, sleeps; }
      if result == Fatal { return Threw, attempt + 1, sleeps; }
      var sleep := RequestSleep(w, attempt, start, deadline);
      sleeps := sleeps + [sleep];
      if result.sleepAborted { return Threw, attempt + 1, sleeps; }
      attempt := attempt + 1;
    }
    outcome, attempts := GaveUp, attempt;
  }

  lemma DelayInWindow(k: nat, random: real, failedAt: real, deadline: real)
    requires 0.0 <= random < 1.0
    ensures 0.0 <= Delay(k, random, deadline - failedAt)
    ensures failedAt + Delay(k, random, deadline - failedAt) <= Max(deadline, failedAt)
  {
    assert Backoff(k) * (JITTER_BASE + random * JITTER_RANGE) >= 0.0;
  }

  /** Whoever still gets through the guard has slept so long that the attempts are few. */
  lemma AttemptsBounded(attempt: nat, start: real, timeout: real, now: real)
    requires start + LeastSlept(attempt) <= now < start + timeout
    ensures Few(attempt + 1, timeout)
  {
    SleptAtLeast(attempt);
    assert 22500.0 * (attempt as real - 4.0) < timeout;
    assert (timeout / 22500.0) * 22500.0 == timeout;
  }
}
