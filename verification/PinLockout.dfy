/**
  Wrong-PIN throttling, and what it adds up to over a whole run of connection
  attempts. Instants and durations are in nanoseconds of one monotonic clock.
  */
module PinLockout {
  import opened Bytes

  const SECOND: nat := 1_000_000_000
  const FREE_FAILURES: nat := 5
  const BASE_LOCK: nat := 30 * SECOND
  const MAX_LOCK: nat := 15 * 60 * SECOND
  const MAX_U32: nat := 0xFFFF_FFFF

  datatype Throttle = Throttle(failures: u32, until: Option<nat>)

  function Pow2(k: nat): nat {
    if k == 0 then 1 else 2 * Pow2(k - 1)
  }

  /** How long the host refuses everyone after the given number of failures, from the fifth on. */
  function LockFor(failures: nat): nat
    requires failures >= FREE_FAILURES
  {
    Min(BASE_LOCK * Pow2(Min(failures - FREE_FAILURES, 10)), MAX_LOCK)
  }

  /** `remaining`. */
  function Remaining(t: Throttle, now: nat): Option<nat> {
    if t.until.Some? && t.until.value > now then Some(t.until.value - now) else None
  }

  /** `fail`. */
  function Fail(t: Throttle, now: nat): (Throttle, Option<nat>) {
    var failures := Min(t.failures + 1, MAX_U32);
    if failures < FREE_FAILURES then (t.(failures := failures), None)
    else (Throttle(failures, Some(now + LockFor(failures))), Some(LockFor(failures)))
  }

  const NO_FAILURES := Throttle(0, None)

  class Lockout {
    var failures: u32
    var until: Option<nat>

    ghost function State(): Throttle
      reads this
    {
      Throttle(failures, until)
    }

    constructor ()
      ensures State() == NO_FAILURES
    {
      failures, until := 0, None;
    }

    method TimeLeft(now: nat) returns (left: Option<nat>)
      ensures left == Remaining(State(), now)
      ensures left.Some? ==> left.value > 0
    {
      left := None;
      if until.Some? && until.value >= now && until.value - now != 0 {
        left := Some(until.value - now);
      }
    }

    method RecordFailure(now: nat) returns (lock: Option<nat>)
      modifies this
      ensures (State(), lock) == Fail(old(State()), now)
    {
      failures := if failures == MAX_U32 then MAX_U32 else failures + 1;
      if failures < FREE_FAILURES {
        return None;
      }
      var doublings := Min(failures - FREE_FAILURES, 10);
      var length := Min(BASE_LOCK * Pow2(doublings), MAX_LOCK);
      until := Some(now + length);
      lock := Some(length);
    }

    method RecordSuccess()
      modifies this
      ensures State() == NO_FAILURES
    {
      failures := 0;
      until := None;
    }
  }

  // -------------------------------------------------------- authenticate

  /** How one exchange goes on once the host has read `Auth`; the PIN check itself is a boolean. */
  datatype Course =
    | NoPin
    | Abandoned
    | Confirmed(right: bool, at: nat)

  /** One connection: when the lock is looked at, and what the client then does. */
  datatype Attempt = Attempt(start: nat, course: Course)

  /** `authenticate`, as far as it uses the lockout: the lock is looked at before the PIN. */
  function Authenticate(t: Throttle, a: Attempt): Throttle {
    if Remaining(t, a.start).Some? then t
    else
      match a.course
      case NoPin => t
      case Abandoned => t
      case Confirmed(right, at) => if right then NO_FAILURES else Fail(t, at).0
  }

  /** The retry time a refused client is told: whole seconds, never 0. */
  function RetryAfter(left: nat): nat {
    Max(left / SECOND, 1)
  }

  function End(a: Attempt): nat {
    if a.course.Confirmed? then a.course.at else a.start
  }

  /** Connections are served one after the other on one clock. */
  ghost predicate InTurn(attempts: seq<Attempt>) {
    && (forall i :: 0 <= i < |attempts| ==> attempts[i].start <= End(attempts[i]))
    && (forall i, j :: 0 <= i < j < |attempts| ==> End(attempts[i]) <= attempts[j].start)
  }

  /** The throttle after a run, and when the wrong PINs since the last right one were tried. */
  function Run(attempts: seq<Attempt>): (Throttle, seq<nat>)
    decreases |attempts|
  {
    if attempts == [] then (NO_FAILURES, [])
    else
      var n := |attempts| - 1;
      var (t, tries) := Run(attempts[..n]);
      var a := attempts[n];
      var t' := Authenticate(t, a);
      if Remaining(t, a.start).Some? || !a.course.Confirmed? then (t', tries)
      else if a.course.right then (t', [])
      else (t', tries + [a.course.at])
  }

  /** From the fifth wrong PIN on, the next one comes no earlier than its lock allows. */
  ghost predicate Spaced(tries: seq<nat>) {
    forall n :: FREE_FAILURES <= n < |tries| ==> tries[n - 1] + LockFor(n) <= tries[n]
  }

  ghost predicate ThrottleInv(t: Throttle, tries: seq<nat>) {
    && t.failures == Min(|tries|, MAX_U32)
    && (if |tries| < FREE_FAILURES then t.until == None
        else t.until == Some(tries[|tries| - 1] + LockFor(|tries|)))
    && Spaced(tries)
  }

  lemma {:induction false} Pow2Grows(k: nat)
    ensures Pow2(k) >= 1 && (k >= 5 ==> Pow2(k) >= 32)
  {
    if k > 0 {
      Pow2Grows(k - 1);
      if k == 5 {
        assert Pow2(1) == 2 && Pow2(2) == 4 && Pow2(3) == 8;
      }
    }
  }

  /** The tenth lock and all later ones are the longest. */
  lemma LongestFromTen(n: nat)
    requires n >= 10
    ensures LockFor(n) == MAX_LOCK
  {
    Pow2Grows(Min(n - FREE_FAILURES, 10));
  }

  lemma FailInv(t: Throttle, tries: seq<nat>, start: nat, at: nat)
    requires ThrottleInv(t, tries) && Remaining(t, start).None? && start <= at
    ensures ThrottleInv(Fail(t, at).0, tries + [at])
  {
    var more := tries + [at];
    if |more| > MAX_U32 {
      LongestFromTen(MAX_U32);
      LongestFromTen(|more|);
    }
    hide LockFor;
    forall n | FREE_FAILURES <= n < |more| ensures more[n - 1] + LockFor(n) <= more[n] {
      if n < |tries| {
        assert tries[n - 1] + LockFor(n) <= tries[n];
      }
    }
  }

  /** Refused and abandoned attempts leave the throttle as it is; the counter counts the wrong PINs. */
  lemma {:induction false} RunInv(attempts: seq<Attempt>)
    requires InTurn(attempts)
    ensures ThrottleInv(Run(attempts).0, Run(attempts).1)
    decreases |attempts|
  {
    hide LockFor, Fail, Spaced;
    if attempts == [] {
      NoTries();
    } else {
      var n := |attempts| - 1;
      RunInv(attempts[..n]);
      var (t, tries) := Run(attempts[..n]);
      var a := attempts[n];
      if Remaining(t, a.start).None? && a.course.Confirmed? {
        if a.course.right {
          NoTries();
        } else {
          assert a.start <= End(a);
          FailInv(t, tries, a.start, a.course.at);
        }
      }
    }
  }

  lemma NoTries()
    ensures ThrottleInv(NO_FAILURES, [])
  {
  }

  lemma FirstLocks()
    ensures LockFor(5) == 30 * SECOND && LockFor(6) == 60 * SECOND && LockFor(7) == 120 * SECOND
    ensures LockFor(8) == 240 * SECOND && LockFor(9) == 480 * SECOND
  {
    assert Pow2(1) == 2;
    assert Pow2(2) == 4;
    assert Pow2(3) == 8;
    assert Pow2(4) == 16;
  }

  /** The seconds a client with a wrong PIN is told to wait. */
  function ToldAfterFailure(lock: Option<nat>): nat {
    if lock.Some? then lock.value / SECOND else 0
  }

  /** The lock told is the lock set: none before the fifth failure, then 30, 60, 120, 240 and 480 seconds, then 900. */
  lemma FailTold(t: Throttle, now: nat)
    ensures var n := t.failures + 1;
            var (t', lock) := Fail(t, now);
            && ToldAfterFailure(lock) == (if n < 5 then 0 else if n == 5 then 30 else if n == 6 then 60
                                          else if n == 7 then 120 else if n == 8 then 240 else if n == 9 then 480 else 900)
            && (lock.Some? <==> n >= 5)
            && (lock.Some? ==> t'.until == Some(now + lock.value) && lock.value == ToldAfterFailure(lock) * 1_000_000_000)
            && (lock.None? ==> t'.until == t.until)
  {
    FirstLocks();
    if t.failures + 1 >= 10 {
      LongestFromTen(Min(t.failures + 1, MAX_U32));
    }
    hide LockFor;
  }

  lemma {:induction false} SpacedFar(tries: seq<nat>, n: nat)
    requires Spaced(tries) && 10 <= n <= |tries|
    ensures tries[n - 1] >= tries[4] + (930 + 900 * (n - 10)) * SECOND
    decreases n
  {
    FirstLocks();
    hide LockFor;
    if n == 10 {
      assert tries[4] + LockFor(5) <= tries[5];
      assert tries[5] + LockFor(6) <= tries[6];
      assert tries[6] + LockFor(7) <= tries[7];
      assert tries[7] + LockFor(8) <= tries[8];
      assert tries[8] + LockFor(9) <= tries[9];
    } else {
      SpacedFar(tries, n - 1);
      LongestFromTen(n - 1);
      assert tries[n - 2] + LockFor(n - 1) <= tries[n - 1];
    }
  }

  /**
    In every run: since the last right PIN, the n-th wrong one, for n of 10
    and more, comes at least 930 + 900 (n - 10) seconds after the fifth.
    */
  lemma GuessRate(attempts: seq<Attempt>, n: nat)
    requires InTurn(attempts)
    requires 10 <= n <= |Run(attempts).1|
    ensures var tries := Run(attempts).1;
            tries[n - 1] >= tries[4] + (930 + 900 * (n - 10)) * SECOND
  {
    RunInv(attempts);
    SpacedFar(Run(attempts).1, n);
  }

  /** The host's counter is the number of wrong PINs since the last right one, as far as 32 bits go. */
  lemma CounterCounts(attempts: seq<Attempt>)
    requires InTurn(attempts)
    ensures Run(attempts).0.failures == Min(|Run(attempts).1|, MAX_U32)
    ensures |Run(attempts).1| < FREE_FAILURES <==> Run(attempts).0.until == None
  {
    RunInv(attempts);
  }

  /** Waiting exactly the time told is enough if and only if rounding it to whole seconds lost nothing. */
  lemma RetryExactly(t: Throttle, now: nat)
    requires Remaining(t, now).Some?
    ensures var left := Remaining(t, now).value;
            Remaining(t, now + RetryAfter(left) * SECOND).None? <==> left % SECOND == 0 || left < SECOND
  {
  }

  /** An instance: with 29.5 seconds left a client is told 29, and refused when it comes back after them. */
  lemma RetryTooEarly()
    ensures var t := Throttle(7, Some(120 * SECOND - SECOND / 2));
            && Remaining(t, 90 * SECOND).Some? && RetryAfter(Remaining(t, 90 * SECOND).value) == 29
            && Remaining(t, 119 * SECOND).Some?
  {
  }

  /** A client told to come back after that many seconds and one more is not refused again. */
  lemma RetryIsEnough(t: Throttle, now: nat)
    requires Remaining(t, now).Some?
    ensures Remaining(t, now + (RetryAfter(Remaining(t, now).value) + 1) * SECOND).None?
  {
  }
}
