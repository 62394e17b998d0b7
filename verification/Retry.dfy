/**
 Backoff and log throttling of the fixed-host mode (`src/retry.c` and the session loop of
 `src/main.c`).
 */
module Retry {

  const UINT_MAX := 0xFFFF_FFFF

  /** `ag_retry_next_delay`.  Neither the subtraction nor the doubling leaves 32 bits. */
  function NextDelay(current: nat, maximum: nat): (next: nat)
    requires current <= UINT_MAX && maximum <= UINT_MAX
    ensures next <= maximum
    ensures current <= maximum ==> current <= next
  {
    if current >= maximum || current > maximum - current then maximum else current * 2
  }

  function Delay(first: nat, maximum: nat, failures: nat): (d: nat)
    requires first <= maximum <= UINT_MAX
    ensures first <= d <= maximum
  {
    if failures == 0 then first else NextDelay(Delay(first, maximum, failures - 1), maximum)
  }

  function Pow2(k: nat): (p: nat)
    ensures p >= 1
  {
    if k == 0 then 1 else 2 * Pow2(k - 1)
  }

  function Min(a: nat, b: nat): nat {
    if a <= b then a else b
  }

  /** The delay doubles with every failure and stops at the maximum. */
  lemma {:induction false} BackoffIsExponential(first: nat, maximum: nat, failures: nat)
    requires first <= maximum <= UINT_MAX
    ensures Delay(first, maximum, failures) == Min(first * Pow2(failures), maximum)
  {
    hide NextDelay, Min;
    if failures == 0 {
      MinOfSmaller(first, maximum);
    } else {
      BackoffIsExponential(first, maximum, failures - 1);
      var before := first * Pow2(failures - 1);
      assert first * Pow2(failures) == 2 * before;
      DoubleOrStop(before, maximum);
    }
  }

  lemma MinOfSmaller(a: nat, b: nat)
    requires a <= b
    ensures Min(a, b) == a
  {
  }

  lemma DoubleOrStop(d: nat, maximum: nat)
    requires maximum <= UINT_MAX
    ensures NextDelay(Min(d, maximum), maximum) == Min(2 * d, maximum)
  {
  }

  // ------------------------------------------------------------------
  // The session loop
  // ------------------------------------------------------------------

  /** One session attempt: whether the radio was unavailable, when a warning about it would be
      written, and the clock readings after that warning and after the sleep, in milliseconds. */
  datatype Attempt = Attempt(unavailable: bool, warnTime: int, afterWarning: int, afterSleep: int)

  /** The clock never runs backwards. */
  ghost predicate Monotone(attempts: seq<Attempt>) {
    && (forall i :: 0 <= i < |attempts| ==>
          attempts[i].warnTime <= attempts[i].afterWarning <= attempts[i].afterSleep)
    && (forall i, j :: 0 <= i < j < |attempts| ==> attempts[i].afterSleep <= attempts[j].warnTime)
  }

  /** How many unavailable results directly precede attempt `i`. */
  function Streak(attempts: seq<Attempt>, i: nat): nat
    requires i <= |attempts|
  {
    if i == 0 || !attempts[i - 1].unavailable then 0 else 1 + Streak(attempts, i - 1)
  }

  /** Attempt `i` warns: it opens a streak, or the clock had reached the deadline at the check
      before it. */
  predicate WarnsAt(attempts: seq<Attempt>, gap: int, i: nat)
    requires i < |attempts|
    decreases i, 1
  {
    attempts[i].unavailable
    && (Streak(attempts, i) == 0 || attempts[i - 1].afterSleep >= Deadline(attempts, gap, i))
  }

  /** The deadline in force before attempt `i`: a gap after the warning that was written last. */
  function Deadline(attempts: seq<Attempt>, gap: int, i: nat): int
    requires i <= |attempts|
    decreases i, 0
  {
    if i == 0 then 0
    else if WarnsAt(attempts, gap, i - 1) then attempts[i - 1].afterWarning + gap
    else Deadline(attempts, gap, i - 1)
  }

  /** All attempts from `i` on, up to `j`, found the radio unavailable. */
  ghost predicate OneStreak(attempts: seq<Attempt>, i: int, j: int) {
    0 <= i <= j <= |attempts| && forall k :: i <= k < j ==> attempts[k].unavailable
  }

  lemma {:induction false} DeadlineAfterWarning(attempts: seq<Attempt>, gap: int, i: nat, j: nat)
    requires i < j <= |attempts| && Monotone(attempts) && WarnsAt(attempts, gap, i)
    ensures Deadline(attempts, gap, j) >= attempts[i].afterWarning + gap
  {
    if j > i + 1 {
      DeadlineAfterWarning(attempts, gap, i, j - 1);
      assert attempts[i].afterWarning <= attempts[i].afterSleep <= attempts[j - 1].warnTime <= attempts[j - 1].afterWarning;
    }
  }

  /** Within one streak of unavailable results, warnings are at least the gap apart. */
  lemma WarningsAreSpaced(attempts: seq<Attempt>, gap: int, i: nat, j: nat)
    requires i < j < |attempts| && Monotone(attempts) && OneStreak(attempts, i, j)
    requires WarnsAt(attempts, gap, i) && WarnsAt(attempts, gap, j)
    ensures attempts[j].warnTime - attempts[i].warnTime >= gap
  {
    DeadlineAfterWarning(attempts, gap, i, j);
    assert attempts[j - 1].unavailable && Streak(attempts, j) > 0;
    assert attempts[j - 1].afterSleep <= attempts[j].warnTime;
  }

  /** The streak before attempt `i` is the longest run of unavailable results that ends there. */
  lemma {:induction false} StreakIsTheRun(attempts: seq<Attempt>, i: nat)
    requires i <= |attempts|
    ensures var n := Streak(attempts, i);
      n <= i && OneStreak(attempts, i - n, i) && (n < i ==> !attempts[i - n - 1].unavailable)
  {
    if i > 0 && attempts[i - 1].unavailable {
      StreakIsTheRun(attempts, i - 1);
    }
  }

  /** No warning is held back without reason: an attempt that finds the radio unavailable and does
      not warn follows a warning of the same streak whose gap was not over at the last check. */
  lemma {:induction false} SilenceHasAReason(attempts: seq<Attempt>, gap: int, i: nat) returns (j: nat)
    requires i < |attempts| && attempts[i].unavailable && !WarnsAt(attempts, gap, i)
    ensures j < i && OneStreak(attempts, j, i) && WarnsAt(attempts, gap, j)
    ensures attempts[i - 1].afterSleep < attempts[j].afterWarning + gap == Deadline(attempts, gap, i)
  {
    assert Streak(attempts, i) > 0 && attempts[i - 1].unavailable;
    j := LastWarning(attempts, gap, i);
  }

  /** Within a streak, the deadline is that of its last warning. */
  lemma {:induction false} LastWarning(attempts: seq<Attempt>, gap: int, i: nat) returns (j: nat)
    requires i <= |attempts| && Streak(attempts, i) > 0
    ensures j < i && OneStreak(attempts, j, i) && WarnsAt(attempts, gap, j)
    ensures Deadline(attempts, gap, i) == attempts[j].afterWarning + gap
  {
    j := i - 1;
    if !WarnsAt(attempts, gap, i - 1) {
      j := LastWarning(attempts, gap, i - 1);
    }
  }

  /** What one attempt did: whether it warned, and how long it slept. */
  datatype Reaction = Reaction(warned: bool, slept: nat)

  function ReactionTo(attempts: seq<Attempt>, first: nat, maximum: nat, gap: int, i: nat): Reaction
    requires first <= maximum <= UINT_MAX && i < |attempts|
  {
    Reaction(WarnsAt(attempts, gap, i),
             if attempts[i].unavailable then Delay(first, maximum, Streak(attempts, i)) else first)
  }

  /** The three loop variables of `main` before attempt `n`. */
  ghost predicate Tracks(attempts: seq<Attempt>, first: nat, maximum: nat, gap: int, n: nat,
                         retryDelay: nat, nextUnavailableLog: int, logConnectionAttempt: bool)
    requires first <= maximum <= UINT_MAX && n <= |attempts|
  {
    && retryDelay == Delay(first, maximum, Streak(attempts, n))
    && (Streak(attempts, n) > 0 ==> nextUnavailableLog == Deadline(attempts, gap, n))
    && (logConnectionAttempt <==> Streak(attempts, n) == 0 || attempts[n - 1].afterSleep >= Deadline(attempts, gap, n))
  }

  lemma TrackUnavailable(attempts: seq<Attempt>, first: nat, maximum: nat, gap: int, n: nat,
                         retryDelay: nat, before: int, logged: bool, after: int)
    requires first <= maximum <= UINT_MAX && n < |attempts| && attempts[n].unavailable
    requires Tracks(attempts, first, maximum, gap, n, retryDelay, before, logged)
    requires after == if logged then attempts[n].afterWarning + gap else before
    ensures logged <==> WarnsAt(attempts, gap, n)
    ensures retryDelay <= maximum
    ensures Tracks(attempts, first, maximum, gap, n + 1, NextDelay(retryDelay, maximum), after, attempts[n].afterSleep >= after)
  {
  }

  lemma TrackReset(attempts: seq<Attempt>, first: nat, maximum: nat, gap: int, n: nat, next: int)
    requires first <= maximum <= UINT_MAX && n < |attempts| && !attempts[n].unavailable
    ensures Tracks(attempts, first, maximum, gap, n + 1, first, next, true)
  {
  }

  /** The loop of `main` for a fixed host, until the stop request that ends the attempts.  It
      warns exactly when it should, and sleeps for the backoff delay of the current streak, which
      any other outcome resets. */
  method Supervise(attempts: seq<Attempt>, first: nat, maximum: nat, logSeconds: nat) returns (reactions: seq<Reaction>)
    requires first <= maximum <= UINT_MAX
    ensures |reactions| == |attempts|
    ensures forall i :: 0 <= i < |attempts| ==>
      reactions[i] == ReactionTo(attempts, first, maximum, logSeconds * 1000, i)
    ensures forall i :: 0 <= i < |attempts| && attempts[i].unavailable ==>
      reactions[i].slept == Min(first * Pow2(Streak(attempts, i)), maximum)
    ensures forall i :: 0 <= i < |attempts| && !attempts[i].unavailable ==> reactions[i] == Reaction(false, first)
  {
    reactions := [];
    var retryDelay := first;
    var nextUnavailableLog := 0;
    var logConnectionAttempt := true;
    var gap := logSeconds * 1000;
    assert Tracks(attempts, first, maximum, gap, 0, retryDelay, nextUnavailableLog, logConnectionAttempt);
    hide Tracks, WarnsAt, Delay, Streak, Deadline, NextDelay;
    var n := 0;
    while n < |attempts|
      invariant 0 <= n <= |attempts| && |reactions| == n
      invariant Tracks(attempts, first, maximum, gap, n, retryDelay, nextUnavailableLog, logConnectionAttempt)
      invariant forall i :: 0 <= i < n ==> reactions[i] == ReactionTo(attempts, first, maximum, gap, i)
    {
      var attempt := attempts[n];
      ghost var expected := ReactionTo(attempts, first, maximum, gap, n);
      if attempt.unavailable {
        ghost var before := nextUnavailableLog;
        reactions := reactions + [Reaction(logConnectionAttempt, retryDelay)];
        if logConnectionAttempt {
          nextUnavailableLog := attempt.afterWarning + gap;
        }
        TrackUnavailable(attempts, first, maximum, gap, n, retryDelay, before, logConnectionAttempt, nextUnavailableLog);
        retryDelay := NextDelay(retryDelay, maximum);
        logConnectionAttempt := attempt.afterSleep >= nextUnavailableLog;
      } else {
        TrackReset(attempts, first, maximum, gap, n, nextUnavailableLog);
        retryDelay := first;
        logConnectionAttempt := true;
        reactions := reactions + [Reaction(false, first)];
      }
      n := n + 1;
    }
    forall i | 0 <= i < |attempts|
      ensures attempts[i].unavailable ==> reactions[i].slept == Min(first * Pow2(Streak(attempts, i)), maximum)
      ensures !attempts[i].unavailable ==> reactions[i] == Reaction(false, first)
    {
      BackoffIsExponential(first, maximum, Streak(attempts, i));
      if WarnsAt(attempts, gap, i) {
        OnlyUnavailableWarns(attempts, gap, i);
      }
    }
  }

  lemma OnlyUnavailableWarns(attempts: seq<Attempt>, gap: int, i: nat)
    requires i < |attempts| && WarnsAt(attempts, gap, i)
    ensures attempts[i].unavailable
  {
  }
}
