/**
  Polling for a device-code grant (cli/src/auth.rs, the inner loop of
  `do_device_code_flow_with_scopes`), with the slow-down rule of section 3.5 of RFC 8628.

  Time is in seconds since the expiry was computed.  `lag(k)` is how much longer the k-th
  round took than the interval it slept; the answers of the service are arbitrary.
*/
module DevicePoll {

  datatype Answer = Granted | SlowDown | TooManyRequests | OtherError

  predicate Slows(a: Answer) { a.SlowDown? || a.TooManyRequests? }

  /** How many of the first `k` answers ask to slow down. */
  function SlowCount(answers: nat -> Answer, k: nat): nat {
    if k == 0 then 0 else SlowCount(answers, k - 1) + (if Slows(answers(k - 1)) then 1 else 0)
  }

  /** The interval before poll `k`. */
  function Interval(answers: nat -> Answer, k: nat): (r: nat)
    ensures r >= 5
  {
    5 + 5 * SlowCount(answers, k)
  }

  /** The first interval is 5 seconds, and it grows by 5 exactly when the service asks to slow
      down, or answers with status 429. */
  lemma IntervalIs(answers: nat -> Answer, k: nat)
    ensures Interval(answers, 0) == 5
    ensures Interval(answers, k + 1) ==
            Interval(answers, k) + (if answers(k) in {SlowDown, TooManyRequests} then 5 else 0)
  {
  }

  /** The sum of the intervals before the first `k` polls. */
  function Slept(answers: nat -> Answer, k: nat): (r: nat)
    ensures r >= 5 * k
  {
    if k == 0 then 0 else Slept(answers, k - 1) + Interval(answers, k - 1)
  }

  /** The time at which the loop is entered for poll `k`. */
  function Clock(start: real, lag: nat -> real, answers: nat -> Answer, k: nat): real {
    if k == 0 then start
    else Clock(start, lag, answers, k - 1) + Interval(answers, k - 1) as real + lag(k - 1)
  }

  /** Every round takes its interval and its lag. */
  lemma ClockIs(start: real, lag: nat -> real, answers: nat -> Answer, k: nat)
    ensures Clock(start, lag, answers, 0) == start
    ensures Clock(start, lag, answers, k + 1) - Clock(start, lag, answers, k) == Interval(answers, k) as real + lag(k)
  {
  }

  /** A clock that never goes back. */
  ghost predicate Monotone(start: real, lag: nat -> real) {
    start >= 0.0 && forall k: nat :: lag(k) >= 0.0
  }

  lemma {:induction false} ClockCoversSleep(start: real, lag: nat -> real, answers: nat -> Answer, k: nat)
    requires Monotone(start, lag)
    ensures Clock(start, lag, answers, k) >= Slept(answers, k) as real
    ensures start == 0.0 && (forall j: nat :: lag(j) == 0.0) ==>
              Clock(start, lag, answers, k) == Slept(answers, k) as real
  {
    if k > 0 {
      ClockCoversSleep(start, lag, answers, k - 1);
    }
  }

  /** Every answer that slows down makes the later sleeps longer by 5: together they are at
      least 5 + 10 + 15 + ..., and exactly that if all answers slow down. */
  lemma {:induction false} SlowDownsAddUp(answers: nat -> Answer, k: nat)
    ensures var c := SlowCount(answers, k);
            c <= k && Slept(answers, k) >= 5 * UpTo(c) && (c == k ==> Slept(answers, k) == 5 * UpTo(c))
  {
    if k > 0 {
      SlowDownsAddUp(answers, k - 1);
    }
  }

  /** The sum of the numbers up to `c`. */
  function UpTo(c: nat): nat { if c == 0 then 0 else UpTo(c - 1) + c }

  lemma {:induction false} UpToIs(c: nat)
    ensures 2 * UpTo(c) == c * c + c
  {
    if c > 0 {
      UpToIs(c - 1);
      assert c * c == (c - 1) * (c - 1) + 2 * c - 1;
    }
  }

  lemma {:induction false} NoneSlowSleep(answers: nat -> Answer, k: nat)
    requires forall j: nat :: j < k ==> !Slows(answers(j))
    ensures SlowCount(answers, k) == 0 && Slept(answers, k) == 5 * k
  {
    if k > 0 {
      NoneSlowSleep(answers, k - 1);
    }
  }

  /** Poll `k` is made: the code has not expired and was not granted before. */
  ghost predicate IsMade(lifetime: int, start: real, lag: nat -> real, answers: nat -> Answer, k: nat) {
    && Clock(start, lag, answers, k) < lifetime as real
    && (k > 0 ==> IsMade(lifetime, start, lag, answers, k - 1) && !answers(k - 1).Granted?)
  }

  /** The lifetime divided by 5, rounded up. */
  function MostPolls(lifetime: int): nat { if lifetime > 0 then (lifetime + 4) / 5 else 0 }

  lemma PollsFit(lifetime: int, start: real, lag: nat -> real, answers: nat -> Answer, k: nat)
    requires Monotone(start, lag) && IsMade(lifetime, start, lag, answers, k)
    ensures Slept(answers, k) < lifetime && k < MostPolls(lifetime)
  {
    ClockCoversSleep(start, lag, answers, k);
    assert Clock(start, lag, answers, k) < lifetime as real;
  }

  /** For a code of the given lifetime, the intervals before a poll's loop entry add up to
      less than the lifetime.  So the number of polls is at most the lifetime divided by 5,
      rounded up, and the number of slow-downs before a poll grows only with the square root
      of the lifetime. */
  lemma PollsAreBounded(lifetime: int, start: real, lag: nat -> real, answers: nat -> Answer, k: nat)
    requires Monotone(start, lag) && IsMade(lifetime, start, lag, answers, k)
    ensures Slept(answers, k) < lifetime
    ensures k + 1 <= MostPolls(lifetime)
    ensures var c := SlowCount(answers, k); 5 * (c * c + c) < 2 * lifetime
  {
    PollsFit(lifetime, start, lag, answers, k);
    SlowDownsAddUp(answers, k);
    UpToIs(SlowCount(answers, k));
  }

  /** The bound is reached: if nothing slows down, rounds take no extra time and no grant
      comes, exactly that many polls are made. */
  lemma {:induction false} BoundIsReached(lifetime: int, lag: nat -> real, answers: nat -> Answer, k: nat)
    requires lifetime > 0 && forall j: nat :: lag(j) == 0.0 && !Slows(answers(j)) && !answers(j).Granted?
    ensures IsMade(lifetime, 0.0, lag, answers, k) <==> k < MostPolls(lifetime)
  {
    ClockCoversSleep(0.0, lag, answers, k);
    NoneSlowSleep(answers, k);
    if k > 0 {
      BoundIsReached(lifetime, lag, answers, k - 1);
    }
  }

  /** The loop comes to its head for poll `n`. */
  ghost predicate AtPoll(lifetime: int, start: real, lag: nat -> real, answers: nat -> Answer,
                         n: nat, now: real, intervalS: nat) {
    && now == Clock(start, lag, answers, n) && intervalS == Interval(answers, n)
    && (n > 0 ==> IsMade(lifetime, start, lag, answers, n - 1) && !answers(n - 1).Granted?)
  }

  lemma NextPoll(lifetime: int, start: real, lag: nat -> real, answers: nat -> Answer,
                 n: nat, now: real, intervalS: nat)
    requires Monotone(start, lag) && AtPoll(lifetime, start, lag, answers, n, now, intervalS)
    ensures IsMade(lifetime, start, lag, answers, n) <==> now < lifetime as real
    ensures now < lifetime as real ==> n < MostPolls(lifetime)
    ensures now < lifetime as real && !answers(n).Granted? ==>
              AtPoll(lifetime, start, lag, answers, n + 1, now + intervalS as real + lag(n),
                     if Slows(answers(n)) then intervalS + 5 else intervalS)
  {
    if now < lifetime as real {
      PollsFit(lifetime, start, lag, answers, n);
    }
  }

  /** The sleeps are the intervals before the polls. */
  ghost predicate SleptIntervals(answers: nat -> Answer, slept: seq<nat>) {
    forall k: nat :: k < |slept| ==> slept[k] == Interval(answers, k)
  }

  lemma SleptNext(answers: nat -> Answer, slept: seq<nat>)
    requires SleptIntervals(answers, slept)
    ensures SleptIntervals(answers, slept + [Interval(answers, |slept|)])
  {
  }

  /** Exactly the first `n` polls are made. */
  ghost predicate PollsMade(lifetime: int, start: real, lag: nat -> real, answers: nat -> Answer, n: nat) {
    (forall k: nat :: k < n ==> IsMade(lifetime, start, lag, answers, k)) && !IsMade(lifetime, start, lag, answers, n)
  }

  lemma MadeExactly(lifetime: int, start: real, lag: nat -> real, answers: nat -> Answer, n: nat)
    requires !IsMade(lifetime, start, lag, answers, n) && (n > 0 ==> IsMade(lifetime, start, lag, answers, n - 1))
    ensures PollsMade(lifetime, start, lag, answers, n)
  {
    if n > 0 {
      AllMade(lifetime, start, lag, answers, n - 1);
    }
  }

  /** The poll loop: sleeps, polls, and slows down when asked to, until the grant or the
      expiry.  Returns the intervals it slept and whether the code was granted. */
  method Poll(lifetime: int, start: real, lag: nat -> real, answers: nat -> Answer)
    returns (slept: seq<nat>, granted: bool)
    requires Monotone(start, lag)
    ensures SleptIntervals(answers, slept) && PollsMade(lifetime, start, lag, answers, |slept|)
    ensures granted <==> slept != [] && answers(|slept| - 1).Granted?
    ensures |slept| <= MostPolls(lifetime)
  {
    slept := [];
    var intervalS := 5;
    var now := start;
    granted := false;
    while now < lifetime as real
      invariant AtPoll(lifetime, start, lag, answers, |slept|, now, intervalS)
      invariant SleptIntervals(answers, slept)
      invariant |slept| <= MostPolls(lifetime)
      decreases MostPolls(lifetime) - |slept|
    {
      var k := |slept|;
      NextPoll(lifetime, start, lag, answers, k, now, intervalS);
      SleptNext(answers, slept);
      slept := slept + [intervalS];
      now := now + intervalS as real + lag(k);
      var answer := answers(k);
      if answer.Granted? {
        MadeExactly(lifetime, start, lag, answers, k + 1);
        return slept, true;
      } else if Slows(answer) {
        intervalS := intervalS + 5;
      }
    }
    NextPoll(lifetime, start, lag, answers, |slept|, now, intervalS);
    MadeExactly(lifetime, start, lag, answers, |slept|);
  }

  lemma {:induction false} AllMade(lifetime: int, start: real, lag: nat -> real, answers: nat -> Answer, n: nat)
    requires IsMade(lifetime, start, lag, answers, n)
    ensures forall k: nat :: k <= n ==> IsMade(lifetime, start, lag, answers, k)
  {
    if n > 0 {
      AllMade(lifetime, start, lag, answers, n - 1);
    }
  }
}
