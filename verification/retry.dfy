/**
 * Retrying a flaky call: the body is run up to `maxAttempts` times, stopping at
 * the first success; between a failure and the next attempt the caller sleeps
 * for an exponentially growing, jittered delay of at most 30 seconds.
 *
 * The outcome of attempt `a` (counted from 1) is `body(a)`, the random draw of
 * its backoff is `jitter(a)`, and whether the sleep after it is interrupted is
 * `interrupted(a)`. The sleeps performed are returned as a trace of milliseconds.
 */
module Retry {
  import opened Failures
  import opened JavaLang

  /** The longest backoff, in milliseconds. */
  const CapMs: int := 30_000

  function Pow2(n: nat): (p: nat)
    ensures p >= 1
  {
    if n == 0 then 1 else 2 * Pow2(n - 1)
  }

  /** The delay before jitter: the base (at least 1 ms) doubled once per earlier attempt. */
  function Exponential(baseDelayMs: int, attempt: int): (e: int)
    requires attempt >= 1
    ensures e >= Max(1, baseDelayMs) && e >= 1
  {
    Max(1, baseDelayMs) * Pow2(attempt - 1)
  }

  /** A cast of a real to a long: the fractional part is dropped, rounding toward zero. */
  function Truncate(x: real): (t: int)
    ensures 0.0 <= x ==> 0 <= t && t as real <= x < t as real + 1.0
    ensures x < 0.0 ==> t <= 0 && t as real - 1.0 < x <= t as real
  {
    if x >= 0.0 then x.Floor else -((-x).Floor)
  }

  /** The delay `e` scaled by the draw `r`: within a fifth of `e` when r is in [-0.2, 0.2). */
  function Scaled(e: int, r: real): (y: real)
    ensures e >= 0 && -0.2 <= r < 0.2 ==> -(e as real / 5.0) <= y
    ensures e >= 0 && -0.2 <= r < 0.2 ==> y <= e as real / 5.0
  {
    var y := e as real * r;
    assert e >= 0 && -0.2 <= r < 0.2 ==> -(e as real / 5.0) <= y <= e as real / 5.0 by {
      if e >= 0 && -0.2 <= r < 0.2 {
        ScaledDrawBounds(e, r);
      }
    }
    y
  }

  /** The jitter of a delay `e` for a draw `r`: e * r truncated, within a fifth of `e` when r is in [-0.2, 0.2). */
  function Jitter(e: int, r: real): (j: int)
    requires e >= 1
    ensures -0.2 <= r < 0.2 ==> -(e / 5) <= j <= e / 5
  {
    var y := Scaled(e, r);
    if -0.2 <= r < 0.2 then
      TruncateWithinAFifth(e, y);
      Truncate(y)
    else Truncate(y)
  }

  /** A real within a fifth of `e` truncates to within the integer fifth of `e`. */
  lemma TruncateWithinAFifth(e: int, y: real)
    requires e >= 0 && -(e as real / 5.0) <= y <= e as real / 5.0
    ensures -(e / 5) <= Truncate(y) <= e / 5
  {
    FifthBelowNext(e);
    TruncateWithin(y, e / 5);
  }

  /** A non-negative amount scaled by a draw in [-0.2, 0.2) moves by at most a fifth of it. */
  lemma ScaledDrawBounds(e: int, r: real)
    requires e >= 0 && -0.2 <= r < 0.2
    ensures -(e as real / 5.0) <= e as real * r <= e as real / 5.0
  {
    var x := e as real;
    ProductNonNegative(x, 0.2 - r);
    ProductNonNegative(x, r + 0.2);
    assert x * (0.2 - r) == x / 5.0 - x * r;
    assert x * (r + 0.2) == x * r + x / 5.0;
  }

  lemma ProductNonNegative(a: real, b: real)
    requires a >= 0.0 && b >= 0.0
    ensures a * b >= 0.0
  {
  }

  /** A fifth of `e` is less than one more than its integer fifth. */
  lemma FifthBelowNext(e: int)
    requires e >= 0
    ensures e as real / 5.0 < (e / 5 + 1) as real
  {
    assert e == 5 * (e / 5) + e % 5;
  }

  /** Truncating a real strictly within q + 1 of zero lands within q of zero. */
  lemma TruncateWithin(y: real, q: int)
    requires q >= 0 && -((q + 1) as real) < y < (q + 1) as real
    ensures -q <= Truncate(y) <= q
  {
  }

  /**
   * backoffWithJitter(base, attempt): the exponential delay plus jitter, at
   * least 1 ms and at most the cap.
   */
  function Backoff(baseDelayMs: int, attempt: int, draw: real): (d: int)
    requires attempt >= 1
    ensures 1 <= d <= CapMs
    ensures var e := Exponential(baseDelayMs, attempt);
            -0.2 <= draw < 0.2 ==> Min(CapMs, e - e / 5) <= d <= Min(CapMs, e + e / 5)
  {
    var e := Exponential(baseDelayMs, attempt);
    var ms := Max(1, e + Jitter(e, draw));
    Min(ms, CapMs)
  }

  /** The delay before jitter is max(1, base) at the first attempt and doubles with each further attempt. */
  lemma ExponentialDoubles(baseDelayMs: int, attempt: int)
    requires attempt >= 1
    ensures Exponential(baseDelayMs, 1) == Max(1, baseDelayMs)
    ensures Exponential(baseDelayMs, attempt + 1) == 2 * Exponential(baseDelayMs, attempt)
  {
    assert Pow2(attempt) == 2 * Pow2(attempt - 1);
  }

  /** Without jitter, each backoff is at least the one before. */
  lemma {:induction false} BackoffGrows(baseDelayMs: int, attempt: int)
    requires attempt >= 1
    ensures Backoff(baseDelayMs, attempt, 0.0) <= Backoff(baseDelayMs, attempt + 1, 0.0)
  {
    var e := Exponential(baseDelayMs, attempt);
    ExponentialDoubles(baseDelayMs, attempt);
    assert Jitter(e, 0.0) == 0 && Jitter(2 * e, 0.0) == 0;
  }

  /** The failure of an interrupted backoff sleep. */
  function InterruptedBackoff(): Throwable {
    WrappedRuntime("Interrupted while backing off", Checked("InterruptedException", "sleep interrupted"))
  }

  /**
   * sleep(d): sleeps at least 1 ms; an interrupt ends it with a RuntimeException
   * wrapping the InterruptedException. Returns the outcome and the duration
   * asked of the clock.
   */
  method Sleep(d: int, interrupted: bool) returns (r: Result<()>, sleptMs: int)
    ensures sleptMs == Max(1, d) && sleptMs >= 1
    ensures r.Err? <==> interrupted
    ensures r.Err? ==> r.error == InterruptedBackoff()
  {
    sleptMs := Max(1, d);
    if interrupted {
      return Err(InterruptedBackoff()), sleptMs;
    }
    return Ok(()), sleptMs;
  }

  /** What the final failed attempt throws: a RuntimeException as it is, anything else wrapped. */
  function FinalFailure(opName: string, attempts: nat, t: Throwable): (e: Throwable)
    ensures e.Unchecked?
    ensures t.Unchecked? ==> e == t
    ensures t.Checked? ==> e.cause == Some(t) && e.className == "RuntimeException"
    ensures t.Checked? ==> e.message == opName + " failed after " + NatToString(attempts) + " attempts"
  {
    if t.Unchecked? then t
    else WrappedRuntime(opName + " failed after " + NatToString(attempts) + " attempts", t)
  }

  /**
   * runWithRetry(opName, maxAttempts, baseDelay, body). Returns the outcome,
   * the number of attempts made and the sleeps performed.
   */
  method RunWithRetry(opName: string, maxAttempts: int, baseDelayMs: int,
                      body: nat -> Result<()>, jitter: nat -> real, interrupted: nat -> bool)
    returns (r: Result<()>, attempts: nat, sleeps: seq<int>)
    ensures maxAttempts < 1 ==>
              r == Err(IllegalArgument("maxAttempts must be >= 1")) && attempts == 0 && sleeps == []
    ensures maxAttempts >= 1 ==> 1 <= attempts <= maxAttempts
    ensures forall a :: 1 <= a < attempts ==> body(a).Err? && !interrupted(a)
    ensures maxAttempts >= 1 ==> (r.Ok? <==> body(attempts).Ok?)
    ensures maxAttempts >= 1 && body(attempts).Err? && attempts == maxAttempts ==>
              r == Err(FinalFailure(opName, attempts, body(attempts).error)) && |sleeps| == attempts - 1
    ensures maxAttempts >= 1 && body(attempts).Err? && attempts < maxAttempts ==>
              interrupted(attempts) && r == Err(InterruptedBackoff()) && |sleeps| == attempts
    ensures r.Ok? ==> |sleeps| == attempts - 1
    ensures forall i :: 0 <= i < |sleeps| ==> sleeps[i] == Backoff(baseDelayMs, i + 1, jitter(i + 1))
  {
    if maxAttempts < 1 {
      return Err(IllegalArgument("maxAttempts must be >= 1")), 0, [];
    }
    var attempt: nat := 0;
    sleeps := [];
    while true
      invariant 0 <= attempt < maxAttempts
      invariant |sleeps| == attempt
      invariant forall a :: 1 <= a <= attempt ==> body(a).Err? && !interrupted(a)
      invariant forall i :: 0 <= i < |sleeps| ==> sleeps[i] == Backoff(baseDelayMs, i + 1, jitter(i + 1))
      decreases maxAttempts - attempt
    {
      attempt := attempt + 1;
      var outcome := body(attempt);
      if outcome.Ok? {
        return Ok(()), attempt, sleeps;
      }
      if attempt >= maxAttempts {
        return Err(FinalFailure(opName, attempt, outcome.error)), attempt, sleeps;
      }
      var slept, ms := Sleep(Backoff(baseDelayMs, attempt, jitter(attempt)), interrupted(attempt));
      sleeps := sleeps + [ms];
      if slept.Err? {
        return slept, attempt, sleeps;
      }
    }
  }

  /** The outcome of an attempt with its value discarded, as the runnable passed on by callWithRetry sees it. */
  function Discard<T>(res: Result<T>): (d: Result<()>)
    ensures d.Ok? <==> res.Ok?
    ensures d.Err? ==> d.error == res.error
  {
    match res
    case Ok(_) => Ok(())
    case Err(t) => Err(t)
  }

  /**
   * callWithRetry(opName, maxAttempts, baseDelay, body): runWithRetry on a
   * runnable that stores the body's value, then that value. It retries and
   * fails exactly as runWithRetry does.
   */
  method CallWithRetry<T>(opName: string, maxAttempts: int, baseDelayMs: int,
                          body: nat -> Result<T>, jitter: nat -> real, interrupted: nat -> bool)
    returns (r: Result<T>, attempts: nat, sleeps: seq<int>)
    ensures maxAttempts < 1 ==>
              r == Err(IllegalArgument("maxAttempts must be >= 1")) && attempts == 0 && sleeps == []
    ensures maxAttempts >= 1 ==> 1 <= attempts <= maxAttempts
    ensures forall a :: 1 <= a < attempts ==> body(a).Err? && !interrupted(a)
    ensures maxAttempts >= 1 ==> (r.Ok? <==> body(attempts).Ok?)
    ensures r.Ok? ==> r == body(attempts) && |sleeps| == attempts - 1
    ensures maxAttempts >= 1 && body(attempts).Err? && attempts == maxAttempts ==>
              r == Err(FinalFailure(opName, attempts, body(attempts).error)) && |sleeps| == attempts - 1
    ensures maxAttempts >= 1 && body(attempts).Err? && attempts < maxAttempts ==>
              interrupted(attempts) && r == Err(InterruptedBackoff()) && |sleeps| == attempts
    ensures forall i :: 0 <= i < |sleeps| ==> sleeps[i] == Backoff(baseDelayMs, i + 1, jitter(i + 1))
  {
    var run: nat -> Result<()> := (a: nat) => Discard(body(a));
    var outcome;
    outcome, attempts, sleeps := RunWithRetry(opName, maxAttempts, baseDelayMs, run, jitter, interrupted);
    forall a | 1 <= a < attempts
      ensures body(a).Err?
    {
      assert run(a).Err?;
    }
    if outcome.Ok? {
      return body(attempts), attempts, sleeps;
    }
    return Err(outcome.error), attempts, sleeps;
  }
}
