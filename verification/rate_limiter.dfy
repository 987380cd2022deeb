/**
 * A non-blocking token-bucket rate limiter. Tokens accrue continuously at a
 * fixed rate per nanosecond up to a burst ceiling; a request for some permits
 * is admitted, and pays for them, only when that many tokens are stored.
 *
 * The clock is the `now` argument (nanoseconds of a monotonic clock); tokens and
 * rates are real numbers.
 */
module RateLimiting {
  import opened Failures
  import opened JavaLang

  /** The limiter's mutable state: the stored tokens and the time of the last refill. */
  datatype Bucket = Bucket(stored: real, lastNanos: int)

  function MinReal(a: real, b: real): real { if a <= b then a else b }

  /** What every limiter keeps between calls: a positive rate and burst, and 0 <= stored <= burst. */
  predicate Consistent(rate: real, burst: real, b: Bucket) {
    rate > 0.0 && burst > 0.0 && 0.0 <= b.stored <= burst
  }

  /**
   * The refill step: the time elapsed since the last refill adds `rate` tokens
   * per nanosecond, clamped to `burst`. A clock that has not moved forward
   * changes nothing.
   */
  function Refill(rate: real, burst: real, b: Bucket, now: int): (r: Bucket)
    requires Consistent(rate, burst, b)
    ensures Consistent(rate, burst, r)
    ensures now <= b.lastNanos ==> r == b
    ensures r.lastNanos == Max(b.lastNanos, now)
    ensures b.stored <= r.stored
    ensures now > b.lastNanos ==>
              r.stored <= b.stored + (now - b.lastNanos) as real * rate &&
              (r.stored == burst || r.stored == b.stored + (now - b.lastNanos) as real * rate)
  {
    var elapsed := now - b.lastNanos;
    if elapsed <= 0 then b
    else
      var add := elapsed as real * rate;
      if add > 0.0 then Bucket(MinReal(burst, b.stored + add), now) else b
  }

  /**
   * tryAcquire(permits) for a positive `permits`: refill, then take `permits`
   * tokens if that many are stored. Returns whether the request was admitted
   * and the new state.
   */
  function Take(rate: real, burst: real, b: Bucket, permits: int, now: int): (r: (bool, Bucket))
    requires Consistent(rate, burst, b) && permits > 0
    ensures Consistent(rate, burst, r.1)
    ensures r.0 <==> Refill(rate, burst, b, now).stored >= permits as real
    ensures r.1.lastNanos == Max(b.lastNanos, now)
    ensures r.1.stored + (if r.0 then permits as real else 0.0) == Refill(rate, burst, b, now).stored
  {
    var refilled := Refill(rate, burst, b, now);
    if refilled.stored >= permits as real then
      (true, refilled.(stored := refilled.stored - permits as real))
    else
      (false, refilled)
  }

  /**
   * Refilling never double-counts time: refilling at t1 and then at t2 leaves the
   * same state as one refill at t2, so splitting an interval mints no extra tokens.
   */
  lemma RefillComposes(rate: real, burst: real, b: Bucket, t1: int, t2: int)
    requires Consistent(rate, burst, b)
    requires t1 <= t2
    ensures Refill(rate, burst, Refill(rate, burst, b, t1), t2) == Refill(rate, burst, b, t2)
  {
    if b.lastNanos < t1 < t2 {
      var first := (t1 - b.lastNanos) as real * rate;
      var second := (t2 - t1) as real * rate;
      assert first + second == (t2 - b.lastNanos) as real * rate;
      assert second > 0.0;
    }
  }

  /** With fewer than one token stored after the refill, a single-permit request is rejected and nothing is consumed. */
  lemma RejectedUntilATokenAccrues(rate: real, burst: real, b: Bucket, now: int)
    requires Consistent(rate, burst, b)
    requires b.stored + Max(0, now - b.lastNanos) as real * rate < 1.0
    ensures Take(rate, burst, b, 1, now) == (false, Refill(rate, burst, b, now))
  {
  }

  /** Two permits per 100 ms with a burst of two: two immediate requests pass, the third fails, and one passes 100 ms later. */
  lemma TwoPermitsPerHundredMillis(t0: int)
    ensures Take(2.0 / 100_000_000.0, 2.0, Bucket(2.0, t0), 1, t0) == (true, Bucket(1.0, t0))
    ensures Take(2.0 / 100_000_000.0, 2.0, Bucket(1.0, t0), 1, t0) == (true, Bucket(0.0, t0))
    ensures Take(2.0 / 100_000_000.0, 2.0, Bucket(0.0, t0), 1, t0) == (false, Bucket(0.0, t0))
    ensures Take(2.0 / 100_000_000.0, 2.0, Bucket(0.0, t0), 1, t0 + 100_000_000).0
  {
  }

  class RateLimiter {
    /** Tokens added per nanosecond. */
    const tokensPerNano: real
    /** The most tokens the bucket holds. */
    const burst: real
    var stored: real
    var lastNanos: int

    ghost predicate Valid()
      reads this
    {
      Consistent(tokensPerNano, burst, State())
    }

    function State(): Bucket
      reads this
    {
      Bucket(stored, lastNanos)
    }

    /** The body of the private constructor once its checks have passed: the bucket starts full. */
    constructor Init(tokensPerNano: real, burst: real, nowNanos: int)
      requires tokensPerNano > 0.0 && burst > 0.0
      ensures Valid()
      ensures this.tokensPerNano == tokensPerNano && this.burst == burst
      ensures stored == burst && lastNanos == nowNanos
    {
      this.tokensPerNano := tokensPerNano;
      this.burst := burst;
      stored := burst;
      lastNanos := nowNanos;
    }

    /** The private constructor: a non-positive rate or burst is an IllegalArgumentException. */
    static method Create(tokensPerNano: real, burst: real, nowNanos: int) returns (r: Result<RateLimiter>)
      ensures tokensPerNano <= 0.0 ==> r == Err(IllegalArgument("tokensPerNano must be > 0"))
      ensures tokensPerNano > 0.0 && burst <= 0.0 ==> r == Err(IllegalArgument("burst must be > 0"))
      ensures r.Ok? <==> tokensPerNano > 0.0 && burst > 0.0
      ensures r.Ok? ==> fresh(r.value) && r.value.Valid()
      ensures r.Ok? ==> r.value.tokensPerNano == tokensPerNano && r.value.burst == burst
      ensures r.Ok? ==> r.value.stored == burst && r.value.lastNanos == nowNanos
    {
      if tokensPerNano <= 0.0 {
        return Err(IllegalArgument("tokensPerNano must be > 0"));
      }
      if burst <= 0.0 {
        return Err(IllegalArgument("burst must be > 0"));
      }
      var limiter := new RateLimiter.Init(tokensPerNano, burst, nowNanos);
      return Ok(limiter);
    }

    /** `permits` per window of `windowNanos`: the burst is `permits` and the rate `permits / windowNanos`. */
    static method Of(permits: int, windowNanos: int, nowNanos: int) returns (r: Result<RateLimiter>)
      ensures permits <= 0 ==> r == Err(IllegalArgument("permits must be > 0"))
      ensures permits > 0 && windowNanos <= 0 ==> r == Err(IllegalArgument("window must be > 0"))
      ensures r.Ok? <==> permits > 0 && windowNanos > 0
      ensures r.Ok? ==> fresh(r.value) && r.value.Valid()
      ensures r.Ok? ==> r.value.burst == permits as real
      ensures r.Ok? ==> r.value.tokensPerNano == permits as real / windowNanos as real
      ensures r.Ok? ==> r.value.stored == r.value.burst && r.value.lastNanos == nowNanos
    {
      if permits <= 0 {
        return Err(IllegalArgument("permits must be > 0"));
      }
      if windowNanos <= 0 {
        return Err(IllegalArgument("window must be > 0"));
      }
      var perNano := permits as real / windowNanos as real;
      r := Create(perNano, permits as real, nowNanos);
    }

    /** `permitsPerSecond` accrued continuously, with at most `burst` stored. */
    static method PerSecond(permitsPerSecond: real, burst: int, nowNanos: int) returns (r: Result<RateLimiter>)
      ensures permitsPerSecond <= 0.0 ==> r == Err(IllegalArgument("permitsPerSecond must be > 0"))
      ensures permitsPerSecond > 0.0 && burst <= 0 ==> r == Err(IllegalArgument("burst must be > 0"))
      ensures r.Ok? <==> permitsPerSecond > 0.0 && burst > 0
      ensures r.Ok? ==> fresh(r.value) && r.value.Valid()
      ensures r.Ok? ==> r.value.burst == burst as real
      ensures r.Ok? ==> r.value.tokensPerNano == permitsPerSecond / 1_000_000_000.0
      ensures r.Ok? ==> r.value.stored == r.value.burst && r.value.lastNanos == nowNanos
    {
      if permitsPerSecond <= 0.0 {
        return Err(IllegalArgument("permitsPerSecond must be > 0"));
      }
      if burst <= 0 {
        return Err(IllegalArgument("burst must be > 0"));
      }
      var perNano := permitsPerSecond / 1_000_000_000.0;
      r := Create(perNano, burst as real, nowNanos);
    }

    /** Adds the tokens accrued since the last refill, up to the burst. */
    method RefillLocked(now: int)
      requires Valid()
      modifies this
      ensures Valid()
      ensures State() == Refill(tokensPerNano, burst, old(State()), now)
    {
      var elapsed := now - lastNanos;
      if elapsed <= 0 {
        return;
      }
      var add := elapsed as real * tokensPerNano;
      if add > 0.0 {
        stored := MinReal(burst, stored + add);
        lastNanos := now;
      }
    }

    /**
     * Tries to take `permits` tokens without blocking. A non-positive request is
     * an IllegalArgumentException and touches nothing; otherwise the bucket is
     * refilled and the request admitted exactly when enough tokens are stored.
     */
    method TryAcquire(permits: int, now: int) returns (r: Result<bool>)
      requires Valid()
      modifies this
      ensures Valid()
      ensures permits <= 0 ==> r == Err(IllegalArgument("permits must be > 0")) && State() == old(State())
      ensures permits > 0 ==> r.Ok? && (r.value, State()) == Take(tokensPerNano, burst, old(State()), permits, now)
    {
      if permits <= 0 {
        return Err(IllegalArgument("permits must be > 0"));
      }
      RefillLocked(now);
      if stored >= permits as real {
        stored := stored - permits as real;
        return Ok(true);
      }
      return Ok(false);
    }

    /** tryAcquire(): a request for a single permit. */
    method TryAcquireOne(now: int) returns (granted: bool)
      requires Valid()
      modifies this
      ensures Valid()
      ensures (granted, State()) == Take(tokensPerNano, burst, old(State()), 1, now)
    {
      var r := TryAcquire(1, now);
      granted := r.value;
    }

    /** The stored tokens after a refill; consumes nothing. */
    method AvailablePermits(now: int) returns (p: real)
      requires Valid()
      modifies this
      ensures Valid()
      ensures State() == Refill(tokensPerNano, burst, old(State()), now)
      ensures p == stored && old(stored) <= p <= burst
    {
      RefillLocked(now);
      return stored;
    }
  }
}
