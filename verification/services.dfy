/**
 * A service locator: a registry from service types to their implementations,
 * and a table of shared rate limiters looked up, or created on first use, by
 * name. Both are the fields of one `Services` object.
 */
module ServiceLocator {
  import opened Failures
  import opened JavaLang
  import RateLimiting
  import Caching

  /** A service type, as a class token, known by its fully qualified name. */
  datatype ServiceType = ServiceType(name: string)

  /**
   * The implementation most recently registered for `t` in the history `log`,
   * or None when `t` was never registered.
   */
  function LatestRegistration<S>(log: seq<(ServiceType, S)>, t: ServiceType): Option<S>
  {
    if log == [] then None
    else if log[|log| - 1].0 == t then Some(log[|log| - 1].1)
    else LatestRegistration(log[..|log| - 1], t)
  }

  /**
   * The latest registration is absent exactly when `t` never occurs in the
   * history, and otherwise is the last entry for `t`.
   */
  lemma {:induction false} LatestRegistrationMeaning<S>(log: seq<(ServiceType, S)>, t: ServiceType)
    ensures LatestRegistration(log, t).None? <==> forall i :: 0 <= i < |log| ==> log[i].0 != t
    ensures LatestRegistration(log, t).Some? ==>
              exists i :: 0 <= i < |log| && log[i] == (t, LatestRegistration(log, t).value) &&
                          forall j :: i < j < |log| ==> log[j].0 != t
  {
    if log != [] {
      var n := |log| - 1;
      if log[n].0 == t {
        assert log[n] == (t, LatestRegistration(log, t).value);
      } else {
        var pre := log[..n];
        LatestRegistrationMeaning(pre, t);
        assert forall i :: 0 <= i < n ==> pre[i] == log[i];
        var r := LatestRegistration(pre, t);
        assert LatestRegistration(log, t) == r;
        if r.Some? {
          var i :| 0 <= i < n && pre[i] == (t, r.value) && forall j :: i < j < n ==> pre[j].0 != t;
          assert log[i] == (t, r.value);
        }
      }
    }
  }

  /** One more registration: it is the latest for its type and hides nothing of the others. */
  lemma LatestRegistrationAppend<S>(log: seq<(ServiceType, S)>, t: ServiceType, impl: S, u: ServiceType)
    ensures LatestRegistration(log + [(t, impl)], u) ==
            (if u == t then Some(impl) else LatestRegistration(log, u))
  {
    assert (log + [(t, impl)])[..|log|] == log;
  }

  class Services<S> {
    /** The registered implementation of each service type. */
    var registry: map<ServiceType, S>
    /** The shared rate limiters, by name. */
    var rateLimiters: map<string, RateLimiting.RateLimiter>
    /** Every registration so far, oldest first. */
    ghost var registrations: seq<(ServiceType, S)>

    /** The registry holds, for each type, exactly the latest registration; every shared limiter is consistent. */
    ghost predicate Valid()
      reads this, rateLimiters.Values
    {
      (forall t :: LatestRegistration(registrations, t) == (if t in registry then Some(registry[t]) else None)) &&
      (forall n :: n in rateLimiters ==> rateLimiters[n].Valid())
    }

    /** Nothing registered and no limiter created. */
    constructor ()
      ensures Valid()
      ensures registry == map[] && rateLimiters == map[] && registrations == []
    {
      registry := map[];
      rateLimiters := map[];
      registrations := [];
    }

    /** register(type, impl): `impl` replaces any implementation of `type`; other types are untouched. */
    method Register(t: ServiceType, impl: S)
      requires Valid()
      modifies this
      ensures Valid()
      ensures registry == old(registry)[t := impl]
      ensures registrations == old(registrations) + [(t, impl)]
      ensures rateLimiters == old(rateLimiters)
    {
      registry := registry[t := impl];
      registrations := registrations + [(t, impl)];
      forall u
        ensures LatestRegistration(registrations, u) == (if u in registry then Some(registry[u]) else None)
      {
        LatestRegistrationAppend(old(registrations), t, impl, u);
      }
    }

    /** get(type): the latest implementation registered for `type`, or an IllegalStateException when there is none. */
    function Get(t: ServiceType): (r: Result<S>)
      requires Valid()
      reads this, rateLimiters.Values
      ensures r.Ok? <==> LatestRegistration(registrations, t).Some?
      ensures r.Ok? ==> Some(r.value) == LatestRegistration(registrations, t)
      ensures r.Err? ==> r.error == IllegalState("Service not registered: " + t.name)
    {
      if t in registry then Ok(registry[t])
      else Err(IllegalState("Service not registered: " + t.name))
    }

    /** maybe(type): the latest implementation registered for `type`, if any. */
    function Maybe(t: ServiceType): (r: Option<S>)
      requires Valid()
      reads this, rateLimiters.Values
      ensures r == LatestRegistration(registrations, t)
      ensures r.None? <==> Get(t).Err?
    {
      if t in registry then Some(registry[t]) else None
    }

    /** isRegistered(type): whether `type` was ever registered. */
    function IsRegistered(t: ServiceType): (r: bool)
      requires Valid()
      reads this, rateLimiters.Values
      ensures r <==> exists i :: 0 <= i < |registrations| && registrations[i].0 == t
    {
      LatestRegistrationMeaning(registrations, t);
      t in registry
    }

    /** expiringCache(name, ttl): a new, empty cache on every call; the name is not kept. */
    method NewExpiringCache<K(==), V>(name: string, ttl: int) returns (c: Caching.ExpiringCache<K, V>)
      ensures fresh(c) && c.Valid()
      ensures c.ttlNanos == Max(1, ttl) && c.entries == map[]
    {
      c := new Caching.ExpiringCache(ttl);
    }

    /**
     * rateLimiter(name, permits, window): the limiter already shared under
     * `name`, whatever `permits` and `window` say; otherwise one made by
     * RateLimiter.of and recorded under `name`. When RateLimiter.of throws,
     * nothing is recorded.
     */
    method RateLimiterFor(name: string, permits: int, windowNanos: int, now: int)
      returns (r: Result<RateLimiting.RateLimiter>)
      requires Valid()
      modifies this
      ensures Valid()
      ensures registry == old(registry) && registrations == old(registrations)
      ensures name in old(rateLimiters) ==> r == Ok(old(rateLimiters)[name]) && rateLimiters == old(rateLimiters)
      ensures name !in old(rateLimiters) ==> (r.Ok? <==> permits > 0 && windowNanos > 0)
      ensures name !in old(rateLimiters) && permits <= 0 ==>
                r == Err(IllegalArgument("permits must be > 0")) && rateLimiters == old(rateLimiters)
      ensures name !in old(rateLimiters) && permits > 0 && windowNanos <= 0 ==>
                r == Err(IllegalArgument("window must be > 0")) && rateLimiters == old(rateLimiters)
      ensures name !in old(rateLimiters) && r.Ok? ==>
                fresh(r.value) && rateLimiters == old(rateLimiters)[name := r.value] &&
                r.value.burst == permits as real && r.value.stored == r.value.burst &&
                r.value.tokensPerNano == permits as real / windowNanos as real && r.value.lastNanos == now
      ensures r.Ok? ==> r.value.Valid()
    {
      if name in rateLimiters {
        return Ok(rateLimiters[name]);
      }
      r := RateLimiting.RateLimiter.Of(permits, windowNanos, now);
      if r.Ok? {
        rateLimiters := rateLimiters[name := r.value];
      }
    }
  }
}
