/**
 The limiter's own methods, run without interruption against the counter
 store, and their agreement with the steps of the transition system.
 */
module RateLimiter {
  import opened Options
  import opened RateLimit
  import opened RateLimitProperties

  class Redis {
    var now: int
    var counters: Store

    constructor (now: int)
      ensures this.now == now && counters == map[]
    {
      this.now, counters := now, map[];
    }

    method Incr(key: string) returns (current: nat)
      modifies this`counters
      ensures counters == RateLimit.Incr(old(counters), key)
      ensures current == counters[key].value
    {
      var expiry := None;
      current := 1;
      if key in counters {
        expiry := counters[key].expiry;
        current := counters[key].value + 1;
      }
      counters := counters[key := Counter(current, expiry)];
    }

    method Expire(key: string, seconds: nat)
      modifies this`counters
      ensures counters == SetExpiry(old(counters), key, now + seconds)
    {
      if key in counters {
        counters := counters[key := Counter(counters[key].value, Some(now + seconds))];
      }
    }

    method Ttl(key: string) returns (ttl: int)
      ensures ttl == RateLimit.Ttl(counters, now, key)
    {
      if key !in counters {
        ttl := -2;
      } else if counters[key].expiry == None {
        ttl := -1;
      } else {
        ttl := counters[key].expiry.value - now;
      }
    }
  }

  datatype Outcome = Allowed | TooManyRequests(retryAfter: int)

  // The counters after one whole check of a key.
  function Checked(counters: Store, now: int, key: string, window: nat): Store {
    var bumped := RateLimit.Incr(counters, key);
    if bumped[key].value == 1 then SetExpiry(bumped, key, now + window) else bumped
  }

  method Check(redis: Redis, key: string, limit: int, windowSeconds: nat) returns (allowed: bool, retryAfter: int)
    modifies redis`counters
    ensures redis.counters == Checked(old(redis.counters), redis.now, key, windowSeconds)
    ensures var count := if key in old(redis.counters) then old(redis.counters)[key].value + 1 else 1;
      var expiry := if count == 1 then Some(redis.now + windowSeconds) else old(redis.counters)[key].expiry;
      && redis.counters == old(redis.counters)[key := Counter(count, expiry)]
      && (allowed <==> count <= limit)
      && (allowed ==> retryAfter == 0)
      && (!allowed && expiry == None ==> retryAfter == 1)
      && (!allowed && expiry.Some? ==>
            retryAfter == if expiry.value - redis.now > 1 then expiry.value - redis.now else 1)
  {
    var current := redis.Incr(key);
    if current == 1 {
      redis.Expire(key, windowSeconds);
    }
    if current > limit {
      var ttl := redis.Ttl(key);
      return false, Max(ttl, 1);
    }
    return true, 0;
  }

  method Enforce(redis: Redis, key: string, limit: int, windowSeconds: nat := 60) returns (outcome: Outcome)
    modifies redis`counters
    ensures redis.counters == Checked(old(redis.counters), redis.now, key, windowSeconds)
    ensures outcome == if redis.counters[key].value <= limit then Allowed
                       else TooManyRequests(Max(RateLimit.Ttl(redis.counters, redis.now, key), 1))
  {
    var allowed, retryAfter := Check(redis, key, limit, windowSeconds);
    outcome := if allowed then Allowed else TooManyRequests(retryAfter);
  }

  // A request refused by the user counter never reaches the tenant counter.
  method EnforceIdentityRateLimits(redis: Redis, enabled: bool, perUser: int, perTenant: int, tenant: string,
      subject: string)
      returns (outcome: Outcome)
    modifies redis`counters
    ensures !enabled ==> outcome == Allowed && redis.counters == old(redis.counters)
    ensures enabled ==>
      var user, shared := "ratelimit:user:" + subject, "ratelimit:tenant:" + tenant;
      var first := Checked(old(redis.counters), redis.now, user, 60);
      if first[user].value > perUser then
        && redis.counters == first
        && outcome == TooManyRequests(Max(RateLimit.Ttl(first, redis.now, user), 1))
      else
        && redis.counters == Checked(first, redis.now, shared, 60)
        && outcome == if redis.counters[shared].value <= perTenant then Allowed
                      else TooManyRequests(Max(RateLimit.Ttl(redis.counters, redis.now, shared), 1))
  {
    if !enabled {
      return Allowed;
    }
    outcome := Enforce(redis, UserKey(subject), perUser);
    if outcome == Allowed {
      outcome := Enforce(redis, TenantKey(tenant), perTenant);
    }
  }

  // Every request is counted under its client's address, "unknown" without one.
  method EnforceIpRateLimit(redis: Redis, enabled: bool, perIp: int, client: Option<string>)
      returns (outcome: Outcome)
    modifies redis`counters
    ensures !enabled ==> outcome == Allowed && redis.counters == old(redis.counters)
    ensures enabled ==>
      var key := "ratelimit:ip:" + if client.Some? then client.value else "unknown";
      && redis.counters == Checked(old(redis.counters), redis.now, key, 60)
      && outcome == if redis.counters[key].value <= perIp then Allowed
                    else TooManyRequests(Max(RateLimit.Ttl(redis.counters, redis.now, key), 1))
  {
    if !enabled {
      return Allowed;
    }
    outcome := Enforce(redis, IpKey(if client.Some? then client.value else "unknown"), perIp);
  }

  // The steps one check takes: INCR, EXPIRE on a first arrival, TTL on a refusal.
  function CheckSteps(cfg: Config, s: State, i: nat): State
    requires i < |s.requests| && Running(s.requests[i]) && s.requests[i].pc.AtIncr?
  {
    var counted := DoIncr(cfg, s, i);
    var timed := if counted.requests[i].pc.AtExpire? then DoExpire(cfg, counted, i) else counted;
    if timed.requests[i].pc.AtTtl? then DoTtl(timed, i) else timed
  }

  // A check that nothing interrupts does to the counters, and answers, what
  // the sequential method does.
  lemma {:induction false} UninterruptedCheck(cfg: Config, s: State, i: nat)
    requires i < |s.requests| && Running(s.requests[i]) && s.requests[i].pc.AtIncr?
    requires s.store.Keys == s.current.Keys
    ensures var s', key := CheckSteps(cfg, s, i), KeyOf(s.requests[i]);
      var r, r' := s.requests[i], s'.requests[i];
      && s'.store == Checked(s.store, s.now, key, cfg.window)
      && (s'.store[key].value > cfg.limits(key) ==> r'.pc == Blocked(Max(RateLimit.Ttl(s'.store, s.now, key), 1)))
      && (s'.store[key].value <= cfg.limits(key) ==>
            if r.check + 1 < |r.keys| then r'.pc == AtIncr && r'.check == r.check + 1 else r'.pc == Passed)
  {
  }
}
