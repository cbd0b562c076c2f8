/**
  The rate limiter object: its configuration, its lazily opened store handle,
  and the per-key counter store it reads and writes on every call.

  The store is held as a map from key to counter record, and the store's
  clock as an integer `now` that only `Advance` moves.
 */
module Limiter {
  import opened Optional
  import opened FixedWindow

  /** The connection to the counter store, opened from a URL. */
  class Handle {
    const url: string

    constructor (url: string)
      ensures this.url == url
    {
      this.url := url;
    }
  }

  class RateLimiter {
    const url: string
    const limit: int
    const window: int

    /** The store handle: none until the first call needs it, then kept for good. */
    var redis: Handle?

    /** The counter records of the shared store, and the store's logical clock. */
    var store: Store
    var now: int

    /** The policy is a positive limit over a positive window. */
    ghost predicate Valid()
      reads this
    {
      limit >= 1 && window >= 1
    }

    /**
      No live count has passed this limiter's limit and no record outlives
      one window. The store is shared, so another writer may break this;
      a call that finds it holding keeps it holding.
     */
    ghost predicate Bounded()
      reads this
    {
      CountsBounded(store, now, limit) && ExpiryBounded(store, now, window)
    }

    /** A limiter with its policy set, no handle yet, over an empty store. */
    constructor (url: string, limit: int, window: int)
      requires limit >= 1 && window >= 1
      ensures Valid() && Bounded()
      ensures this.url == url && this.limit == limit && this.window == window
      ensures redis == null && store == map[] && now == 0
    {
      this.url := url;
      this.limit := limit;
      this.window := window;
      redis := null;
      store := map[];
      now := 0;
    }

    /** Open the handle on first use only; afterwards hand back the same one. */
    method GetRedis() returns (h: Handle)
      modifies this`redis
      ensures h == redis
      ensures old(redis) != null ==> redis == old(redis)
      ensures old(redis) == null ==> fresh(redis) && redis.url == url
    {
      if redis == null {
        redis := new Handle(url);
      }
      h := redis;
    }

    /**
      Decide one request for `key`: create the counter when it is absent,
      increment it when it is below the limit, and deny otherwise.
     */
    method IsAllowed(key: string) returns (allowed: bool)
      requires Valid()
      modifies this`redis, this`store
      ensures old(Bounded()) ==> Bounded()
      ensures redis != null && (old(redis) != null ==> redis == old(redis))
      ensures old(redis) == null ==> fresh(redis) && redis.url == url
      ensures old(Live(store, key, now)) == None ==>
        allowed && store == old(store)[key := Counter(1, now + window)]
      ensures old(Live(store, key, now)).Some? && old(store[key].count) < limit ==>
        allowed && store == old(store)[key := Counter(old(store[key].count) + 1, old(store[key].expiry))]
      ensures old(Live(store, key, now)).Some? && old(store[key].count) >= limit ==>
        !allowed && store == old(store)
      ensures Outcome(allowed, store) == Decide(old(store), key, now, limit, window)
    {
      var _ := GetRedis();
      var count := Live(store, key, now);
      if count.None? {
        store := store[key := Counter(1, now + window)];
        allowed := true;
      } else if count.value < limit {
        store := store[key := store[key].(count := count.value + 1)];
        allowed := true;
      } else {
        allowed := false;
      }
      if old(Bounded()) {
        DecidePreservesBounds(old(store), key, now, limit, window);
      }
    }

    /** Let `dt` units of time pass on the store's clock; records past their expiry vanish. */
    method Advance(dt: int)
      requires dt >= 0
      modifies this`now
      ensures now == old(now) + dt
      ensures old(Bounded()) ==> Bounded()
      ensures old(ExpiryBounded(store, now, window)) && dt >= window ==>
        forall k :: Live(store, k, now) == None
    {
      if Bounded() {
        AdvancePreservesBounds(store, now, dt, limit, window);
      }
      ghost var wasBounded := ExpiryBounded(store, now, window);
      now := now + dt;
      forall k ensures Live(store, k, now) == None || dt < window || !wasBounded {
        if dt >= window && wasBounded {
          WindowElapsed(store, k, old(now), dt, window);
        }
      }
    }
  }

  /** The store key under which a client address is counted. */
  function RateKey(ip: string): (key: string)
    ensures |key| == |ip| + 5 && key[..5] == "rate:" && key[5..] == ip
  {
    "rate:" + ip
  }

  /** Distinct clients get distinct counters. */
  lemma RateKeyInjective(a: string, b: string)
    requires a != b
    ensures RateKey(a) != RateKey(b)
  {
  }

  /**
    The default policy (5 requests per 60 seconds) on one client: five
    requests pass, the sixth is refused, and after 61 seconds one passes again.
   */
  method DefaultScenario() returns (answers: seq<bool>)
    ensures answers == [true, true, true, true, true, false, true]
  {
    var limiter := new RateLimiter("redis://redis:6379", 5, 60);
    var key := RateKey("1.2.3.4");
    answers := [];
    var i := 0;
    while i < 6
      invariant 0 <= i <= 6 && limiter.Valid() && limiter.Bounded()
      invariant limiter.limit == 5 && limiter.window == 60 && limiter.now == 0
      invariant answers == Trues(if i <= 5 then i else 5) + (if i == 6 then [false] else [])
      invariant Used(limiter.store, key, 0) == (if i <= 5 then i else 5)
      invariant i > 0 ==> Live(limiter.store, key, 0).Some?
    {
      var ok := limiter.IsAllowed(key);
      answers := answers + [ok];
      i := i + 1;
    }
    limiter.Advance(61);
    var ok := limiter.IsAllowed(key);
    answers := answers + [ok];
  }
}
