/**
  The fixed-window counting decision, stated over an abstract key-value store.

  The store maps a key to a counter record: the number of requests allowed in
  the current window and the logical time at which the record expires. A
  record whose expiry is not after the current time is gone, exactly as a
  key whose time-to-live has run out is gone from the store.
 */
module FixedWindow {
  import opened Optional

  /** One counter record: a count and the instant at which the store drops it. */
  datatype Counter = Counter(count: int, expiry: int)

  type Store = map<string, Counter>

  /** What the store's GET answers at time `now`: the count, or nothing once expired. */
  function Live(store: Store, key: string, now: int): Option<int>
  {
    if key in store && now < store[key].expiry then Some(store[key].count) else None
  }

  /** The requests already counted for `key` in its current window (0 when absent). */
  function Used(store: Store, key: string, now: int): int
  {
    match Live(store, key, now)
    case None => 0
    case Some(c) => c
  }

  /** The decision and the store it leaves behind. */
  datatype Outcome = Outcome(allowed: bool, store: Store)

  /**
    One call of the limiter on `key` at time `now`: create the counter at 1
    with a time-to-live of `window` when it is absent, increment it (keeping
    its expiry) when it is below `limit`, and otherwise deny without writing.
   */
  function Decide(store: Store, key: string, now: int, limit: int, window: int): Outcome
  {
    match Live(store, key, now)
    case None => Outcome(true, store[key := Counter(1, now + window)])
    case Some(c) =>
      if c < limit then Outcome(true, store[key := store[key].(count := c + 1)])
      else Outcome(false, store)
  }

  /** The answers of consecutive calls on `key`, the i-th one made at time `ts[i]`. */
  function Replay(store: Store, key: string, ts: seq<int>, limit: int, window: int): seq<bool>
    decreases |ts|
  {
    if ts == [] then []
    else
      var o := Decide(store, key, ts[0], limit, window);
      [o.allowed] + Replay(o.store, key, ts[1..], limit, window)
  }

  function Trues(n: nat): seq<bool>
  {
    seq(n, _ => true)
  }

  function Falses(n: nat): seq<bool>
  {
    seq(n, _ => false)
  }

  /** Every call time falls before `end`. */
  predicate AllBefore(ts: seq<int>, end: int)
  {
    forall i :: 0 <= i < |ts| ==> ts[i] < end
  }

  /** Every live counter lies between 1 and `limit`. */
  ghost predicate CountsBounded(store: Store, now: int, limit: int)
  {
    forall k :: k in store && now < store[k].expiry ==> 1 <= store[k].count <= limit
  }

  /** No counter outlives one window from now: expiries are only ever set to `now + window`. */
  ghost predicate ExpiryBounded(store: Store, now: int, window: int)
  {
    forall k :: k in store ==> store[k].expiry <= now + window
  }

  /** A call on `key` writes at most `key`'s own record: every other key keeps its record. */
  lemma DecideIsolation(store: Store, key: string, other: string, now: int, limit: int, window: int)
    requires other != key
    ensures var s' := Decide(store, key, now, limit, window).store;
      (other in s' <==> other in store) && (other in store ==> s'[other] == store[other])
  {
  }

  /**
    A call adds at most `key` to the store's keys, and only when it allows.
    With a positive window, a call allows exactly when it writes the store.
   */
  lemma DecideFrame(store: Store, key: string, now: int, limit: int, window: int)
    ensures var o := Decide(store, key, now, limit, window);
      o.store.Keys == (if o.allowed then store.Keys + {key} else store.Keys)
    ensures var o := Decide(store, key, now, limit, window);
      window >= 1 ==> (o.allowed <==> o.store != store)
  {
  }

  /** With `limit >= 1`, a call never takes a live count above the limit, nor below 1. */
  lemma DecidePreservesBounds(store: Store, key: string, now: int, limit: int, window: int)
    requires limit >= 1
    requires CountsBounded(store, now, limit) && ExpiryBounded(store, now, window)
    ensures var s' := Decide(store, key, now, limit, window).store;
      CountsBounded(s', now, limit) && ExpiryBounded(s', now, window)
  {
  }

  /** Letting time pass keeps every bound: live records only disappear. */
  lemma AdvancePreservesBounds(store: Store, now: int, dt: int, limit: int, window: int)
    requires dt >= 0
    requires CountsBounded(store, now, limit) && ExpiryBounded(store, now, window)
    ensures CountsBounded(store, now + dt, limit) && ExpiryBounded(store, now + dt, window)
  {
  }

  /** Once a whole window has passed, every key is absent again. */
  lemma WindowElapsed(store: Store, key: string, now: int, dt: int, window: int)
    requires ExpiryBounded(store, now, window) && dt >= window
    ensures Live(store, key, now + dt) == None
  {
  }

  /**
    A call on an absent or expired key allows and restarts the count at 1
    with a fresh window; after a whole window has passed this is every key.
   */
  lemma ExpiredKeyRestarts(store: Store, key: string, now: int, dt: int, limit: int, window: int)
    requires ExpiryBounded(store, now, window) && dt >= window
    ensures Decide(store, key, now + dt, limit, window)
         == Outcome(true, store[key := Counter(1, now + dt + window)])
  {
  }

  /**
    `s1` and `s2` hold the same record for `key`, or neither holds a live one
    at time `now`: from there on, calls on `key` cannot tell them apart.
   */
  ghost predicate SameRecord(s1: Store, s2: Store, key: string, now: int)
  {
    (key in s1 && key in s2 && s1[key] == s2[key]) ||
    (Live(s1, key, now) == None && Live(s2, key, now) == None)
  }

  /**
    The answers for `key` depend only on `key`'s own record: two stores that
    agree on it give the same answers to any calls at any times.
   */
  lemma {:induction false} ReplayDependsOnlyOnKey(s1: Store, s2: Store, key: string, ts: seq<int>, limit: int, window: int)
    requires ts != [] ==> SameRecord(s1, s2, key, ts[0])
    ensures Replay(s1, key, ts, limit, window) == Replay(s2, key, ts, limit, window)
    decreases |ts|
  {
    if ts != [] {
      var o1 := Decide(s1, key, ts[0], limit, window);
      var o2 := Decide(s2, key, ts[0], limit, window);
      assert o1.allowed == o2.allowed;
      assert key in o1.store && key in o2.store && o1.store[key] == o2.store[key];
      ReplayDependsOnlyOnKey(o1.store, o2.store, key, ts[1..], limit, window);
    }
  }

  /** A call on one key never changes the answers another key gets afterwards, at any times. */
  lemma OtherKeyUnaffected(store: Store, key: string, now: int, other: string, ts: seq<int>, limit: int, window: int)
    requires other != key
    ensures Replay(Decide(store, key, now, limit, window).store, other, ts, limit, window)
         == Replay(store, other, ts, limit, window)
  {
    DecideIsolation(store, key, other, now, limit, window);
    ReplayDependsOnlyOnKey(Decide(store, key, now, limit, window).store, store, other, ts, limit, window);
  }

  /** A store whose records have all expired answers exactly as an empty store. */
  lemma ExpiredStoreActsEmpty(store: Store, key: string, ts: seq<int>, limit: int, window: int)
    requires ts != [] ==> forall k :: k in store ==> store[k].expiry <= ts[0]
    ensures Replay(store, key, ts, limit, window) == Replay(map[], key, ts, limit, window)
  {
    ReplayDependsOnlyOnKey(store, map[], key, ts, limit, window);
  }

  /**
    A key whose live record has counted `c <= limit` requests is allowed
    exactly `limit - c` more times and then denied, for calls made at any
    times before that record's expiry: an increment never moves the expiry.
   */
  lemma {:induction false} RemainingThenDeny(store: Store, key: string, ts: seq<int>, limit: int, window: int)
    requires key in store && store[key].count <= limit
    requires |ts| == limit - store[key].count + 1
    requires AllBefore(ts, store[key].expiry)
    ensures Replay(store, key, ts, limit, window) == Trues(limit - store[key].count) + [false]
    decreases |ts|
  {
    var c := store[key].count;
    var o := Decide(store, key, ts[0], limit, window);
    assert ts[0] < store[key].expiry;
    if c == limit {
      assert !o.allowed;
      assert ts[1..] == [];
    } else {
      assert o.allowed && o.store[key] == Counter(c + 1, store[key].expiry);
      assert AllBefore(ts[1..], store[key].expiry) by {
        forall i | 0 <= i < |ts[1..]| ensures ts[1..][i] < store[key].expiry {
          assert ts[1..][i] == ts[i + 1];
        }
      }
      RemainingThenDeny(o.store, key, ts[1..], limit, window);
      assert Trues(limit - c) == [true] + Trues(limit - c - 1);
    }
  }

  /**
    From an absent key: of `limit + 1` calls all made within one window of
    the first, exactly the first `limit` are allowed and the last is denied.
   */
  lemma ExactlyLimitThenDeny(store: Store, key: string, ts: seq<int>, limit: int, window: int)
    requires limit >= 1
    requires |ts| == limit + 1
    requires Live(store, key, ts[0]) == None
    requires AllBefore(ts, ts[0] + window)
    ensures Replay(store, key, ts, limit, window) == Trues(limit) + [false]
  {
    var o := Decide(store, key, ts[0], limit, window);
    assert o.allowed && o.store[key] == Counter(1, ts[0] + window);
    assert AllBefore(ts[1..], ts[0] + window) by {
      forall i | 0 <= i < |ts[1..]| ensures ts[1..][i] < ts[0] + window {
        assert ts[1..][i] == ts[i + 1];
      }
    }
    RemainingThenDeny(o.store, key, ts[1..], limit, window);
    assert Trues(limit) == [true] + Trues(limit - 1);
  }

  /**
    Once a key's live record has reached the limit, every further call made
    before that record's expiry is denied.
   */
  lemma {:induction false} DenialIsStable(store: Store, key: string, ts: seq<int>, limit: int, window: int)
    requires key in store && store[key].count >= limit
    requires AllBefore(ts, store[key].expiry)
    ensures Replay(store, key, ts, limit, window) == Falses(|ts|)
    decreases |ts|
  {
    if ts != [] {
      assert ts[0] < store[key].expiry;
      assert Decide(store, key, ts[0], limit, window) == Outcome(false, store);
      assert AllBefore(ts[1..], store[key].expiry) by {
        forall i | 0 <= i < |ts[1..]| ensures ts[1..][i] < store[key].expiry {
          assert ts[1..][i] == ts[i + 1];
        }
      }
      DenialIsStable(store, key, ts[1..], limit, window);
      assert Falses(|ts|) == [false] + Falses(|ts| - 1);
    }
  }
}
