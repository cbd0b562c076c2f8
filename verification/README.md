# Fixed-window rate limiter, modelled in Dafny

This project models the core of a small rate-limiting service. The service asks
`RateLimiter.is_allowed(key)` whether a request may pass. The method keeps one
counter per key in a key-value store (Redis) and takes one of three branches:

- an absent key gets a counter of 1 that expires after `rate_window` seconds;
- a counter below `rate_limit` is incremented, and its expiry is left alone;
- otherwise the request is denied and nothing is written.

The key is `"rate:" + ip`. The client address `ip` comes from `get_client_ip`:
the first comma-separated entry of `x-forwarded-for`, trimmed, or else the
peer host.

Files:

- `optional.dfy`: module `Optional`, the `Option` datatype.
- `fixed_window.dfy`: module `FixedWindow`. The store is a
  `map<string, Counter(count, expiry)>` read at a logical time `now`. A record
  whose `expiry <= now` is treated as absent, as an expired Redis key is. The
  module holds the pure decision `Decide`, the function `Replay` (the answers to
  consecutive calls on one key, each made at its own time), and the lemmas
  about them.
- `rate_limiter.dfy`: module `Limiter`. The class `RateLimiter` holds the
  policy (`limit`, `window`, `url`), the lazily set handle `redis`, the store
  and the store's clock. `IsAllowed` updates the store in place and is proved
  equal to `Decide`. `Advance` moves the clock. The module also holds the
  `"rate:"` key prefix and the default-policy scenario.
- `client_ip.dfy`: module `ClientIp`. `get_client_ip` is modelled over a
  request that carries an optional header string and an optional peer host.
  When the header gives nothing and the peer is unknown, reading
  `request.client.host` raises; the model returns `None` there.

Two points of the code's behaviour shape the model:

- The counter is created with a plain `SET ... EX`. A conditional create
  ("set only if not present") would differ from it only under concurrency,
  which is not modelled.
- A store failure is the client library's exception, propagated unchanged.
  The model has no store failures, so it has no error path for them.

## Model

| member | source | states |
|---|---|---|
| `Limiter.RateLimiter.constructor` | rate_limiter.py:10-14 | Stores the URL, limit and window. Leaves the handle unset (`None`). Starts over an empty store, where the count and expiry bounds hold. |
| `Limiter.RateLimiter.GetRedis` | rate_limiter.py:16-19 | Opens a fresh handle on the URL only when none is held. After the call a handle is always held. A held handle is returned unchanged, and the call writes nothing else. |
| `Limiter.RateLimiter.IsAllowed` | rate_limiter.py:21-31 | Absent or expired key: allows, and the key gets count 1 with expiry `now + window`. Count below the limit: allows, adds exactly 1, and keeps the expiry. Count at or above the limit: denies and leaves the store unchanged. A handle is held afterwards: one already held is kept, otherwise a fresh one is opened on the URL. No bound on the store is required: a count above the limit left by another writer is denied. If live counts were within 1..limit and expiries within one window before the call, they still are after it. The call equals `Decide` on the old store. |
| `Limiter.RateLimiter.Advance` | rate_limiter.py:25 | Moves the clock and leaves the store alone. The count and expiry bounds, if they held, still hold. If every expiry was within one window, then once `dt >= window` every key reads as absent, because each time-to-live set at line 25 has run out. |
| `FixedWindow.DecideIsolation` | rate_limiter.py:23-29 | A call on `key` leaves every other key's record as it was, present or absent. |
| `FixedWindow.DecideFrame` | rate_limiter.py:23-31 | A call that allows adds `key` to the store's keys and no other key. A call that denies leaves the keys as they were. With a positive window, a call allows exactly when it changes the store. |
| `FixedWindow.OtherKeyUnaffected` | rate_limiter.py:23-29 | After any call on `key`, any sequence of calls on a different key, at any times, gets the same answers as before that call. |
| `FixedWindow.ReplayDependsOnlyOnKey` | rate_limiter.py:23-31 | Two stores that hold the same record for a key, or no live record for it at the first call, give the same answers to any sequence of calls on it at any times. |
| `FixedWindow.DecidePreservesBounds` | rate_limiter.py:24-29 | If `limit >= 1`, every live count within 1..limit and every expiry at most `now + window` all stay so after a call. Sequential use never overshoots the limit. |
| `FixedWindow.AdvancePreservesBounds` | rate_limiter.py:25 | Letting time pass keeps both bounds. |
| `FixedWindow.WindowElapsed` | rate_limiter.py:25 | Once a full window has passed, every key reads as absent. |
| `FixedWindow.ExpiredKeyRestarts` | rate_limiter.py:24-26 | After a full window, the next call allows. The count restarts at 1 with a new expiry one window ahead. |
| `FixedWindow.ExpiredStoreActsEmpty` | rate_limiter.py:23-26 | A store whose records have all expired by the first call gives the same answers as an empty store, for any key and any call times. |
| `FixedWindow.RemainingThenDeny` | rate_limiter.py:24-31 | A record that has counted `c <= limit` requests gets exactly `limit - c` allows and then a deny, for calls at any times before its expiry. The increments never move that expiry. |
| `FixedWindow.ExactlyLimitThenDeny` | rate_limiter.py:24-31 | From an absent key, take `limit + 1` calls all made before one window has passed since the first. They answer true `limit` times and then false. |
| `FixedWindow.DenialIsStable` | rate_limiter.py:30-31 | Once a record has reached the limit, every call made before its expiry is denied. |
| `Limiter.DefaultScenario` | tests/test_limiter.py:7-12 | With the default policy (5 per 60 s) on key `rate:1.2.3.4`, the answers are true five times, then false, then true after 61 s. |
| `Limiter.RateKey` | main.py:10 | The key is `"rate:"` followed by the address. |
| `Limiter.RateKeyInjective` | main.py:10 | Different addresses get different keys, so clients never share a counter. |
| `ClientIp.FirstToken` | rate_limiter.py:36 | `split(",")[0]`: the prefix that contains no comma and runs up to the first comma or to the end. |
| `ClientIp.TrimStart` | rate_limiter.py:36 | Removes exactly the leading whitespace. What remains is a suffix that is empty or starts with a non-space. |
| `ClientIp.TrimEnd` | rate_limiter.py:36 | Removes exactly the trailing whitespace. What remains is a prefix that is empty or ends with a non-space. |
| `ClientIp.Strip` | rate_limiter.py:36 | `strip()`: a slice `s[i..j]` with only whitespace before `i` and after `j`. It does not begin or end with whitespace. |
| `ClientIp.StripIdempotent` | rate_limiter.py:36 | Stripping an already stripped string changes nothing. |
| `ClientIp.GetClientIp` | rate_limiter.py:33-37 | With a missing or empty header: the peer host, unchanged, or failure (`None`) when there is no peer. With a non-empty header: a trimmed slice of the header's first comma-separated token, which contains no comma and has no outer whitespace. The peer is then not consulted. |
| `ClientIp.ProxyChainExample` | rate_limiter.py:34-36 | The header `"9.9.9.9, 10.0.0.1"` gives `"9.9.9.9"`, even with no peer. |
| `ClientIp.NoHeaderFallsBack` | rate_limiter.py:35-37 | Both a missing header and an empty header give the peer host. Without a header and without a peer, the lookup fails. |
| `ClientIp.BlankHeaderGivesEmpty` | rate_limiter.py:35-36 | A header of only whitespace is truthy, so it gives the empty identity and not the peer host. |

## Left out

- The aioredis connection (`aioredis.from_url`, encoding options) and the async/await machinery are network I/O in a foreign library. The handle is an object that records its URL, and only its "set once, then reused" shape is kept.
- Limiter.RateLimiter.constructor, Limiter.RateLimiter.Bounded: each limiter here owns a private store that starts empty. The real store is the external Redis, which outlives the limiter and is shared by every process. Counts above this limiter's limit that other writers leave behind (a restart with a lower limit, another process with a different one) are not produced by this model. `IsAllowed` and `Decide` still handle them: they are denied and left unchanged, as at rate_limiter.py:30-31.
- The read-then-write race between concurrent `is_allowed` calls on one key is not modelled. Each call is one atomic step here. The real code issues GET and then SET or INCR as separate round trips, so two concurrent calls can both pass at `limit - 1` and overshoot the limit.
- Configuration from environment variables (`REDIS_URL`, `RATE_LIMIT`, `RATE_WINDOW` and their `int(...)` parsing) is process I/O. The values are constructor parameters, and the constructor requires `limit >= 1` and `window >= 1`. `DefaultScenario` uses the defaults 5 and 60.
- Parsing the stored string with `int(count)`, and the exception raised on malformed data, are left out. The store holds integers.
- Store failures (connection errors, timeouts) are left out. In the code they surface as exceptions from the client library.
- Expiry between the GET and the INCR is not modelled. Because each call is one atomic step here, the model never increments a key that has expired. In the code, GET (rate_limiter.py:23) and INCR (rate_limiter.py:28) are separate round trips. The key's time-to-live can run out between them, even with no other caller. Redis `INCR` on a missing key then creates it at 1 with no time-to-live. That counter never expires, so once it reaches the limit the client is denied for good. The reset lemmas (`WindowElapsed`, `ExpiredKeyRestarts`, `Advance`) do not cover this case.
- Expiry is not modelled as deletion: an expired record stays in the map and reads as absent.
- Wall-clock time and Redis's time-to-live internals are left out. Time is an integer clock that only `Advance` moves. `Advance` is not in the source.
- The FastAPI routing and the HTTP 429 response in main.py are web wiring. Only the key format from main.py:10 is modelled.
- `Limiter.DefaultScenario`: the test at tests/test_limiter.py:7-12 goes through HTTP, and it reaches the limiter with the test client's peer address. The scenario calls the limiter directly with the address 1.2.3.4.
