# Live player map: the IP location cache and its refresh engine

This project models the core of a small Go service. The service keeps an
in-memory cache, `IPTable`, that maps the IP address of each online game
account to a location record from the ip-api.com lookup service. A
map client reads the cache over HTTP. The core is `ip.go`:

- `Update` refreshes the cache in one call. It does nothing if the last
  completed update was less than two minutes ago. It then queries the
  addresses of online accounts and does nothing if the query fails or
  returns no rows. Otherwise it walks the addresses in order. It skips every
  address already cached. It looks up every other address, keeping a local
  counter of lookups; before each lookup, if the counter has reached
  `MaxLookupsPerMinute` (150), it waits one minute and resets the counter.
  Each record is stored under
  the online address. When the walk is over, `lastUpdate` is set to the
  current time.
- `Return` projects every cached record to `{Addr, Lat, Lon}`.

The model has two modules.

- `RefreshSpec` (`refresh_spec.dfy`) states one call of `Update` as pure
  functions: `Step` is the loop body for one address, `Run` is the loop,
  and `Refresh` is the whole call with its three early exits. The lemmas
  about these functions state what the source promises.
- `IpCache` (`ip_cache.dfy`) holds the class `Cache`. Its fields
  `ipTable` and `lastUpdate` are the two package-level variables. `Update`
  changes them in place with the source's loop and local counter, and is
  proved equal to `Refresh`. `Return` builds its result in a loop over the
  keys of the table.

The outside world is abstracted as follows.

- The clock is an integer count of nanoseconds, like Go's `time.Duration`.
  `Update` receives `now`, the reading taken by the cooldown check, and
  `finish`, the reading stored in `lastUpdate` after the loop. Go reads the
  clock at both places, and a pass can take minutes.
- `lastUpdate` is an `Option<int>`. `None` is Go's zero `time.Time`. The
  zero time is centuries before any clock reading, so the cooldown check
  never stops the first call.
- The database query is an `Online` value: `QueryError`, or `Rows(ips)`.
- The ip-api.com request is an oracle `lookup: string -> Response`. The GET
  can fail (`GetError`), reading the body can fail (`ReadError`), or a body
  arrives (`Body(record)`). The source ignores the `json.Unmarshal` error
  (ip.go:115), so every body gives a record, possibly with empty fields.
- Both lookup failures call `log.Fatal` (ip.go:98, ip.go:108), which ends
  the process. So the `continue` statements after them are never reached.
  The model ends the call with outcome `Fatal` and does not write
  `lastUpdate`.
- Each call returns its trace of external effects, in order: a `Lookup(addr)`
  event for each GET issued, and a `Pause` event for each one-minute wait.
- Coordinates are Go `float32` values. They are only copied, so they are
  carried as their 32-bit patterns (`bv32`).

## Model

| member | source | states |
|---|---|---|
| `RefreshSpec.Step` | ip.go:79-121 | An address already cached leaves the pass unchanged (no lookup, no counter change). The pass ends the process exactly when the address was not cached and its lookup failed. |
| `RefreshSpec.StepEffect` | ip.go:79-121 | One step keeps every cached entry. It adds at most one entry: under the online address `addr`, holding the record the lookup of `addr` returned. Unless the process ends, `addr` is cached afterwards. The trace only grows, and its new lookups are for `addr`. |
| `RefreshSpec.RunEffect` | ip.go:77-122 | A pass keeps every entry with its record. Each added key is an online address, and its record is what the lookup of that address returned. If the process does not end, every online address is cached. The trace only grows, with lookups of online addresses. |
| `RefreshSpec.Refresh` | ip.go:52-126 | The call stops with `TooSoon` exactly when the last completed update is less than two minutes old. It stops with `QueryFailed` exactly when the query fails, and with `NoneOnline` exactly when the query returns no rows. On these exits the table and `lastUpdate` are unchanged and the trace is empty. `lastUpdate` becomes `finish` only when the call completes; otherwise it is kept. |
| `RefreshSpec.AppendKeepsQuota` | ip.go:85-103 | One more event keeps the quota when a pause comes only with 150 lookups since the last pause and a lookup only with fewer. |
| `RefreshSpec.StepKeepsQuota` | ip.go:85-103 | The gate at ip.go:85 and the counter keep the quota. The counter equals the number of lookups since the last pause. A lookup is issued only when fewer than 150 came since the last pause. A pause happens only when 150 did. |
| `RefreshSpec.RunKeepsQuota` | ip.go:77-122 | The whole loop keeps that quota invariant. |
| `RefreshSpec.TrailingLookups` | ip.go:85-103 | A run of consecutive lookups ending at a point is at most the count of lookups since the last pause there. |
| `RefreshSpec.LookupBurstBound` | ip.go:85-93 | Within a trace that keeps the quota, a run of lookups with no pause between them is at most 150 long. |
| `RefreshSpec.StepKeepsLookupInv` | ip.go:79-120 | One step keeps the lookup invariant. No lookup is for an address cached at the start. No address is looked up twice. Each looked-up address is cached unless the process ended. Each new entry was looked up. |
| `RefreshSpec.RunKeepsLookupInv` | ip.go:77-122 | The whole loop keeps that lookup invariant. |
| `RefreshSpec.RunFatalIff` | ip.go:77-110 | The loop ends the process exactly when some online address that was not cached has a failing lookup. |
| `RefreshSpec.RunAllCached` | ip.go:77-82 | A loop over addresses that are all cached issues no lookup and changes nothing. |
| `RefreshSpec.RefreshRespectsQuota` | ip.go:74-103 | The trace of one call keeps the quota: at most 150 lookups before its first pause and between two pauses. Every pause comes exactly when 150 lookups were issued since the previous one. The counter starts at 0 in each call. |
| `RefreshSpec.RefreshLookups` | ip.go:77-120 | One call looks up only online addresses that were not cached when it started, and none twice. Every entry it adds is keyed by the online address and was looked up. Its record is the one that lookup returned. |
| `RefreshSpec.RefreshCompletedCoversOnline` | ip.go:77-125 | When a call completes, every online address is a key of the table. |
| `RefreshSpec.RefreshAppendOnly` | ip.go:79-120 | However a call ends, every entry cached before it is still cached with the same record. Keys are only added. |
| `RefreshSpec.RefreshFatalIff` | ip.go:54-110 | A call ends the process exactly when it passes the early exits and some online address not yet cached has a failing lookup. |
| `RefreshSpec.RefreshAllCached` | ip.go:77-125 | A call past the early exits whose online addresses are all cached issues no lookup, changes no entry, completes and sets `lastUpdate` to `finish`. |
| `RefreshSpec.RefreshAgainTooSoon` | ip.go:53-56 | A call less than two minutes after a completed one does nothing: no lookup, and no change to the table or `lastUpdate`. |
| `RefreshSpec.CompletedRefreshesSpaced` | ip.go:53-56 | With a clock that does not run backwards, two completed calls are at least two minutes apart. |
| `RefreshSpec.RefreshRepeatIsQuiet` | ip.go:77-125 | After a completed call, a later call past the cooldown over any of the same addresses issues no lookup and leaves the table as it is. |
| `IpCache.Cache.constructor` | main.go:14 | The process starts with an empty table (main.go:14) and no completed update: `lastUpdate` holds the zero value of its declaration at ip.go:47. |
| `IpCache.Cache.Update` | ip.go:52-126 | The method updates `ipTable` in place with the source's loop and counter. Its outcome, new table, new `lastUpdate` and trace are exactly those of `Refresh` on the old state. So every lemma about `Refresh` holds of it. |
| `IpCache.Cache.Return` | ip.go:146-156 | The result has one `Location` per table entry, in an unspecified order. Each `Location` occurs in it exactly as many times as there are entries whose `Address`, `Latitude` and `Longitude` it copies into `Addr`, `Lat` and `Lon`. The method modifies nothing. |

## Left out

- `Updater` (ip.go:130-142) is left out. It calls `Update`, waits five seconds and then calls itself recursively, forever.
- database.go is not part of this model. The connection setup and the query in `UpdateOnlineIPs` are replaced by the `Online` value given to `Update`.
- entrypoint.go and main.go are not part of this model beyond the initial state. They hold the HTTP handler over `Return`, its headers and JSON encoding, and the process wiring.
- The HTTP request, the body read and the JSON decoding (ip.go:96-115) are the `lookup` oracle. Within one call the oracle gives one answer per address. That is enough, because each call looks up each address at most once (`RefreshSpec.RefreshLookups`).
- The timer waits (ip.go:86-89) are `Pause` events. The model does not relate lookups to clock readings. So the quota is stated per run of lookups between pauses within one call, not per minute of wall-clock time. Across calls the counter restarts at 0 with no pause. Only the two-minute cooldown separates the calls.
- After `Fatal` the process has ended. The model still reports the table as it was at that moment, but nothing can read it.
- The source stores pointers (`*IPLocation`) in the map; the model stores the records. A cached record is never changed after insertion, so no aliasing is lost.
- The source tests `IPTable[addr] != nil`. The model tests key membership. This is the same test, because a stored pointer is never nil.
- Concurrent reads of `IPTable` by HTTP handlers while `Update` writes it are not modelled. `IPTable` is a plain Go map with no synchronisation (ip.go:30).
- Logging (`log.Println`, `log.Printf`) is left out.
