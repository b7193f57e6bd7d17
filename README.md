# Cache worker storage model

A Dafny model of the storage core of a small HTTP cache service that runs as a
Cloudflare worker. It also models the bearer-token check that guards the
service's routes. Clients store a serialized value under a string key, with an
optional time-to-live and a list of tags. They read a value back by key and
bulk-invalidate entries by tag.

The store is a D1 (SQLite) database with two tables:

- `cache_entries`: key → value and a nullable `expires_at` in milliseconds.
- `cache_tags`: (tag, cache_key) rows. The pair is the primary key. A foreign key
  from `cache_key` to the entry cascades on delete.

The model keeps both tables as abstract state:
`Tables(entries: map<string, Entry>, tags: set<TagRow>)`. Every SQL statement is an
explicit update of that state, and the cascade becomes "deleting entry `k` also
removes every row `(t, k)`".

- `wrappers.dfy`, module `Wrappers`: `Option` and `Result`.
- `utils.dfy`, module `Utils`: `future_time` as `FutureTime(now, millis)`, and
  `is_authorized` over the header value as an `Option<string>`. Rust's
  `trim_start_matches` is written out as `TrimStartMatches`. It strips the
  pattern repeatedly, so "Bearer Bearer k" is accepted for the key "k".
- `cache.dfy`, module `Cache`: the table contents and one specification function
  per committed statement or transaction (`DeleteKeys`, `Sweep`, `Lookup`,
  `Store`, `Invalidate`). The class `CacheStorage` has the fields `hasTables`,
  `entries` and `tags`, and its methods `Setup`, `CleanExpired`, `Get`, `Set` and
  `InvalidateTags` change them statement by statement. `Set` runs its
  transaction on a private copy, inserting the tag rows in a loop. The copy is
  written to the fields only at the commit, so a failed insert leaves both tables
  unchanged. The lemmas state what the service promises: no expired value is ever
  returned, set-then-get round-trips, an overwrite replaces the tags exactly, the
  last writer wins, invalidation has union semantics, and referential integrity
  is preserved.

The clock is an explicit `now` parameter. The source reads the clock several
times. `get` reads the JavaScript `Date::now` twice: once for the sweep
(src/cache.rs:118) and once for the query (src/cache.rs:48). `future_time` reads
chrono's `Utc::now` (src/utils.rs:10). The model uses one `now` per operation.
For `get` this loses nothing when the clock does not run backwards:
`EarlierSweepKeepsLookup` shows that a sweep at `t1 <= t2` leaves the lookup at
`t2` unchanged.

Three consequences of the code that a reader might not expect:

- A ttl of 0 gives `expires_at == now` (src/utils.rs:11, src/cache.rs:61). Such an
  entry has already expired for a read at the same instant (`GetAfterSet` with
  `later == now`).
- The tags arrive as a list, and `set` inserts one row per element. A tag listed
  twice therefore breaks `PRIMARY KEY (tag, cache_key)` (src/cache.rs:34, 81-87),
  and the transaction is dropped uncommitted (`SetFailsOnRepeatedTag`).
- Every statement fails with "no such table" until `setup` has created the tables
  (src/cache.rs:18-41). The handlers call `setup` first (src/lib.rs:60-63). The
  model keeps this error path (`DbError.NoSuchTable`). The exception is
  `invalidate_tags([])`, which returns before issuing any statement.

## Model

| member | source | states |
|---|---|---|
| `Utils.FutureTime` | src/utils.rs:9-13 | the expiry never lies before `now`, and equals `now` only for a zero duration |
| `Utils.TrimStartMatches` | src/utils.rs:48 | the result is no longer than the header and, for a non-empty pattern, no longer starts with it, however many copies preceded it; `TrimLeavesRemainder` and `TrimIsSuffix` give the rest |
| `Utils.TrimIsSuffix` | src/utils.rs:48 | the result of trimming is a suffix of the header |
| `Utils.TrimLeavesRemainder` | src/utils.rs:48 | what is stripped is a run of whole copies of the pattern, at least one when the string starts with it |
| `Utils.TrimFindsRemainder` | src/utils.rs:48 | behind any number of copies of the pattern, trimming recovers exactly the rest, provided the rest does not start with the pattern |
| `Utils.IsAuthorized` | src/utils.rs:45-53 | a missing header is refused; an accepted header starts with the exact, case-sensitive "Bearer "; an API key that itself starts with "Bearer " can never be matched |
| `Utils.IsAuthorizedIff` | src/utils.rs:45-53 | accepted exactly when the header is one or more copies of "Bearer " followed by the key, and the key does not begin with "Bearer " |
| `Utils.RepeatedBearerAccepted` | src/utils.rs:48-49 | "Bearer Bearer k" is accepted for the key "k", because the stripping repeats |
| `Utils.LowercaseSchemeRefused` | src/utils.rs:47 | "bearer " + key is refused: the prefix test is case-sensitive |
| `Cache.ExpiredKeys` | src/cache.rs:117 | the keys the sweep deletes are exactly the stored keys that the lookup at the same time does not return |
| `Cache.Lookup` | src/cache.rs:46-47 | a value is returned exactly when the key has an entry whose `expires_at` is NULL or later than `now`, and it is that entry's stored value |
| `Cache.ExpiresAt` | src/cache.rs:61 | there is an expiry exactly when a ttl is given; it never lies before `now`, and equals `now` only for a zero ttl |
| `Cache.TaggedKeys` | src/cache.rs:102-103 | the selected keys are exactly those with a tag row for at least one listed tag; under referential integrity they are all stored keys |
| `Cache.DeleteKeys` | src/cache.rs:35 | deleting entries through the cascade keeps referential integrity and leaves the remaining entries unchanged |
| `Cache.Sweep` | src/cache.rs:114-122 | the global sweep keeps referential integrity |
| `Cache.Store` | src/cache.rs:58-91 | the only way the committed set fails is a unique-constraint violation; a successful set keeps referential integrity |
| `Cache.Invalidate` | src/cache.rs:93-112 | invalidation keeps referential integrity |
| `Cache.SweepRemovesAllExpired` | src/cache.rs:114-122 | after the sweep no entry under any key has a non-NULL `expires_at` at or before `now`; every other entry is kept unchanged; exactly the tag rows of kept entries remain |
| `Cache.GetSeesOnlyLive` | src/cache.rs:44-55 | the lookup after the sweep returns a value exactly when the entry exists and has not expired (`expires_at` NULL or later than `now`); it returns None when there is no entry; the sweep does not change the answer |
| `Cache.EarlierSweepKeepsLookup` | src/cache.rs:44-48 | a sweep at an earlier clock reading than the query's never changes what the query returns |
| `Cache.GetAfterSet` | src/cache.rs:58-91 | a value set at `now` with ttl `d` is read back at `later` exactly while `later < now + d`; one set without a ttl is always read back |
| `Cache.SetReplacesTags` | src/cache.rs:64-87 | after set, the entry for the key is `(value, now + ttl or NULL)`, the tag rows for the key are exactly the requested tags, and every other entry and tag row is unchanged |
| `Cache.SetFailsOnRepeatedTag` | src/cache.rs:81-87 | set fails exactly when some tag is listed twice in the request |
| `Cache.SetOverwritesEarlierSet` | src/cache.rs:64-66 | a second set of a key gives the same state as that set alone: nothing of the first write survives (last writer wins) |
| `Cache.InvalidateRemovesTagged` | src/cache.rs:98-110 | a non-empty invalidation removes an entry exactly when it carries at least one listed tag (union); other entries and their rows stay unchanged; only the rows of surviving entries remain |
| `Cache.InvalidateScenario` | src/cache.rs:93-112 | with "a" tagged "x" and "b" tagged "y", invalidating "x" removes "a" and leaves "b" readable |
| `Cache.DuplicateInsertBreaksDistinct` | src/cache.rs:81-87 | a tag row that already exists when the loop inserts it can only come from an earlier copy of the same tag in the request |
| `Cache.CacheStorage.constructor` | src/cache.rs:14-16 | wraps a database that either has no tables yet or has tables satisfying referential integrity |
| `Cache.CacheStorage.Setup` | src/cache.rs:18-41 | afterwards both tables exist; their contents are unchanged, so calling it again changes nothing |
| `Cache.CacheStorage.CleanExpired` | src/cache.rs:114-122 | the new table contents are the sweep of the old ones; without tables it fails and changes nothing |
| `Cache.CacheStorage.SelectLive` | src/cache.rs:46-55 | returns the stored value exactly when the key has an entry whose `expires_at` is NULL or later than `now`, and None otherwise; fails when the tables do not exist |
| `Cache.CacheStorage.Get` | src/cache.rs:43-56 | the store is swept of all expired entries, and the answer is the lookup on the old contents |
| `Cache.CacheStorage.Set` | src/cache.rs:58-91 | on success the tables hold the committed transaction; on a repeated tag it returns the constraint error; without tables it returns "no such table"; both failures leave the tables unchanged; referential integrity is preserved |
| `Cache.CacheStorage.InvalidateTags` | src/cache.rs:93-112 | an empty list returns Ok and changes nothing; otherwise the tables hold the union invalidation of the old ones; referential integrity is preserved |

## Left out

- Routing and handlers (`src/lib.rs`) are HTTP glue over the `worker` crate and are not part of this model. Each protected handler (`/get/:key`, `/set`, `/invalidate`) calls `is_authorized` and answers 401 before it opens the store (src/lib.rs:52, 72, 95). The health endpoint and the CORS preflight are not modelled.
- JSON serialization of values (`serde_json::to_string` / `from_str`): values are opaque strings, and decoding is assumed to invert encoding. The decode failure on corrupt stored data is not modelled.
- `date_serde` in `src/models.rs` uses JavaScript dates, float conversion and chrono string parsing, which are foreign calls. `CacheRequest` is the record passed to `Set`.
- Real clock access (`Date::now`, `Utc::now`) is replaced by the `now` parameter.
- `Utils.FutureTime`: requires the ttl to be at most i64::MAX, so the wrap-around of `millis as i64` for larger u64 values is not modelled. Neither is chrono's panic when `now + ttl` leaves its date range.
- `expires_at` is inserted as the decimal text of the timestamp and read back through SQLite's INTEGER column affinity. The model stores the integer directly.
- D1 transport failures, `setup` DDL failures, async/await and concurrency are not modelled. Each operation is atomic and sequential. So is the relaxed point between `get`'s sweep and its select.
- `json_response`, `success_response`, `error_response` and `cors_header` build responses and headers through foreign types; they are not part of this model.
- Reading the Authorization header is modelled as an `Option<string>`. A header that cannot be read counts as absent, as `unwrap_or(None)` does.
