# moodle-session-ext: the session store and its refresh scheduler, in Dafny

The server keeps Moodle session cookies alive for its users. It stores them in
three buckets of an embedded key-value store:

- `users`: e-mail → user record holding the list of token ids;
- `tokens`: token id → token, which holds the owner, the session string, the
  optional csrf session, the deadline and the time it was added;
- `update_queue`: a 16-byte key (deadline in milliseconds, id) → the id.

A background loop repeatedly takes the first key of the update queue, so the
token with the earliest deadline comes first. It refreshes that token when it
is due and then sleeps until the next one is due or the queue changes.

The model has these parts:

- `bytes.dfy` (module `Bytes`): big-endian numbers and the store's
  lexicographic byte order. The proofs show that, at one fixed width, byte
  order is numeric order.
- `utf8.dfy` (module `Utf8`): strict UTF-8 for `str::as_bytes` and
  `str::from_utf8`, as Table 3-7 of the Unicode Standard defines it. The
  proof shows that decoding and encoding are inverse.
- `model.dfy` (module `Model`): the records and the three key encodings. A
  `TokenId` is a u64 stored as 8 big-endian bytes. An `UpdateQueueKey` is the
  big-endian milliseconds followed by the id bytes. An `Email` is stored as
  its UTF-8 bytes. This module also holds the outcome type: a value, a
  returned error, or a panic with its reason.
- `store.dfy`:
  - Module `Store` defines the store as a value (`Snapshot`), the
    consistency invariant (`Consistent`), and `add_token` as one transaction
    function (`AddTokenTx`).
  - Module `StoreProofs` proves what `add_token` promises.
- `upkeep.dfy` (module `Upkeep`): the store operations the scheduler calls.
  These are `update_token`, `remove_token`, `get_most_urgent_token` and
  `get_token_count`.
- `database.dfy` (module `Db`):
  - `Database` is a class with the three buckets, the id generator and a log
    of update-queue changes as fields.
  - Its methods are the transactions, written imperatively with the source's
    loops (the `map`/`collect`, the `any`, the `min_by_key`). Each is proved
    equal to its transaction function.
  - `Watch` is a subscription to the queue: a cursor into the change log.
- `updater.dfy` (module `Updater`): `update_one` and one iteration of
  `update_loop`. An iteration finds the deadline (or the fallback one
  1,000,000 seconds ahead), tests whether it is due, refreshes the token,
  computes the timeout and drains the watch.

Time is a natural number of nanoseconds since the UNIX epoch.
`Duration::as_millis` is whole-millisecond truncation (`Model.Millis`).
Both times of a token record are `serde_millis` fields (src/model.rs:137-140),
so the store keeps whole milliseconds. The model stores `added` and the
deadline truncated that way (`Model.WholeMillis`), and every stored time is a
whole number of milliseconds (`Store.StoredInMillis`, part of
`Db.Database.Valid`). The user's tokens are read back from the store
(src/db.rs:47-55), so `min_by_key` compares whole milliseconds, and a tie
within the same millisecond goes to the first position.

A panic (an `expect`, `assert!`, `unwrap` or an out-of-range slice) is the
outcome `Panic(reason)`. A transaction that fails, whether by returning an
error or by panicking, leaves the store unchanged.

The source files do not agree with each other in three places. The model
resolves them as follows:

- **One deadline field.** `Token` has a `time_left` field (src/model.rs:138).
  `add_token` writes `last_updated` (src/db.rs:87, 111) and the scheduler
  reads `deadline` (src/updater.rs:52). The model has a single field,
  `deadline`. `add_token` sets it to the epoch, and the queue key is built
  from it.
- **Operations src/db.rs does not define.** src/db.rs has no definition of
  `update_token`, `remove_token`, `get_most_urgent_token`,
  `get_token_count` or `subscribe_queue_updates`. Their models in
  `upkeep.dfy` and `database.dfy` follow how the callers use them
  (src/updater.rs:22, 27, 45-46; src/main.rs:102):
  - extending a token moves its queue key;
  - removing a token deletes its record, its queue entry and its id in the
    owner's list;
  - the most urgent token is the one with the first live queue key.

  No code in src/db.rs backs these contracts. Their rows below cite the call
  sites.
- **The csrf argument.** src/server.rs:51 passes a csrf session that
  `add_token` does not accept (src/db.rs:34). The model follows db.rs, which
  stores `csrf_session: None`.

## Model

| member | source | states |
|---|---|---|
| Model.U64RoundTrip | src/model.rs:31-40 | converting a u64 to a TokenId and back gives the same number; the stored bytes are its 8-byte big-endian form |
| Model.TokenIdRoundTrip | src/model.rs:31-40 | every TokenId is the image of the u64 its bytes stand for |
| Model.TokenIdRawKey | src/model.rs:24-30 | `from_raw_key` copies the first 8 bytes: an id's own bytes decode to that id; a raw key decodes to id t iff its first 8 bytes are t's; a key shorter than 8 bytes panics at the slice |
| Model.QueueKeyFrom | src/model.rs:93-106 | a queue key that encodes successfully decodes to (the deadline truncated to whole milliseconds, the id) |
| Model.QueueKeyLayout | src/model.rs:95-104 | encoding succeeds iff the millisecond count fits in a u64, and otherwise panics with "too far into the future"; bytes 0..8 are the big-endian milliseconds and bytes 8..16 are the id bytes |
| Model.QueueKeyOfParts | src/model.rs:108-123 | every 16-byte key is the encoding of the (time, id) pair it decodes to |
| Model.QueueKeyOrder | src/model.rs:100-103 | comparing two keys byte by byte is the same as comparing (milliseconds, u64 id) pairs, so the first key in store order is the most urgent |
| Model.QueueKeyRawKey | src/model.rs:85-91 | `from_raw_key` copies the first 16 bytes: a key's own bytes decode to that key; a raw key decodes to k iff its first 16 bytes are k's; a shorter key panics |
| Model.EmailKeyRoundTrip | src/model.rs:42-51 | an address's key decodes back to the address; a raw key decodes to an address iff it is that address's UTF-8 bytes; a key that is not UTF-8 is an error |
| Model.InvalidUtf8IsError | src/model.rs:47-51 | a stray continuation byte (0x80), a byte that never occurs in UTF-8 (0xFF), an overlong sequence and an encoded surrogate each fail to decode |
| Model.WholeMillis | src/model.rs:137-140 | a time as a `serde_millis` field stores it: a whole number of milliseconds, at most the time and less than a millisecond below it, with the same millisecond count |
| Utf8.DecodeIffEncode | src/model.rs:42-51 | `from_utf8(b)` returns s exactly when b is `s.as_bytes()` |
| Bytes.FromBigEndianOfBigEndian | src/model.rs:31-40 | `from_be_bytes(to_be_bytes(v)) == v` for every v below 256^n |
| Bytes.LexLessIsNumericOrder | src/model.rs:100-103 | on sequences of equal length, lexicographic byte order is the order of their big-endian values |
| Store.CollectTokens | src/db.rs:47-55 | the user's tokens, in list order, are found iff every id in the list has a token record. The `expect` is the None case |
| Store.HoldsSession | src/db.rs:62-65 | true iff some token of the list holds the session string |
| Store.OldestIndex | src/db.rs:79-84 | `min_by_key` on `added`: the result has the least `added`, and every earlier position's `added` is strictly greater |
| Store.OldestIndexUnique | src/db.rs:79-84 | only one position can be the first minimum |
| Store.OldestIndexByMillis | src/db.rs:79-84 | on tokens read back from the store (whole-millisecond `added`), the result has the fewest milliseconds, and every earlier position has strictly more |
| Store.RemoveAt | src/db.rs:85 | `Vec::remove`: the list loses position i, and the other ids keep their order |
| Store.EpochKey | src/db.rs:101-105 | the new token's queue key decodes to (0 ms, new id) |
| StoreProofs.AddTokenKeepsConsistent | src/db.rs:34-131 | from a consistent store, `add_token` never panics; it either succeeds or leaves the store as it was, and the store stays consistent. Consistent means every token is queued exactly at (its deadline, its id), no queue entry is stray, user lists resolve to tokens they own with at most 3 ids and no repeated session, every token is listed, and every id was issued |
| StoreProofs.AddTokenSkipsHeldSession | src/db.rs:47-69 | the call returns Ok and writes nothing (no id, no eviction, user record untouched) iff this e-mail's list already holds the session string; the same string under another e-mail does not count |
| StoreProofs.AddTokenDanglingIdPanics | src/db.rs:47-55 | a listed id with no token record is the "invalid token set" panic, and nothing is written |
| StoreProofs.AddTokenIdsExhausted | src/db.rs:95 | for a new session, `generate_id` fails iff the generator has no u64 left, and then nothing is written |
| StoreProofs.AddTokenIssuesNextId | src/db.rs:71-124 | a new session gets the generator's next id, which had no token record. The token is (email, session, no csrf, epoch deadline, added = now truncated to whole milliseconds) under queue key (0 ms, id), with value the id; the key was absent before. The id is last in the list, and the list grows to at most 3 |
| StoreProofs.AddTokenWithRoom | src/db.rs:95-124 | below 3 tokens: the list gains the new id at its end, one token record (with `added` in whole milliseconds) and one queue entry are added, and nothing else changes |
| StoreProofs.OldestIndexIsFirstOldest | src/db.rs:79-84 | position i is what `min_by_key` picks iff it holds the least `added` and no earlier position is as old |
| StoreProofs.AddTokenEvictsOldest | src/db.rs:71-124 | at 3 tokens: exactly the first-oldest token is evicted. Its id leaves the list, the others keep their order and the new id is appended, so there are still 3. The evicted token's record and its queue entry at (its deadline, its id) were both present and are both deleted. The new record's `added` is now in whole milliseconds, so later evictions compare whole milliseconds |
| StoreProofs.AddTokenKeepsMillis | src/db.rs:102-116 | the new record is written with `added` in whole milliseconds, so every stored time stays a whole number of milliseconds |
| StoreProofs.AddTokenFrame | src/db.rs:38-124 | other users' records, tokens and queue entries are unchanged |
| StoreProofs.AddTokenNewUser | src/db.rs:39-124 | an unknown e-mail gets a user record holding just the new id, and only when the insert succeeds; otherwise no user is created |
| Db.Database.AddToken | src/db.rs:34-131 | the method's result and new state are those of the `add_token` transaction; it keeps the invariant and never panics on a consistent store |
| Db.Database.AddTokenTransaction | src/db.rs:38-127 | the imperative transaction body (lookup, resolve, dedupe, evict, generate, insert, commit) equals the transaction function; it writes nothing before it fails |
| Db.Database.InsertStage | src/db.rs:95-126 | the id generation, the asserted inserts and the commit of the user record equal the insert stage of the transaction |
| Db.Database.ResolveTokens | src/db.rs:47-55 | the loop over the user's ids returns the tokens in order, or None at the first missing one |
| Db.HoldsSessionScan | src/db.rs:62-65 | the loop returns true iff some token holds the session |
| Db.OldestPosition | src/db.rs:79-84 | the loop returns the first position with the least `added` |
| Db.Evict | src/db.rs:79-92 | removes the oldest id from the list, its token and its queue entry, panicking when either is absent |
| Db.Insert | src/db.rs:99-123 | appends the id and sets its token and its queue entry, panicking when either key was present |
| Upkeep.UpdateTokenAbsent | src/updater.rs:22 | extending a token that is gone changes nothing (src/db.rs has no code for it; modelled from how the cited call uses it, as one atomic transaction) |
| Upkeep.UpdateTokenMovesKey | src/updater.rs:22 | extending a stored token succeeds iff now + time_left fits the key, and the stored deadline is now + time_left truncated to whole milliseconds, and otherwise changes nothing. On success only that token's deadline changes; its entry now sits at the new key with its id, and the old key is gone when the millisecond count changed (src/db.rs has no code for it; modelled from how the cited call uses it, as one atomic transaction) |
| Upkeep.UpdateTokenKeepsConsistent | src/updater.rs:22 | extending keeps the invariant, and a failure leaves the store as it was (src/db.rs has no code for it; modelled from how the cited call uses it, as one atomic transaction) |
| Upkeep.UpdateTokenKeepsMillis | src/updater.rs:22 | the new deadline is stored in whole milliseconds, so every stored time stays a whole number of milliseconds (src/db.rs has no code for it; modelled from how the cited call uses it, as one atomic transaction) |
| Upkeep.RemoveTokenAbsent | src/updater.rs:27 | removing changes nothing iff the token is already gone (src/db.rs has no code for it; modelled from how the cited call uses it, as one atomic transaction) |
| Upkeep.RemoveTokenRemoves | src/updater.rs:27 | removing a stored token deletes its record, its queue entry and its id in its owner's list, and nothing else, and keeps the invariant (src/db.rs has no code for it; modelled from how the cited call uses it, as one atomic transaction) |
| Upkeep.RemoveTokenKeepsConsistent | src/updater.rs:27 | on a consistent store, removing always succeeds and keeps the invariant (src/db.rs has no code for it; modelled from how the cited call uses it, as one atomic transaction) |
| Upkeep.RemoveTokenKeepsMillis | src/updater.rs:27 | removing keeps every stored time a whole number of milliseconds (src/db.rs has no code for it; modelled from how the cited call uses it, as one atomic transaction) |
| Upkeep.MostUrgentIsMinimal | src/updater.rs:46 | on a consistent store, None iff there are no tokens; otherwise the token with the least (deadline in ms, id) pair (src/db.rs has no code for it; modelled from how the cited call uses it, as one atomic transaction) |
| Upkeep.QueueSizeIsTokenCount | src/updater.rs:45 | on a consistent store, the queue has exactly as many entries as there are tokens |
| Db.Database.UpdateToken | src/updater.rs:22 | the method is the update transaction and keeps the invariant (src/db.rs has no code for it; modelled from how the cited call uses it, as one atomic transaction) |
| Db.Database.UpdateTokenTransaction | src/updater.rs:22 | the imperative body equals the update transaction function (src/db.rs has no code for it; modelled from how the cited call uses it, as one atomic transaction) |
| Db.Database.RemoveToken | src/updater.rs:27 | the method is the remove transaction and keeps the invariant (src/db.rs has no code for it; modelled from how the cited call uses it, as one atomic transaction) |
| Db.Database.RemoveTokenTransaction | src/updater.rs:27 | the imperative body equals the remove transaction function (src/db.rs has no code for it; modelled from how the cited call uses it, as one atomic transaction) |
| Db.Database.MostUrgentToken | src/updater.rs:46 | the scan over the queue keys returns exactly the most urgent token (src/db.rs has no code for it; modelled from how the cited call uses it, as one atomic transaction) |
| Db.Database.TokenCount | src/updater.rs:45 | the number of stored tokens, which on a consistent store is also the queue's length (src/db.rs has no code for it; modelled from how the cited call uses it, as one atomic transaction) |
| Db.Database.Subscribe | src/main.rs:102 | returns a fresh watch whose cursor sits at the current end of the event log, so nothing is pending yet (src/db.rs has no code for it; modelled from how the cited call uses it) |
| Db.Watch.Poll | src/updater.rs:81 | a non-blocking poll: the next pending event, or None iff nothing is pending |
| Db.Watch.Drain | src/updater.rs:80-81 | the drain loop consumes every pending event in order and stops at the first poll that finds none; afterwards nothing is pending |
| Updater.TimeoutIsExact | src/updater.rs:62-66 | the timeout is zero when due; otherwise `duration_since` cannot fail, the timeout is deadline − (now + gap), and sleeping d makes the deadline due iff d exceeds the timeout |
| Updater.FallbackNeverDue | src/updater.rs:50-57 | with no token the fallback deadline is due iff gap > 1,000,000 s; otherwise the timeout is 1,000,000 s − gap |
| Updater.UpdateOne | src/updater.rs:13-36 | Ok{time_left} calls `update_token` and nothing else; SessionDead calls `remove_token` and nothing else; a transport error touches nothing and returns Ok; store errors propagate |
| Updater.UpdateOneKeepsConsistent | src/updater.rs:13-36 | every refresh outcome keeps the invariant; a transport error leaves the store as it was and returns Ok; a dead session is removed successfully |
| Updater.IterationPanicsIffEmpty | src/updater.rs:50-57 | the `token.unwrap()` panics iff the store has no token and gap > 1,000,000 s, so never for gap ≤ 1,000,000 s |
| Updater.IterationKeepsConsistent | src/updater.rs:44-57 | an iteration keeps the invariant whatever the refresh returned |
| Updater.IterationRefreshesIffDue | src/updater.rs:46-58 | in a non-empty store, the iteration looks at the most urgent token, the one token with the least (deadline in ms, id) pair: it is refreshed when its deadline < now + gap, and the store is untouched otherwise |
| Updater.UrgentIsUniqueLeast | src/updater.rs:46 | on a consistent non-empty store, the most urgent token is stored, comes no later than any other by (deadline in ms, id), and is the only token that does |
| Updater.TransportErrorRetries | src/updater.rs:30-57 | after a transport error the store is unchanged and the iteration succeeds; the same token is still the most urgent and is due at any later time |
| Updater.RefreshIfDue | src/updater.rs:46-58 | the lookup, the fallback deadline, the due test and the refresh have the effect of one iteration; the returned due flag and deadline are the ones the source computes |
| Updater.Iterate | src/updater.rs:44-82 | one loop body: the store effect of one iteration, with errors ending it. When it succeeds, the timeout is the computed one, and after the wait every pending watch event, including this iteration's own queue changes, has been drained |

## Left out

- `Database::new` and `Database::dump` (src/db.rs:19-31, 133-168) open the
  store and render it as text. They are I/O. The model starts from an empty
  store instead (`Db.Database.constructor`).
- The `Debug` impls (src/model.rs:12-17, 72-78) and the bincode value
  serialisation (src/model.rs:53-67) are left out, because they are formatting
  and a foreign serialiser.
- Transactions of the key-value store: conflicts, retries and I/O errors are
  not modelled. A transaction is one atomic step whose failure leaves the
  store unchanged. The `StoreFault` error exists, but no modelled operation
  produces it.
- `generate_id` is modelled as a counter that advances only when a
  transaction commits. The real generator may also advance on an aborted
  transaction. Either way, an id is never handed out twice. The
  `IdsExhausted` error once the counter reaches 2^64 is the model's own
  choice: src/db.rs returns no such error and only propagates what
  `generate_id` returns.
- `SystemTime::now()` is left out. Each call becomes a parameter: `now` in
  `AddToken` and `Iterate`, and `refreshedAt` for the time `update_token`
  reads.
- Overflow of `SystemTime` addition (`now + gap` and the fallback deadline) is
  not modelled, because times are unbounded naturals. Only the u64
  millisecond bound of the queue key is modelled.
- Concurrency is left out: the `select!` race between `sleep` and the watch
  (src/updater.rs:70-77), and the other tasks that write to the store while
  the loop sleeps. The wake-up is not modelled. The loop's sleep is only
  its computed timeout.
- `Updater.Iterate` models one body of the unbounded `loop`; the loop itself
  is not modelled, because it never ends.
- The logging (`info!`, `debug!`, `warn!`) is left out. An error from the
  `get_token_count` call at src/updater.rs:45 cannot happen in the model,
  because counting never fails.
- `Upkeep.MostUrgentOf` skips queue keys whose token is gone and takes the
  first key that has a token. On a consistent store there is no such key, and
  it is exactly the first key (`Upkeep.MostUrgentIsMinimal`). The store's
  first-key lookup is modelled as a scan over the key set.
- `Upkeep.UpdateTokenTx`, `Upkeep.RemoveTokenTx`, `Upkeep.MostUrgentOf` and
  `Db.Database.Subscribe` model operations that src/db.rs does not define (see
  above). Their contracts follow how src/updater.rs:22, 27, 45-46 and src/main.rs:102
  use each call. Each store call is one atomic transaction, and the
  subscription is a cursor at the end of the event log. No code of theirs is
  modelled.
- The refresh call (src/moodle.rs) is left out. It is an HTTP client with HTML
  scraping and a rate limiter, so its result is an input
  (`Updater.RefreshResult`).
- src/server.rs, src/main.rs, src/config.rs and the browser extension
  (webextension/) are left out. They are request mapping, bootstrap,
  configuration parsing and browser APIs.
