// The store as an object: the three buckets, the id generator and the log
// of update-queue changes that watchers read. Every method is one atomic
// transaction, tied to the function in Store or Upkeep that specifies it: a
// method that fails returns before it writes a field, so a failed
// transaction leaves the store as it was.

module Db {
  import opened Results
  import opened Bytes
  import opened Model
  import opened Store
  import opened StoreProofs
  import opened Upkeep

  class Database {
    var users: map<Email, User>
    var tokens: map<TokenId, Token>
    var updateQueue: map<QueueKey, UpdateQueueItem>
    /** The generator's next id (`generate_id`). */
    var nextId: nat
    /** Every change to the update queue, oldest first. */
    var events: seq<QueueEvent>

    function State(): Snapshot
      reads this
    {
      Snapshot(users, tokens, updateQueue, nextId, events)
    }

    /** The store's invariant, and every stored time in whole milliseconds. */
    ghost predicate Valid()
      reads this
    {
      Consistent(State()) && StoredInMillis(tokens)
    }

    /** An empty store. */
    constructor ()
      ensures State() == EmptyStore && Valid()
    {
      users, tokens, updateQueue, nextId, events := map[], map[], map[], 0, [];
      EmptyStoreConsistent();
    }

    /**
     * `add_token`: registers moodleSession for email at time now, evicting
     * the oldest of three tokens, unless the user already holds it.
     */
    method AddToken(email: Email, moodleSession: string, now: Time) returns (r: Outcome<()>)
      modifies this
      ensures Tx(r, State()) == AddTokenTx(old(State()), email, moodleSession, now)
      ensures old(Valid()) ==> Valid() && !r.Panic?
      ensures old(events) <= events
    {
      ghost var before := State();
      r := AddTokenTransaction(email, moodleSession, now);
      if Consistent(before) && StoredInMillis(before.tokens) {
        AddTokenKeepsConsistent(before, email, moodleSession, now);
        AddTokenKeepsMillis(before, email, moodleSession, now);
      }
    }

    /** The body of the `add_token` transaction; every failure returns before the first write. */
    method AddTokenTransaction(email: Email, moodleSession: string, now: Time) returns (r: Outcome<()>)
      modifies this
      ensures Tx(r, State()) == AddTokenTx(old(State()), email, moodleSession, now)
      ensures old(events) <= events
    {
      var user := if email in users then users[email] else User(email, []);
      var found := ResolveTokens(user.tokens);
      if found.None? {
        return Panic(InvalidTokenSet);
      }
      var userTokens := found.value;
      var held := HoldsSessionScan(userTokens, moodleSession);
      if held {
        return Ok(());
      }

      var pending := Pending(user.tokens, tokens, updateQueue, []);
      if |userTokens| >= MaxTokensPerUser {
        var evicted := Evict(pending, userTokens);
        if !evicted.Ok? {
          return Propagate(evicted);
        }
        pending := evicted.value;
      }
      r := InsertStage(email, user, pending, moodleSession, now);
    }

    /** Issues the next id, inserts the new token into pending and commits everything. */
    method InsertStage(email: Email, user: User, pending: Pending, moodleSession: string, now: Time) returns (r: Outcome<()>)
      modifies this
      ensures Tx(r, State()) == InsertStageTx(old(State()), email, user, pending, moodleSession, now)
      ensures old(events) <= events
    {
      if nextId >= U64Limit {
        return Err(IdsExhausted);
      }
      var newId := TokenIdFromU64(nextId);
      var inserted := Insert(pending, NewToken(email, moodleSession, now), newId);
      if !inserted.Ok? {
        return Propagate(inserted);
      }
      var p := inserted.value;
      users := users[email := user.(tokens := p.ids)];
      tokens := p.tokens;
      updateQueue := p.queue;
      nextId := nextId + 1;
      events := events + p.events;
      r := Ok(());
    }

    /** The tokens of ids, in order (`tokens.get(id)?.expect(..)` over the list), or None when one is missing. */
    method ResolveTokens(ids: seq<TokenId>) returns (r: Option<seq<Token>>)
      ensures r == CollectTokens(tokens, ids)
    {
      var ts: seq<Token> := [];
      var i := 0;
      while i < |ids|
        invariant i <= |ids|
        invariant forall j :: 0 <= j < i ==> ids[j] in tokens
        invariant |ts| == i && forall j :: 0 <= j < i ==> ts[j] == tokens[ids[j]]
      {
        if ids[i] !in tokens {
          return None;
        }
        ts := ts + [tokens[ids[i]]];
        i := i + 1;
      }
      assert ts == CollectTokens(tokens, ids).value;
      r := Some(ts);
    }

    /** `update_token`: token id's deadline becomes now + timeLeft, in whole milliseconds. */
    method UpdateToken(id: TokenId, timeLeft: Duration, now: Time) returns (r: Outcome<()>)
      modifies this
      ensures Tx(r, State()) == UpdateTokenTx(old(State()), id, timeLeft, now)
      ensures old(Valid()) ==> Valid()
      ensures old(events) <= events
    {
      ghost var before := State();
      r := UpdateTokenTransaction(id, timeLeft, now);
      if Consistent(before) && StoredInMillis(before.tokens) {
        UpdateTokenKeepsConsistent(before, id, timeLeft, now);
        UpdateTokenKeepsMillis(before, id, timeLeft, now);
      }
    }

    method UpdateTokenTransaction(id: TokenId, timeLeft: Duration, now: Time) returns (r: Outcome<()>)
      modifies this
      ensures Tx(r, State()) == UpdateTokenTx(old(State()), id, timeLeft, now)
      ensures old(events) <= events
    {
      if id !in tokens {
        return Ok(());
      }
      var token := tokens[id];
      var deadline := WholeMillis(now + timeLeft);
      var oldKey := QueueKeyFrom(token.deadline, id);
      if !oldKey.Ok? {
        return Propagate(oldKey);
      }
      var newKey := QueueKeyFrom(deadline, id);
      if !newKey.Ok? {
        return Propagate(newKey);
      }
      updateQueue := (updateQueue - {oldKey.value})[newKey.value := UpdateQueueItem(id)];
      tokens := tokens[id := token.(deadline := deadline)];
      events := events + [QueueEvent.Removed(oldKey.value), QueueEvent.Inserted(newKey.value, UpdateQueueItem(id))];
      r := Ok(());
    }

    /** `remove_token`: token id, its queue entry and its place in its owner's list go. */
    method RemoveToken(id: TokenId) returns (r: Outcome<()>)
      modifies this
      ensures Tx(r, State()) == RemoveTokenTx(old(State()), id)
      ensures old(Valid()) ==> Valid()
      ensures old(events) <= events
    {
      ghost var before := State();
      r := RemoveTokenTransaction(id);
      if Consistent(before) && StoredInMillis(before.tokens) {
        RemoveTokenKeepsConsistent(before, id);
        RemoveTokenKeepsMillis(before, id);
      }
    }

    method RemoveTokenTransaction(id: TokenId) returns (r: Outcome<()>)
      modifies this
      ensures Tx(r, State()) == RemoveTokenTx(old(State()), id)
      ensures old(events) <= events
    {
      if id !in tokens {
        return Ok(());
      }
      var owner := tokens[id].owner;
      var key := QueueKeyFrom(tokens[id].deadline, id);
      if !key.Ok? {
        return Propagate(key);
      }
      if owner in users {
        users := users[owner := users[owner].(tokens := Without(users[owner].tokens, id))];
      }
      tokens := tokens - {id};
      updateQueue := updateQueue - {key.value};
      events := events + [QueueEvent.Removed(key.value)];
      r := Ok(());
    }

    /**
     * `get_most_urgent_token`: the token of the first key in byte order
     * whose token is stored, or None.
     */
    method MostUrgentToken() returns (r: Option<(TokenId, Token)>)
      ensures r == MostUrgentOf(State())
    {
      var rest := updateQueue.Keys;
      var best: Option<QueueKey> := None;
      while rest != {}
        invariant rest <= updateQueue.Keys
        invariant best.Some? ==> Live(State(), best.value)
        invariant best.Some? ==> forall k :: Live(State(), k) && k !in rest ==> !LexLess(k.bytes, best.value.bytes)
        invariant best.None? ==> forall k :: Live(State(), k) ==> k in rest
        decreases |rest|
      {
        var k :| k in rest;
        rest := rest - {k};
        if KeyTokenId(k) in tokens && (best.None? || LexLess(k.bytes, best.value.bytes)) {
          if best.Some? {
            var b := best.value;
            forall k' | Live(State(), k') && k' !in rest
              ensures !LexLess(k'.bytes, k.bytes)
            {
              LexLessTotal(k.bytes, k.bytes);
              if k' != k && LexLess(k'.bytes, k.bytes) {
                LexLessTransitive(k'.bytes, k.bytes, b.bytes);
              }
            }
          } else {
            LexLessTotal(k.bytes, k.bytes);
          }
          best := Some(k);
        }
      }
      if best.None? {
        return None;
      }
      var k := best.value;
      assert IsFirstLiveKey(State(), k);
      ghost var m := MostUrgentOf(State());
      ghost var k' :| IsFirstLiveKey(State(), k') && m.value == (KeyTokenId(k'), tokens[KeyTokenId(k')]);
      FirstLiveKeyUnique(State(), k, k');
      r := Some((KeyTokenId(k), tokens[KeyTokenId(k)]));
    }

    /** `get_token_count`: the number of stored tokens, which is also the queue's length. */
    method TokenCount() returns (n: nat)
      ensures n == |tokens|
      ensures Valid() ==> n == |updateQueue|
    {
      n := |tokens|;
      if Valid() {
        QueueSizeIsTokenCount(State());
      }
    }

    /** `subscribe_queue_updates`: a watch that sees the queue changes made from now on. */
    method Subscribe() returns (w: Watch)
      ensures fresh(w) && w.db == this && w.Valid() && w.Pending() == []
    {
      w := new Watch(this);
    }
  }

  /** A subscription to the update queue: a cursor into the store's event log. */
  class Watch {
    const db: Database
    var seen: nat

    ghost predicate Valid()
      reads this, db
    {
      seen <= |db.events|
    }

    /** The events published since the last one this watch consumed. */
    function Pending(): seq<QueueEvent>
      reads this, db
      requires Valid()
    {
      db.events[seen..]
    }

    constructor (db: Database)
      ensures this.db == db && Valid() && Pending() == []
    {
      this.db := db;
      seen := |db.events|;
    }

    /** A non-blocking poll: the next pending event, or None when there is none yet. */
    method Poll() returns (r: Option<QueueEvent>)
      requires Valid()
      modifies this
      ensures Valid()
      ensures old(Pending()) == [] ==> r.None? && Pending() == []
      ensures old(Pending()) != [] ==> r == Some(old(Pending())[0]) && Pending() == old(Pending())[1..]
    {
      if seen == |db.events| {
        return None;
      }
      r := Some(db.events[seen]);
      seen := seen + 1;
    }

    /** Consumes every event already pending and stops at the first poll that finds none. */
    method Drain() returns (drained: seq<QueueEvent>)
      requires Valid()
      modifies this
      ensures Valid() && Pending() == [] && drained == old(Pending())
    {
      drained := [];
      var more := true;
      while more
        invariant Valid()
        invariant drained + Pending() == old(Pending())
        invariant !more ==> Pending() == []
        decreases |db.events| - seen, more
      {
        var e := Poll();
        match e
        case None => more := false;
        case Some(ev) => drained := drained + [ev];
      }
    }
  }

  /** Whether one of ts holds session (the `any`). */
  method HoldsSessionScan(ts: seq<Token>, session: string) returns (held: bool)
    ensures held == HoldsSession(ts, session)
  {
    var i := 0;
    while i < |ts|
      invariant i <= |ts|
      invariant forall j :: 0 <= j < i ==> ts[j].moodleSession != session
    {
      if ts[i].moodleSession == session {
        return true;
      }
      i := i + 1;
    }
    held := false;
  }

  /** The position of the first token with the least `added` (`min_by_key`). */
  method OldestPosition(ts: seq<Token>) returns (oldest: nat)
    requires |ts| > 0
    ensures oldest == OldestIndex(ts)
  {
    oldest := 0;
    var k := 1;
    while k < |ts|
      invariant oldest < k <= |ts|
      invariant forall j :: 0 <= j < k ==> ts[oldest].added <= ts[j].added
      invariant forall j :: 0 <= j < oldest ==> ts[j].added > ts[oldest].added
    {
      if ts[k].added < ts[oldest].added {
        oldest := k;
      }
      k := k + 1;
    }
    OldestIndexUnique(ts, oldest);
  }

  /**
   * Drops the first oldest of the user's tokens from the open transaction:
   * its id from the list, its record and its queue entry, both of which must
   * be there.
   */
  method Evict(p: Pending, ts: seq<Token>) returns (r: Outcome<Pending>)
    requires 0 < |ts| == |p.ids|
    ensures r == EvictOldest(p, ts)
  {
    var oldest := OldestPosition(ts);
    var ids := p.ids;
    var rmToken := ids[oldest];
    ids := ids[..oldest] + ids[oldest + 1..];
    var key := QueueKeyFrom(ts[oldest].deadline, rmToken);
    if !key.Ok? {
      return Propagate(key);
    }
    var tokens := p.tokens;
    if rmToken !in tokens {
      return Panic(EvictedTokenMissing);
    }
    tokens := tokens - {rmToken};
    var queue := p.queue;
    if key.value !in queue {
      return Panic(EvictedEntryMissing);
    }
    queue := queue - {key.value};
    r := Ok(Pending(ids, tokens, queue, p.events + [QueueEvent.Removed(key.value)]));
  }

  /**
   * Adds token under the new id to the open transaction: appends the id,
   * writes the record and the epoch queue entry, neither of which may
   * exist yet.
   */
  method Insert(p: Pending, token: Token, id: TokenId) returns (r: Outcome<Pending>)
    ensures r == InsertNew(p, token, id)
  {
    var ids := p.ids + [id];
    var key := EpochKey(id);
    if id in p.tokens {
      return Panic(TokenIdTaken);
    }
    var tokens := p.tokens[id := token];
    if key in p.queue {
      return Panic(QueueKeyTaken);
    }
    var queue := p.queue[key := UpdateQueueItem(id)];
    r := Ok(Pending(ids, tokens, queue, p.events + [QueueEvent.Inserted(key, UpdateQueueItem(id))]));
  }
}
