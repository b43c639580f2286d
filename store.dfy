/**
 * The three buckets of the store (users, tokens, update queue) as one
 * value, the invariant that links them, and each transaction as a function
 * from the state before to its outcome and the state after. A transaction
 * that fails (an error or a panic) commits nothing.
 */
module Store {
  import opened Results
  import opened Bytes
  import opened Model

  const MaxTokensPerUser: nat := 3

  /** What a watch on the update-queue bucket reports. */
  datatype QueueEvent = Inserted(key: QueueKey, item: UpdateQueueItem) | Removed(key: QueueKey)

  /**
   * The committed state: the `users`, `tokens` and `update_queue` buckets,
   * the id generator's next value, and the log of update-queue events.
   */
  datatype Snapshot = Snapshot(
    users: map<Email, User>,
    tokens: map<TokenId, Token>,
    queue: map<QueueKey, UpdateQueueItem>,
    nextId: nat,
    events: seq<QueueEvent>)

  /** A transaction's result and the state it leaves. */
  datatype Tx = Tx(result: Outcome<()>, after: Snapshot)

  const EmptyStore := Snapshot(map[], map[], map[], 0, [])

  // ---------------------------------------------------------------------
  // The invariant
  // ---------------------------------------------------------------------

  /** The update-queue key of token `id`: (its deadline, its id). */
  function KeyOf(tokens: map<TokenId, Token>, id: TokenId): Outcome<QueueKey>
    requires id in tokens
  {
    QueueKeyFrom(tokens[id].deadline, id)
  }

  /** Every token has a queue entry at (its deadline, its id) whose value is its id. */
  ghost predicate EveryTokenQueued(s: Snapshot)
  {
    forall id :: id in s.tokens ==>
      KeyOf(s.tokens, id).Ok? &&
      KeyOf(s.tokens, id).value in s.queue &&
      s.queue[KeyOf(s.tokens, id).value] == UpdateQueueItem(id)
  }

  /** Every queue entry belongs to a token and sits at that token's key. */
  ghost predicate NoStrayEntries(s: Snapshot)
  {
    forall k :: k in s.queue ==>
      s.queue[k].token in s.tokens && KeyOf(s.tokens, s.queue[k].token) == Ok(k)
  }

  /**
   * A user record stored under e: its ids resolve to tokens owned by e, at
   * most MaxTokensPerUser of them, no two holding the same session.
   */
  ghost predicate UserWellFormed(tokens: map<TokenId, Token>, e: Email, u: User)
  {
    && u.email == e
    && |u.tokens| <= MaxTokensPerUser
    && (forall i :: 0 <= i < |u.tokens| ==> u.tokens[i] in tokens && tokens[u.tokens[i]].owner == e)
    && (forall i, j :: 0 <= i < j < |u.tokens| ==>
          tokens[u.tokens[i]].moodleSession != tokens[u.tokens[j]].moodleSession)
  }

  ghost predicate UsersWellFormed(s: Snapshot)
  {
    forall e :: e in s.users ==> UserWellFormed(s.tokens, e, s.users[e])
  }

  /** Every token appears in its owner's list. */
  ghost predicate EveryTokenListed(s: Snapshot)
  {
    forall id :: id in s.tokens ==>
      s.tokens[id].owner in s.users && id in s.users[s.tokens[id].owner].tokens
  }

  /** Every stored id was issued before the generator's next value, so no id is reused. */
  ghost predicate IdsIssued(s: Snapshot)
  {
    s.nextId <= U64Limit && forall id :: id in s.tokens ==> U64FromTokenId(id) < s.nextId
  }

  ghost predicate Consistent(s: Snapshot)
  {
    && EveryTokenQueued(s)
    && NoStrayEntries(s)
    && UsersWellFormed(s)
    && EveryTokenListed(s)
    && IdsIssued(s)
  }

  lemma EmptyStoreConsistent()
    ensures Consistent(EmptyStore)
  {
  }

  /** A well-formed list holds no id twice. */
  lemma ListedIdsDistinct(s: Snapshot, e: Email, i: nat, j: nat)
    requires UsersWellFormed(s) && e in s.users
    requires i < j < |s.users[e].tokens|
    ensures s.users[e].tokens[i] != s.users[e].tokens[j]
  {
    assert UserWellFormed(s.tokens, e, s.users[e]);
  }

  // ---------------------------------------------------------------------
  // The scans of `add_token`
  // ---------------------------------------------------------------------

  /** The tokens of a list of ids, or None when some id has no token (the `expect`). */
  function CollectTokens(tokens: map<TokenId, Token>, ids: seq<TokenId>): (r: Option<seq<Token>>)
    ensures r.Some? <==> forall i :: 0 <= i < |ids| ==> ids[i] in tokens
    ensures r.Some? ==> |r.value| == |ids| && forall i :: 0 <= i < |ids| ==> r.value[i] == tokens[ids[i]]
  {
    if ids == [] then Some([])
    else if ids[0] !in tokens then None
    else
      match CollectTokens(tokens, ids[1..])
      case None => None
      case Some(rest) => Some([tokens[ids[0]]] + rest)
  }

  /** Whether some token holds the session string (the `any`). */
  function HoldsSession(ts: seq<Token>, session: string): (r: bool)
    ensures r <==> exists i :: 0 <= i < |ts| && ts[i].moodleSession == session
  {
    |ts| > 0 && (ts[0].moodleSession == session || HoldsSession(ts[1..], session))
  }

  /**
   * The position of the oldest token by `added`, the first one on a tie
   * (`min_by_key`).
   */
  function OldestIndex(ts: seq<Token>): (i: nat)
    requires |ts| > 0
    ensures i < |ts|
    ensures forall j :: 0 <= j < |ts| ==> ts[i].added <= ts[j].added
    ensures forall j :: 0 <= j < i ==> ts[j].added > ts[i].added
  {
    if |ts| == 1 then 0
    else
      var k := OldestIndex(ts[..|ts| - 1]);
      if ts[|ts| - 1].added < ts[k].added then |ts| - 1 else k
  }

  /** Only the first oldest position has both properties of OldestIndex. */
  lemma OldestIndexUnique(ts: seq<Token>, i: nat)
    requires i < |ts|
    requires forall j :: 0 <= j < |ts| ==> ts[i].added <= ts[j].added
    requires forall j :: 0 <= j < i ==> ts[j].added > ts[i].added
    ensures i == OldestIndex(ts)
  {
    var k := OldestIndex(ts);
    assert ts[k].added <= ts[i].added && ts[i].added <= ts[k].added;
  }

  /**
   * Every stored time is a whole number of milliseconds: both times of a
   * token record are `serde_millis` fields, so a record read back from the
   * store holds nothing finer.
   */
  ghost predicate StoredInMillis(tokens: map<TokenId, Token>)
  {
    forall id :: id in tokens ==> tokens[id].added % NanosPerMilli == 0 && tokens[id].deadline % NanosPerMilli == 0
  }

  /** Between whole-millisecond times, the order is the order of their milliseconds. */
  lemma WholeMillisLess(a: Time, b: Time)
    requires a % NanosPerMilli == 0 && b % NanosPerMilli == 0
    ensures a < b <==> Millis(a) < Millis(b)
  {
    assert a == Millis(a) * NanosPerMilli && b == Millis(b) * NanosPerMilli;
  }

  /**
   * On records read back from the store, OldestIndex is the first position
   * with the fewest milliseconds in `added`: ties are on whole milliseconds,
   * as `min_by_key` sees them.
   */
  lemma OldestIndexByMillis(ts: seq<Token>)
    requires |ts| > 0
    requires forall j :: 0 <= j < |ts| ==> ts[j].added % NanosPerMilli == 0
    ensures var i := OldestIndex(ts);
            && (forall j :: 0 <= j < |ts| ==> Millis(ts[i].added) <= Millis(ts[j].added))
            && (forall j :: 0 <= j < i ==> Millis(ts[j].added) > Millis(ts[i].added))
  {
    var i := OldestIndex(ts);
    forall j | 0 <= j < |ts|
      ensures Millis(ts[i].added) <= Millis(ts[j].added)
      ensures j < i ==> Millis(ts[j].added) > Millis(ts[i].added)
    {
      WholeMillisLess(ts[j].added, ts[i].added);
    }
  }

  /** The list with position i taken out (`Vec::remove`). */
  function RemoveAt<T>(s: seq<T>, i: nat): (r: seq<T>)
    requires i < |s|
    ensures |r| == |s| - 1
    ensures forall j :: 0 <= j < i ==> r[j] == s[j]
    ensures forall j :: i <= j < |r| ==> r[j] == s[j + 1]
  {
    s[..i] + s[i + 1..]
  }

  /** The list with every occurrence of x taken out. */
  function Without(s: seq<TokenId>, x: TokenId): (r: seq<TokenId>)
    ensures forall y :: y in r <==> y in s && y != x
  {
    if s == [] then []
    else if s[0] == x then Without(s[1..], x)
    else [s[0]] + Without(s[1..], x)
  }

  // ---------------------------------------------------------------------
  // `Database::add_token`
  // ---------------------------------------------------------------------

  /** The user stored under email, or a new one with no tokens. */
  function UserOrNew(users: map<Email, User>, email: Email): User
  {
    if email in users then users[email] else User(email, [])
  }

  /**
   * The token `add_token` creates, as the store keeps it: no csrf session
   * yet, deadline at the epoch, and `added` in whole milliseconds.
   */
  function NewToken(email: Email, session: string, now: Time): Token
  {
    Token(email, session, None, UnixEpoch, WholeMillis(now))
  }

  /** The queue key of a token whose deadline is the epoch. */
  function EpochKey(id: TokenId): (k: QueueKey)
    ensures QueueKeyParts(k) == (0, id)
  {
    QueueKeyFrom(UnixEpoch, id).value
  }

  /** The writes of an open transaction: the user's ids, the two buckets, the queue events. */
  datatype Pending = Pending(
    ids: seq<TokenId>,
    tokens: map<TokenId, Token>,
    queue: map<QueueKey, UpdateQueueItem>,
    events: seq<QueueEvent>)

  /** Drops the oldest of the user's tokens, its record and its queue entry. */
  function EvictOldest(p: Pending, ts: seq<Token>): Outcome<Pending>
    requires 0 < |ts| == |p.ids|
  {
    var i := OldestIndex(ts);
    var rm := p.ids[i];
    var key := QueueKeyFrom(ts[i].deadline, rm);
    if !key.Ok? then Propagate(key)
    else if rm !in p.tokens then Panic(EvictedTokenMissing)
    else if key.value !in p.queue then Panic(EvictedEntryMissing)
    else Ok(Pending(RemoveAt(p.ids, i), p.tokens - {rm}, p.queue - {key.value}, p.events + [Removed(key.value)]))
  }

  /** Appends the new id and writes its token and its queue entry, both asserted new. */
  function InsertNew(p: Pending, token: Token, id: TokenId): Outcome<Pending>
  {
    var key := EpochKey(id);
    if id in p.tokens then Panic(TokenIdTaken)
    else if key in p.queue then Panic(QueueKeyTaken)
    else
      Ok(Pending(
        p.ids + [id],
        p.tokens[id := token],
        p.queue[key := UpdateQueueItem(id)],
        p.events + [Inserted(key, UpdateQueueItem(id))]))
  }

  /** Whether a token in email's list holds the session string. */
  ghost predicate HoldsSessionFor(s: Snapshot, email: Email, session: string)
  {
    email in s.users &&
    exists i :: 0 <= i < |s.users[email].tokens| && s.users[email].tokens[i] in s.tokens &&
      s.tokens[s.users[email].tokens[i]].moodleSession == session
  }

  /** Position i of ids holds the oldest token by `added`, and no earlier position is as old. */
  ghost predicate IsFirstOldest(tokens: map<TokenId, Token>, ids: seq<TokenId>, i: nat)
  {
    && i < |ids|
    && (forall j :: 0 <= j < |ids| ==> ids[j] in tokens)
    && (forall j :: 0 <= j < |ids| ==> tokens[ids[i]].added <= tokens[ids[j]].added)
    && (forall j :: 0 <= j < i ==> tokens[ids[j]].added > tokens[ids[i]].added)
  }

  /** The whole `add_token` transaction. */
  function AddTokenTx(s: Snapshot, email: Email, session: string, now: Time): Tx
  {
    var user := UserOrNew(s.users, email);
    match CollectTokens(s.tokens, user.tokens)
    case None => Tx(Panic(InvalidTokenSet), s)
    case Some(ts) =>
      if HoldsSession(ts, session) then Tx(Ok(()), s)
      else
        var start := Pending(user.tokens, s.tokens, s.queue, []);
        var evicted := if |ts| >= MaxTokensPerUser then EvictOldest(start, ts) else Ok(start);
        if !evicted.Ok? then Tx(Propagate(evicted), s)
        else InsertStageTx(s, email, user, evicted.value, session, now)
  }

  /** The rest of `add_token` once there is room: a fresh id, the insertion and the commit. */
  function InsertStageTx(s: Snapshot, email: Email, user: User, p: Pending, session: string, now: Time): Tx
  {
    if s.nextId >= U64Limit then Tx(Err(IdsExhausted), s)
    else
      var id := TokenIdFromU64(s.nextId);
      var inserted := InsertNew(p, NewToken(email, session, now), id);
      if !inserted.Ok? then Tx(Propagate(inserted), s)
      else
        var q := inserted.value;
        Tx(Ok(()), Snapshot(
          s.users[email := user.(tokens := q.ids)],
          q.tokens,
          q.queue,
          s.nextId + 1,
          s.events + q.events))
  }
}

module StoreProofs {
  import opened Results
  import opened Bytes
  import opened Model
  import opened Store

  /** s with the i-th id of email's list gone: its token record, its queue entry and its list position. */
  function AfterEviction(s: Snapshot, email: Email, i: nat): Snapshot
    requires email in s.users && i < |s.users[email].tokens|
    requires s.users[email].tokens[i] in s.tokens
    requires KeyOf(s.tokens, s.users[email].tokens[i]).Ok?
  {
    var u := s.users[email];
    var rm := u.tokens[i];
    s.(users := s.users[email := u.(tokens := RemoveAt(u.tokens, i))],
       tokens := s.tokens - {rm},
       queue := s.queue - {KeyOf(s.tokens, rm).value})
  }

  /** s with token id issued by the generator, appended to email's list and queued at the epoch. */
  function AfterInsertion(s: Snapshot, email: Email, token: Token, id: TokenId): Snapshot
  {
    var u := UserOrNew(s.users, email);
    s.(users := s.users[email := u.(tokens := u.tokens + [id])],
       tokens := s.tokens[id := token],
       queue := s.queue[EpochKey(id) := UpdateQueueItem(id)],
       nextId := s.nextId + 1)
  }

  lemma InRemoveAt(l: seq<TokenId>, i: nat, x: TokenId)
    requires i < |l| && x in l && x != l[i]
    ensures x in RemoveAt(l, i)
  {
    var j :| 0 <= j < |l| && l[j] == x;
    if j < i {
      assert RemoveAt(l, i)[j] == x;
    } else {
      assert RemoveAt(l, i)[j - 1] == x;
    }
  }

  /** Distinct ids have distinct queue keys. */
  lemma KeysOfDistinctIds(t1: Duration, id1: TokenId, t2: Duration, id2: TokenId)
    requires id1 != id2 && QueueKeyFrom(t1, id1).Ok? && QueueKeyFrom(t2, id2).Ok?
    ensures QueueKeyFrom(t1, id1).value != QueueKeyFrom(t2, id2).value
  {
  }

  lemma EvictedConsistent(s: Snapshot, email: Email, i: nat)
    requires Consistent(s) && email in s.users && i < |s.users[email].tokens|
    ensures s.users[email].tokens[i] in s.tokens && KeyOf(s.tokens, s.users[email].tokens[i]).Ok?
    ensures Consistent(AfterEviction(s, email, i))
  {
    assert UserWellFormed(s.tokens, email, s.users[email]);
    EvictedQueue(s, email, i);
    EvictedUsers(s, email, i);
    EvictedListed(s, email, i);
  }

  lemma EvictedQueue(s: Snapshot, email: Email, i: nat)
    requires EveryTokenQueued(s) && NoStrayEntries(s)
    requires email in s.users && i < |s.users[email].tokens|
    requires s.users[email].tokens[i] in s.tokens
    ensures KeyOf(s.tokens, s.users[email].tokens[i]).Ok?
    ensures EveryTokenQueued(AfterEviction(s, email, i)) && NoStrayEntries(AfterEviction(s, email, i))
  {
    var rm := s.users[email].tokens[i];
    var s' := AfterEviction(s, email, i);
    forall id | id in s'.tokens
      ensures KeyOf(s'.tokens, id).Ok? && KeyOf(s'.tokens, id).value in s'.queue
      ensures s'.queue[KeyOf(s'.tokens, id).value] == UpdateQueueItem(id)
    {
      assert s'.tokens[id] == s.tokens[id];
      KeysOfDistinctIds(s.tokens[id].deadline, id, s.tokens[rm].deadline, rm);
    }
    forall k | k in s'.queue
      ensures s'.queue[k].token in s'.tokens && KeyOf(s'.tokens, s'.queue[k].token) == Ok(k)
    {
      assert s'.queue[k] == s.queue[k];
    }
  }

  lemma EvictedUsers(s: Snapshot, email: Email, i: nat)
    requires UsersWellFormed(s) && email in s.users && i < |s.users[email].tokens|
    requires s.users[email].tokens[i] in s.tokens && KeyOf(s.tokens, s.users[email].tokens[i]).Ok?
    ensures UsersWellFormed(AfterEviction(s, email, i))
  {
    var u := s.users[email];
    assert UserWellFormed(s.tokens, email, u);
    var rm := u.tokens[i];
    var s' := AfterEviction(s, email, i);
    var l' := RemoveAt(u.tokens, i);
    forall j | 0 <= j < |l'| ensures l'[j] != rm {
      if j < i { ListedIdsDistinct(s, email, j, i); } else { ListedIdsDistinct(s, email, i, j + 1); }
    }
    forall e | e in s'.users ensures UserWellFormed(s'.tokens, e, s'.users[e]) {
      assert UserWellFormed(s.tokens, e, s.users[e]);
      if e != email {
        forall j | 0 <= j < |s.users[e].tokens| ensures s.users[e].tokens[j] != rm {
        }
      } else {
        forall a, b | 0 <= a < b < |l'|
          ensures s'.tokens[l'[a]].moodleSession != s'.tokens[l'[b]].moodleSession
        {
          var a0 := if a < i then a else a + 1;
          var b0 := if b < i then b else b + 1;
          assert l'[a] == u.tokens[a0] && l'[b] == u.tokens[b0];
        }
      }
    }
  }

  lemma EvictedListed(s: Snapshot, email: Email, i: nat)
    requires EveryTokenListed(s) && UsersWellFormed(s) && email in s.users && i < |s.users[email].tokens|
    requires s.users[email].tokens[i] in s.tokens && KeyOf(s.tokens, s.users[email].tokens[i]).Ok?
    ensures EveryTokenListed(AfterEviction(s, email, i))
  {
    var u := s.users[email];
    var s' := AfterEviction(s, email, i);
    forall id | id in s'.tokens
      ensures s'.tokens[id].owner in s'.users && id in s'.users[s'.tokens[id].owner].tokens
    {
      if s.tokens[id].owner == email {
        InRemoveAt(u.tokens, i, id);
      }
    }
  }

  /** The user's list has room and none of its tokens holds the session. */
  ghost predicate RoomFor(s: Snapshot, email: Email, session: string)
  {
    email in s.users ==>
      && |s.users[email].tokens| < MaxTokensPerUser
      && forall j :: 0 <= j < |s.users[email].tokens| && s.users[email].tokens[j] in s.tokens ==>
           s.tokens[s.users[email].tokens[j]].moodleSession != session
  }

  /** What insertion asks of the state: the generator's next id, room in the list, a new session. */
  ghost predicate CanInsert(s: Snapshot, email: Email, token: Token, id: TokenId)
  {
    && token.owner == email && token.deadline == UnixEpoch
    && s.nextId < U64Limit && id == TokenIdFromU64(s.nextId)
    && RoomFor(s, email, token.moodleSession)
  }

  lemma FreshIdAndKey(s: Snapshot, id: TokenId)
    requires IdsIssued(s) && NoStrayEntries(s) && s.nextId < U64Limit && id == TokenIdFromU64(s.nextId)
    ensures id !in s.tokens && EpochKey(id) !in s.queue
  {
    U64RoundTrip(s.nextId);
  }

  lemma InsertedConsistent(s: Snapshot, email: Email, token: Token, id: TokenId)
    requires Consistent(s) && CanInsert(s, email, token, id)
    ensures id !in s.tokens && EpochKey(id) !in s.queue
    ensures Consistent(AfterInsertion(s, email, token, id))
  {
    FreshIdAndKey(s, id);
    InsertedQueue(s, email, token, id);
    InsertedUsers(s, email, token, id);
    InsertedListed(s, email, token, id);
    U64RoundTrip(s.nextId);
  }

  lemma InsertedQueue(s: Snapshot, email: Email, token: Token, id: TokenId)
    requires EveryTokenQueued(s) && NoStrayEntries(s) && token.deadline == UnixEpoch
    requires id !in s.tokens && EpochKey(id) !in s.queue
    ensures EveryTokenQueued(AfterInsertion(s, email, token, id)) && NoStrayEntries(AfterInsertion(s, email, token, id))
  {
    InsertedQueued(s, email, token, id);
    InsertedNoStray(s, email, token, id);
  }

  lemma InsertedQueued(s: Snapshot, email: Email, token: Token, id: TokenId)
    requires EveryTokenQueued(s) && token.deadline == UnixEpoch
    requires id !in s.tokens
    ensures EveryTokenQueued(AfterInsertion(s, email, token, id))
  {
    var s' := AfterInsertion(s, email, token, id);
    var key := EpochKey(id);
    forall x | x in s'.tokens
      ensures KeyOf(s'.tokens, x).Ok? && KeyOf(s'.tokens, x).value in s'.queue
      ensures s'.queue[KeyOf(s'.tokens, x).value] == UpdateQueueItem(x)
    {
      if x != id {
        assert s'.tokens[x] == s.tokens[x];
        KeysOfDistinctIds(s.tokens[x].deadline, x, UnixEpoch, id);
      } else {
        assert KeyOf(s'.tokens, x) == Ok(key);
      }
    }
  }

  lemma InsertedNoStray(s: Snapshot, email: Email, token: Token, id: TokenId)
    requires NoStrayEntries(s) && token.deadline == UnixEpoch
    requires id !in s.tokens
    ensures NoStrayEntries(AfterInsertion(s, email, token, id))
  {
    var s' := AfterInsertion(s, email, token, id);
    var key := EpochKey(id);
    forall k | k in s'.queue
      ensures s'.queue[k].token in s'.tokens && KeyOf(s'.tokens, s'.queue[k].token) == Ok(k)
    {
      if k != key {
        var x := s.queue[k].token;
        assert s'.queue[k] == s.queue[k];
        assert s'.tokens[x] == s.tokens[x];
      } else {
        assert s'.queue[k].token == id;
        assert KeyOf(s'.tokens, id) == Ok(key);
      }
    }
  }

  lemma InsertedUsers(s: Snapshot, email: Email, token: Token, id: TokenId)
    requires UsersWellFormed(s) && token.owner == email && RoomFor(s, email, token.moodleSession)
    requires id !in s.tokens
    ensures UsersWellFormed(AfterInsertion(s, email, token, id))
  {
    var s' := AfterInsertion(s, email, token, id);
    forall e | e in s'.users ensures UserWellFormed(s'.tokens, e, s'.users[e]) {
      if e != email || email in s.users {
        assert UserWellFormed(s.tokens, e, s.users[e]);
      }
    }
  }

  lemma InsertedListed(s: Snapshot, email: Email, token: Token, id: TokenId)
    requires EveryTokenListed(s) && token.owner == email
    ensures EveryTokenListed(AfterInsertion(s, email, token, id))
  {
    var s' := AfterInsertion(s, email, token, id);
    var u := UserOrNew(s.users, email);
    forall x | x in s'.tokens
      ensures s'.tokens[x].owner in s'.users && x in s'.users[s'.tokens[x].owner].tokens
    {
      if x != id && s.tokens[x].owner == email {
        assert x in u.tokens;
      }
    }
  }

  // ---------------------------------------------------------------------
  // What `add_token` commits
  // ---------------------------------------------------------------------

  /** OldestIndex picks exactly the first oldest position. */
  lemma OldestIndexIsFirstOldest(tokens: map<TokenId, Token>, ids: seq<TokenId>, i: nat)
    requires CollectTokens(tokens, ids).Some? && |ids| > 0
    ensures IsFirstOldest(tokens, ids, i) <==> i == OldestIndex(CollectTokens(tokens, ids).value)
  {
    var ts := CollectTokens(tokens, ids).value;
    if IsFirstOldest(tokens, ids, i) {
      OldestIndexUnique(ts, i);
    }
  }

  /** The events add_token publishes when it inserts. */
  function InsertEvents(id: TokenId): seq<QueueEvent>
  {
    [QueueEvent.Inserted(EpochKey(id), UpdateQueueItem(id))]
  }

  /** email's list: at most the cap, every id resolving to a token of email. */
  ghost predicate ListFacts(s: Snapshot, email: Email)
  {
    var l := UserOrNew(s.users, email).tokens;
    && UserOrNew(s.users, email).email == email
    && |l| <= MaxTokensPerUser
    && (forall j :: 0 <= j < |l| ==> l[j] in s.tokens && s.tokens[l[j]].owner == email)
  }

  /** At the cap, the first oldest of email's tokens is queued under its key. */
  ghost predicate OldestQueued(s: Snapshot, email: Email)
    requires ListFacts(s, email)
  {
    var l := UserOrNew(s.users, email).tokens;
    |l| >= MaxTokensPerUser ==>
      && email in s.users
      && var i := OldestIndex(CollectTokens(s.tokens, l).value);
      && KeyOf(s.tokens, l[i]).Ok?
      && KeyOf(s.tokens, l[i]).value in s.queue
      && s.queue[KeyOf(s.tokens, l[i]).value] == UpdateQueueItem(l[i])
  }

  /** The generator still has ids, or has just run out; the one it yields next is unused. */
  ghost predicate NextIdFresh(s: Snapshot)
  {
    && s.nextId <= U64Limit
    && (s.nextId < U64Limit ==>
          TokenIdFromU64(s.nextId) !in s.tokens && EpochKey(TokenIdFromU64(s.nextId)) !in s.queue)
  }

  /**
   * The facts about one user that the add_token transaction relies on, all
   * consequences of the invariant: the list resolves to tokens of the user,
   * the scan for the session agrees with HoldsSessionFor, the oldest token
   * at the cap is queued under its key, and the next id is unused.
   */
  ghost predicate AddTokenFacts(s: Snapshot, email: Email, session: string)
  {
    var l := UserOrNew(s.users, email).tokens;
    && ListFacts(s, email)
    && (HoldsSession(CollectTokens(s.tokens, l).value, session) <==> HoldsSessionFor(s, email, session))
    && OldestQueued(s, email)
    && NextIdFresh(s)
  }

  /** The scan of email's resolved tokens finds no holder of the session. */
  ghost predicate NewSession(s: Snapshot, email: Email, session: string)
    requires ListFacts(s, email)
  {
    !HoldsSession(CollectTokens(s.tokens, UserOrNew(s.users, email).tokens).value, session)
  }

  lemma ListFactsOf(s: Snapshot, email: Email)
    requires UsersWellFormed(s)
    ensures ListFacts(s, email)
  {
    if email in s.users {
      assert UserWellFormed(s.tokens, email, s.users[email]);
    }
  }

  lemma SessionScan(s: Snapshot, email: Email, session: string)
    requires ListFacts(s, email)
    ensures HoldsSession(CollectTokens(s.tokens, UserOrNew(s.users, email).tokens).value, session)
      <==> HoldsSessionFor(s, email, session)
  {
    var ts := CollectTokens(s.tokens, UserOrNew(s.users, email).tokens).value;
    if HoldsSession(ts, session) {
      var i :| 0 <= i < |ts| && ts[i].moodleSession == session;
      assert email in s.users;
    }
  }

  lemma OldestQueuedOf(s: Snapshot, email: Email)
    requires ListFacts(s, email) && EveryTokenQueued(s)
    ensures OldestQueued(s, email)
  {
  }

  lemma ConsistentFacts(s: Snapshot, email: Email, session: string)
    requires Consistent(s)
    ensures AddTokenFacts(s, email, session)
  {
    ListFactsOf(s, email);
    SessionScan(s, email, session);
    OldestQueuedOf(s, email);
    if s.nextId < U64Limit {
      FreshIdAndKey(s, TokenIdFromU64(s.nextId));
    }
  }

  /** Eviction of the first oldest succeeds when its record and its queue entry are present. */
  lemma EvictStep(p: Pending, ts: seq<Token>)
    requires 0 < |ts| == |p.ids|
    requires var rm := p.ids[OldestIndex(ts)];
             rm in p.tokens && p.tokens[rm] == ts[OldestIndex(ts)] &&
             KeyOf(p.tokens, rm).Ok? && KeyOf(p.tokens, rm).value in p.queue
    ensures var rm := p.ids[OldestIndex(ts)];
            var k := KeyOf(p.tokens, rm).value;
            EvictOldest(p, ts) ==
              Ok(Pending(RemoveAt(p.ids, OldestIndex(ts)), p.tokens - {rm}, p.queue - {k}, p.events + [QueueEvent.Removed(k)]))
  {
  }

  /** Insertion of a fresh id succeeds. */
  lemma InsertStep(p: Pending, token: Token, id: TokenId)
    requires id !in p.tokens && EpochKey(id) !in p.queue
    ensures InsertNew(p, token, id) == Ok(Pending(p.ids + [id], p.tokens[id := token],
      p.queue[EpochKey(id) := UpdateQueueItem(id)], p.events + InsertEvents(id)))
  {
  }

  /** Below the cap, a new session is inserted with nothing evicted. */
  lemma AddTokenRoomShape(s: Snapshot, email: Email, session: string, now: Time)
    requires ListFacts(s, email) && NewSession(s, email, session) && NextIdFresh(s) && s.nextId < U64Limit
    requires |UserOrNew(s.users, email).tokens| < MaxTokensPerUser
    ensures var n := TokenIdFromU64(s.nextId);
            AddTokenTx(s, email, session, now) ==
              Tx(Ok(()), AfterInsertion(s, email, NewToken(email, session, now), n).(events := s.events + InsertEvents(n)))
  {
    var n := TokenIdFromU64(s.nextId);
    var user := UserOrNew(s.users, email);
    InsertStep(Pending(user.tokens, s.tokens, s.queue, []), NewToken(email, session, now), n);
  }

  /** At the cap, a new session evicts the first oldest token and then is inserted. */
  lemma AddTokenCapShape(s: Snapshot, email: Email, session: string, now: Time)
    requires ListFacts(s, email) && NewSession(s, email, session) && OldestQueued(s, email)
    requires NextIdFresh(s) && s.nextId < U64Limit
    requires |UserOrNew(s.users, email).tokens| >= MaxTokensPerUser
    ensures email in s.users
    ensures var l := s.users[email].tokens;
            var i := OldestIndex(CollectTokens(s.tokens, l).value);
            var n := TokenIdFromU64(s.nextId);
            && i < |l| && l[i] in s.tokens && KeyOf(s.tokens, l[i]).Ok?
            && AddTokenTx(s, email, session, now) ==
                 Tx(Ok(()), AfterInsertion(AfterEviction(s, email, i), email, NewToken(email, session, now), n).(
                   events := s.events + [QueueEvent.Removed(KeyOf(s.tokens, l[i]).value)] + InsertEvents(n)))
  {
    var l := s.users[email].tokens;
    var ts := CollectTokens(s.tokens, l).value;
    var start := Pending(l, s.tokens, s.queue, []);
    EvictStep(start, ts);
    var i := OldestIndex(ts);
    var n := TokenIdFromU64(s.nextId);
    var e := AfterEviction(s, email, i);
    var removed := [QueueEvent.Removed(KeyOf(s.tokens, l[i]).value)];
    var ev := Pending(e.users[email].tokens, e.tokens, e.queue, removed);
    assert start.events + removed == removed;
    assert EvictOldest(start, ts) == Ok(ev);
    InsertStep(ev, NewToken(email, session, now), n);
    var after := AfterInsertion(e, email, NewToken(email, session, now), n);
    assert after.users == s.users[email := s.users[email].(tokens := e.users[email].tokens + [n])];
  }

  /** After evicting one of three, there is room and the session is still not held. */
  lemma EvictedRoom(s: Snapshot, email: Email, session: string, i: nat)
    requires email in s.users && !HoldsSessionFor(s, email, session)
    requires |s.users[email].tokens| == MaxTokensPerUser && i < MaxTokensPerUser
    requires s.users[email].tokens[i] in s.tokens && KeyOf(s.tokens, s.users[email].tokens[i]).Ok?
    ensures RoomFor(AfterEviction(s, email, i), email, session)
  {
    var l := s.users[email].tokens;
    var e := AfterEviction(s, email, i);
    forall j | 0 <= j < |e.users[email].tokens| && e.users[email].tokens[j] in e.tokens
      ensures e.tokens[e.users[email].tokens[j]].moodleSession != session
    {
      var j0 := if j < i then j else j + 1;
      assert e.users[email].tokens[j] == l[j0];
    }
  }

  /** Under the invariant add_token never panics, commits all or nothing, and keeps the invariant. */
  lemma AddTokenKeepsConsistent(s: Snapshot, email: Email, session: string, now: Time)
    requires Consistent(s)
    ensures !AddTokenTx(s, email, session, now).result.Panic?
    ensures AddTokenTx(s, email, session, now).result.Ok? || AddTokenTx(s, email, session, now).after == s
    ensures Consistent(AddTokenTx(s, email, session, now).after)
  {
    ConsistentFacts(s, email, session);
    if !HoldsSessionFor(s, email, session) {
      if s.nextId >= U64Limit {
        ExhaustedLeavesState(s, email, session, now);
      } else if |UserOrNew(s.users, email).tokens| < MaxTokensPerUser {
        KeepsConsistentWithRoom(s, email, session, now);
      } else {
        KeepsConsistentAtCap(s, email, session, now);
      }
    }
  }

  lemma KeepsConsistentWithRoom(s: Snapshot, email: Email, session: string, now: Time)
    requires Consistent(s) && AddTokenFacts(s, email, session)
    requires !HoldsSessionFor(s, email, session) && s.nextId < U64Limit
    requires |UserOrNew(s.users, email).tokens| < MaxTokensPerUser
    ensures AddTokenTx(s, email, session, now).result.Ok?
    ensures Consistent(AddTokenTx(s, email, session, now).after)
  {
    AddTokenRoomShape(s, email, session, now);
    InsertedConsistent(s, email, NewToken(email, session, now), TokenIdFromU64(s.nextId));
  }

  lemma KeepsConsistentAtCap(s: Snapshot, email: Email, session: string, now: Time)
    requires Consistent(s) && AddTokenFacts(s, email, session)
    requires !HoldsSessionFor(s, email, session) && s.nextId < U64Limit
    requires |UserOrNew(s.users, email).tokens| >= MaxTokensPerUser
    ensures AddTokenTx(s, email, session, now).result.Ok?
    ensures Consistent(AddTokenTx(s, email, session, now).after)
  {
    AddTokenCapShape(s, email, session, now);
    var l := UserOrNew(s.users, email).tokens;
    var i := OldestIndex(CollectTokens(s.tokens, l).value);
    EvictedConsistent(s, email, i);
    EvictedRoom(s, email, session, i);
    InsertedConsistent(AfterEviction(s, email, i), email, NewToken(email, session, now), TokenIdFromU64(s.nextId));
  }

  /** With a new session and no id left, the transaction fails with IdsExhausted and changes nothing. */
  lemma ExhaustedLeavesState(s: Snapshot, email: Email, session: string, now: Time)
    requires AddTokenFacts(s, email, session)
    requires !HoldsSessionFor(s, email, session) && s.nextId >= U64Limit
    ensures AddTokenTx(s, email, session, now) == Tx(Err(IdsExhausted), s)
  {
    var l := UserOrNew(s.users, email).tokens;
    if |l| >= MaxTokensPerUser {
      EvictStep(Pending(l, s.tokens, s.queue, []), CollectTokens(s.tokens, l).value);
    }
  }

  // ---------------------------------------------------------------------
  // Properties of `add_token`
  // ---------------------------------------------------------------------

  /**
   * A session already held by one of the user's tokens is a no-op that
   * succeeds; any other session changes the state or fails.
   */
  lemma AddTokenSkipsHeldSession(s: Snapshot, email: Email, session: string, now: Time)
    requires Consistent(s)
    ensures HoldsSessionFor(s, email, session) <==> AddTokenTx(s, email, session, now) == Tx(Ok(()), s)
  {
    ConsistentFacts(s, email, session);
    if !HoldsSessionFor(s, email, session) {
      if s.nextId < U64Limit {
        NewSessionAdvances(s, email, session, now);
      } else {
        ExhaustedLeavesState(s, email, session, now);
      }
    }
  }

  lemma NewSessionAdvances(s: Snapshot, email: Email, session: string, now: Time)
    requires AddTokenFacts(s, email, session)
    requires !HoldsSessionFor(s, email, session) && s.nextId < U64Limit
    ensures AddTokenTx(s, email, session, now).after.nextId == s.nextId + 1
  {
    if |UserOrNew(s.users, email).tokens| < MaxTokensPerUser {
      AddTokenRoomShape(s, email, session, now);
    } else {
      AddTokenCapShape(s, email, session, now);
    }
  }

  /** With a new session, add_token fails exactly when the id generator is exhausted, and then changes nothing. */
  lemma AddTokenIdsExhausted(s: Snapshot, email: Email, session: string, now: Time)
    requires Consistent(s) && !HoldsSessionFor(s, email, session)
    ensures AddTokenTx(s, email, session, now).result == Err(IdsExhausted) <==> s.nextId >= U64Limit
    ensures s.nextId >= U64Limit ==> AddTokenTx(s, email, session, now).after == s
  {
    ConsistentFacts(s, email, session);
    if s.nextId < U64Limit {
      NewSessionAdvances(s, email, session, now);
      AddTokenKeepsConsistent(s, email, session, now);
    } else {
      ExhaustedLeavesState(s, email, session, now);
    }
  }

  /**
   * What add_token leaves for a new session: the generator's next id, which
   * had no record, holds a fresh token with no csrf session, a deadline at
   * the epoch and `added` in whole milliseconds, queued under the epoch key,
   * which was absent; the id is last in the user's list, which grows by one
   * up to the cap.
   */
  ghost predicate IssuedNextId(s: Snapshot, tx: Tx, email: Email, session: string, now: Time)
    requires s.nextId < U64Limit
  {
    var n := TokenIdFromU64(s.nextId);
    var l := UserOrNew(s.users, email).tokens;
    && tx.result == Ok(())
    && U64FromTokenId(n) == s.nextId && tx.after.nextId == s.nextId + 1
    && n !in s.tokens && n in tx.after.tokens
    && tx.after.tokens[n] == Token(email, session, None, UnixEpoch, WholeMillis(now))
    && EpochKey(n) !in s.queue && EpochKey(n) in tx.after.queue
    && tx.after.queue[EpochKey(n)] == UpdateQueueItem(n)
    && QueueKeyParts(EpochKey(n)) == (UnixEpoch, n)
    && email in tx.after.users
    && |tx.after.users[email].tokens| == (if |l| < MaxTokensPerUser then |l| + 1 else MaxTokensPerUser)
    && tx.after.users[email].tokens[|tx.after.users[email].tokens| - 1] == n
  }

  /**
   * What add_token leaves at the cap when position i of email's list is
   * evicted: the token there and its queue entry at (its deadline, its id)
   * were present and are deleted, its id leaves the list, the new id is
   * appended, and the new token is inserted and queued at the epoch.
   */
  ghost predicate EvictedAndInserted(s: Snapshot, tx: Tx, email: Email, session: string, now: Time, i: nat)
    requires email in s.users && s.nextId < U64Limit
  {
    var l := s.users[email].tokens;
    var n := TokenIdFromU64(s.nextId);
    && |l| == MaxTokensPerUser
    && i < |l| && l[i] in s.tokens && KeyOf(s.tokens, l[i]).Ok? && KeyOf(s.tokens, l[i]).value in s.queue
    && var k := KeyOf(s.tokens, l[i]).value;
    && tx.result == Ok(())
    && email in tx.after.users
    && tx.after.users[email].tokens == RemoveAt(l, i) + [n]
    && tx.after.tokens == (s.tokens - {l[i]})[n := NewToken(email, session, now)]
    && tx.after.queue == (s.queue - {k})[EpochKey(n) := UpdateQueueItem(n)]
    && l[i] !in tx.after.tokens && k !in tx.after.queue
    && tx.after.events == s.events + [QueueEvent.Removed(k), QueueEvent.Inserted(EpochKey(n), UpdateQueueItem(n))]
  }

  /**
   * A new session gets the generator's next id: a fresh token record with
   * no csrf session and a deadline at the epoch, queued at the lowest
   * possible time, appended last to the user's list, which grows by one up
   * to the cap.
   */
  lemma AddTokenIssuesNextId(s: Snapshot, email: Email, session: string, now: Time)
    requires Consistent(s) && !HoldsSessionFor(s, email, session) && s.nextId < U64Limit
    ensures IssuedNextId(s, AddTokenTx(s, email, session, now), email, session, now)
  {
    ConsistentFacts(s, email, session);
    IssuesNextId(s, email, session, now);
  }

  lemma IssuesNextId(s: Snapshot, email: Email, session: string, now: Time)
    requires AddTokenFacts(s, email, session)
    requires !HoldsSessionFor(s, email, session) && s.nextId < U64Limit
    ensures IssuedNextId(s, AddTokenTx(s, email, session, now), email, session, now)
  {
    if |UserOrNew(s.users, email).tokens| < MaxTokensPerUser {
      IssuesNextIdWithRoom(s, email, session, now);
    } else {
      IssuesNextIdAtCap(s, email, session, now);
    }
  }

  lemma IssuesNextIdWithRoom(s: Snapshot, email: Email, session: string, now: Time)
    requires ListFacts(s, email) && NewSession(s, email, session) && NextIdFresh(s) && s.nextId < U64Limit
    requires |UserOrNew(s.users, email).tokens| < MaxTokensPerUser
    ensures IssuedNextId(s, AddTokenTx(s, email, session, now), email, session, now)
  {
    U64RoundTrip(s.nextId);
    AddTokenRoomShape(s, email, session, now);
  }

  lemma IssuesNextIdAtCap(s: Snapshot, email: Email, session: string, now: Time)
    requires ListFacts(s, email) && NewSession(s, email, session) && OldestQueued(s, email)
    requires NextIdFresh(s) && s.nextId < U64Limit
    requires |UserOrNew(s.users, email).tokens| >= MaxTokensPerUser
    ensures IssuedNextId(s, AddTokenTx(s, email, session, now), email, session, now)
  {
    U64RoundTrip(s.nextId);
    AddTokenCapShape(s, email, session, now);
    var l := s.users[email].tokens;
    var i := OldestIndex(CollectTokens(s.tokens, l).value);
    var n := TokenIdFromU64(s.nextId);
    var e := AfterEviction(s, email, i);
    assert e.users[email].tokens == RemoveAt(l, i);
    var after := AfterInsertion(e, email, NewToken(email, session, now), n);
    assert after.users[email].tokens == RemoveAt(l, i) + [n];
    assert after.tokens[n] == NewToken(email, session, now);
    assert after.queue[EpochKey(n)] == UpdateQueueItem(n);
  }

  /** Below the cap nothing is evicted: the new id is appended and only its record and queue entry are added. */
  lemma AddTokenWithRoom(s: Snapshot, email: Email, session: string, now: Time)
    requires Consistent(s) && !HoldsSessionFor(s, email, session) && s.nextId < U64Limit
    requires |UserOrNew(s.users, email).tokens| < MaxTokensPerUser
    ensures var tx := AddTokenTx(s, email, session, now);
            var n := TokenIdFromU64(s.nextId);
            && tx.result == Ok(())
            && tx.after.users == s.users[email := User(email, UserOrNew(s.users, email).tokens + [n])]
            && tx.after.tokens == s.tokens[n := NewToken(email, session, now)]
            && tx.after.queue == s.queue[EpochKey(n) := UpdateQueueItem(n)]
            && tx.after.events == s.events + [QueueEvent.Inserted(EpochKey(n), UpdateQueueItem(n))]
  {
    ConsistentFacts(s, email, session);
    AddTokenRoomShape(s, email, session, now);
  }

  /**
   * At the cap, the first oldest token by `added` is evicted: its record and
   * its queue entry are deleted and its id leaves the list, and the new
   * token takes the last place.
   */
  lemma AddTokenEvictsOldest(s: Snapshot, email: Email, session: string, now: Time, i: nat)
    requires Consistent(s) && !HoldsSessionFor(s, email, session) && s.nextId < U64Limit
    requires email in s.users && |s.users[email].tokens| >= MaxTokensPerUser
    requires IsFirstOldest(s.tokens, s.users[email].tokens, i)
    ensures EvictedAndInserted(s, AddTokenTx(s, email, session, now), email, session, now, i)
  {
    ConsistentFacts(s, email, session);
    OldestIndexIsFirstOldest(s.tokens, s.users[email].tokens, i);
    EvictsAt(s, email, session, now);
  }

  /** The eviction case of add_token, from the facts about the user alone. */
  lemma EvictsAt(s: Snapshot, email: Email, session: string, now: Time)
    requires AddTokenFacts(s, email, session)
    requires !HoldsSessionFor(s, email, session) && s.nextId < U64Limit
    requires email in s.users && |s.users[email].tokens| >= MaxTokensPerUser
    ensures EvictedAndInserted(s, AddTokenTx(s, email, session, now), email, session, now,
                               OldestIndex(CollectTokens(s.tokens, s.users[email].tokens).value))
  {
    var l := s.users[email].tokens;
    var i := OldestIndex(CollectTokens(s.tokens, l).value);
    var n := TokenIdFromU64(s.nextId);
    AddTokenCapShape(s, email, session, now);
    KeysOfDistinctIds(UnixEpoch, n, s.tokens[l[i]].deadline, l[i]);
    var k := KeyOf(s.tokens, l[i]).value;
    assert s.events + [QueueEvent.Removed(k)] + InsertEvents(n) ==
      s.events + [QueueEvent.Removed(k), QueueEvent.Inserted(EpochKey(n), UpdateQueueItem(n))];
  }

  /** add_token touches no other user's record, and no token or queue entry of anyone else. */
  lemma AddTokenFrame(s: Snapshot, email: Email, session: string, now: Time)
    requires Consistent(s)
    ensures FramedTo(s, AddTokenTx(s, email, session, now).after, email)
  {
    ConsistentFacts(s, email, session);
    FrameOfFacts(s, email, session, now);
  }

  /** What "nothing of anyone else changes" means for one transaction. */
  ghost predicate FramedTo(s: Snapshot, after: Snapshot, email: Email)
  {
    && (forall e :: e != email ==> (e in after.users <==> e in s.users))
    && (forall e :: e != email && e in s.users ==> after.users[e] == s.users[e])
    && (forall id :: id in s.tokens && s.tokens[id].owner != email ==>
          id in after.tokens && after.tokens[id] == s.tokens[id])
    && (forall k :: k in s.queue && s.queue[k].token in s.tokens && s.tokens[s.queue[k].token].owner != email ==>
          k in after.queue && after.queue[k] == s.queue[k])
  }

  lemma FrameOfFacts(s: Snapshot, email: Email, session: string, now: Time)
    requires AddTokenFacts(s, email, session)
    ensures FramedTo(s, AddTokenTx(s, email, session, now).after, email)
  {
    if !HoldsSessionFor(s, email, session) {
      if s.nextId < U64Limit {
        if |UserOrNew(s.users, email).tokens| < MaxTokensPerUser {
          FrameRoom(s, email, session, now);
        } else {
          FrameCap(s, email, session, now);
        }
      } else {
        ExhaustedLeavesState(s, email, session, now);
      }
    }
  }

  lemma FrameRoom(s: Snapshot, email: Email, session: string, now: Time)
    requires AddTokenFacts(s, email, session)
    requires !HoldsSessionFor(s, email, session) && s.nextId < U64Limit
    requires |UserOrNew(s.users, email).tokens| < MaxTokensPerUser
    ensures FramedTo(s, AddTokenTx(s, email, session, now).after, email)
  {
    AddTokenRoomShape(s, email, session, now);
  }

  lemma FrameCap(s: Snapshot, email: Email, session: string, now: Time)
    requires AddTokenFacts(s, email, session)
    requires !HoldsSessionFor(s, email, session) && s.nextId < U64Limit
    requires |UserOrNew(s.users, email).tokens| >= MaxTokensPerUser
    ensures FramedTo(s, AddTokenTx(s, email, session, now).after, email)
  {
    AddTokenCapShape(s, email, session, now);
    var l := s.users[email].tokens;
    var i := OldestIndex(CollectTokens(s.tokens, l).value);
    var n := TokenIdFromU64(s.nextId);
    EvictionFramed(s, email, i);
    var e := AfterEviction(s, email, i);
    InsertionFramed(e, email, NewToken(email, session, now), n);
    FramedTrans(s, e, AddTokenTx(s, email, session, now).after, email);
  }

  lemma EvictionFramed(s: Snapshot, email: Email, i: nat)
    requires ListFacts(s, email) && email in s.users && i < |s.users[email].tokens|
    requires KeyOf(s.tokens, s.users[email].tokens[i]).Ok?
    requires var rm := s.users[email].tokens[i];
             KeyOf(s.tokens, rm).value in s.queue && s.queue[KeyOf(s.tokens, rm).value] == UpdateQueueItem(rm)
    ensures FramedTo(s, AfterEviction(s, email, i), email)
  {
  }

  lemma InsertionFramed(s: Snapshot, email: Email, token: Token, id: TokenId)
    requires id !in s.tokens && EpochKey(id) !in s.queue
    ensures FramedTo(s, AfterInsertion(s, email, token, id), email)
  {
  }

  lemma FramedTrans(s: Snapshot, t: Snapshot, u: Snapshot, email: Email)
    requires FramedTo(s, t, email) && FramedTo(t, u, email)
    ensures FramedTo(s, u, email)
  {
  }

  /** A first session for an unknown email creates the user with exactly the new id. */
  lemma AddTokenNewUser(s: Snapshot, email: Email, session: string, now: Time)
    requires Consistent(s) && email !in s.users
    ensures var tx := AddTokenTx(s, email, session, now);
            && (tx.result.Ok? <==> s.nextId < U64Limit)
            && (tx.result.Ok? ==> email in tx.after.users && tx.after.users[email] == User(email, [TokenIdFromU64(s.nextId)]))
            && (!tx.result.Ok? ==> tx.after == s)
  {
    ConsistentFacts(s, email, session);
    if s.nextId < U64Limit {
      AddTokenRoomShape(s, email, session, now);
    } else {
      ExhaustedLeavesState(s, email, session, now);
    }
  }

  /** add_token stores `added` in whole milliseconds, so every stored time stays whole milliseconds. */
  lemma AddTokenKeepsMillis(s: Snapshot, email: Email, session: string, now: Time)
    requires Consistent(s) && StoredInMillis(s.tokens)
    ensures StoredInMillis(AddTokenTx(s, email, session, now).after.tokens)
  {
    ConsistentFacts(s, email, session);
    MillisOfFacts(s, email, session, now);
  }

  lemma MillisOfFacts(s: Snapshot, email: Email, session: string, now: Time)
    requires AddTokenFacts(s, email, session) && StoredInMillis(s.tokens)
    ensures StoredInMillis(AddTokenTx(s, email, session, now).after.tokens)
  {
    if HoldsSessionFor(s, email, session) {
      HeldLeavesState(s, email, session, now);
    } else if s.nextId >= U64Limit {
      ExhaustedLeavesState(s, email, session, now);
    } else if |UserOrNew(s.users, email).tokens| < MaxTokensPerUser {
      MillisRoom(s, email, session, now);
    } else {
      MillisCap(s, email, session, now);
    }
  }

  /** A session the user already holds commits nothing. */
  lemma HeldLeavesState(s: Snapshot, email: Email, session: string, now: Time)
    requires AddTokenFacts(s, email, session) && HoldsSessionFor(s, email, session)
    ensures AddTokenTx(s, email, session, now) == Tx(Ok(()), s)
  {
  }

  lemma MillisRoom(s: Snapshot, email: Email, session: string, now: Time)
    requires ListFacts(s, email) && NewSession(s, email, session) && NextIdFresh(s) && s.nextId < U64Limit
    requires |UserOrNew(s.users, email).tokens| < MaxTokensPerUser
    requires StoredInMillis(s.tokens)
    ensures StoredInMillis(AddTokenTx(s, email, session, now).after.tokens)
  {
    AddTokenRoomShape(s, email, session, now);
  }

  lemma MillisCap(s: Snapshot, email: Email, session: string, now: Time)
    requires ListFacts(s, email) && NewSession(s, email, session) && OldestQueued(s, email)
    requires NextIdFresh(s) && s.nextId < U64Limit
    requires |UserOrNew(s.users, email).tokens| >= MaxTokensPerUser
    requires StoredInMillis(s.tokens)
    ensures StoredInMillis(AddTokenTx(s, email, session, now).after.tokens)
  {
    AddTokenCapShape(s, email, session, now);
  }

  /** An id in the user's list without a token record is the `expect` panic, and nothing is written. */
  lemma AddTokenDanglingIdPanics(s: Snapshot, email: Email, session: string, now: Time, i: nat)
    requires email in s.users && i < |s.users[email].tokens| && s.users[email].tokens[i] !in s.tokens
    ensures AddTokenTx(s, email, session, now) == Tx(Panic(InvalidTokenSet), s)
  {
  }
}
