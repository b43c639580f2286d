// The store operations the refresh scheduler calls: extending a token's
// deadline, removing a token, finding the most urgent token and counting
// tokens. src/db.rs does not define them; each follows how src/updater.rs
// uses the call (at lines 22, 27, 45 and 46), as one atomic transaction that
// keeps the three buckets in step.

module Upkeep {
  import opened Results
  import opened Bytes
  import opened Model
  import opened Store
  import opened StoreProofs

  // ---------------------------------------------------------------------
  // `update_token`: a new deadline
  // ---------------------------------------------------------------------

  /**
   * Moves token id to deadline now + timeLeft, kept in whole milliseconds as
   * the record stores it: its record gets the new
   * deadline and its queue entry moves from the old key to the new one. An
   * id that is gone is a silent no-op.
   */
  function UpdateTokenTx(s: Snapshot, id: TokenId, timeLeft: Duration, now: Time): Tx
  {
    if id !in s.tokens then Tx(Ok(()), s)
    else
      var deadline := WholeMillis(now + timeLeft);
      var oldKey := KeyOf(s.tokens, id);
      var newKey := QueueKeyFrom(deadline, id);
      if !oldKey.Ok? then Tx(Propagate(oldKey), s)
      else if !newKey.Ok? then Tx(Propagate(newKey), s)
      else
        Tx(Ok(()), s.(
          tokens := s.tokens[id := s.tokens[id].(deadline := deadline)],
          queue := (s.queue - {oldKey.value})[newKey.value := UpdateQueueItem(id)],
          events := s.events + [QueueEvent.Removed(oldKey.value), QueueEvent.Inserted(newKey.value, UpdateQueueItem(id))]))
  }

  /** An id that is gone leaves the store as it was. */
  lemma UpdateTokenAbsent(s: Snapshot, id: TokenId, timeLeft: Duration, now: Time)
    requires id !in s.tokens
    ensures UpdateTokenTx(s, id, timeLeft, now) == Tx(Ok(()), s)
  {
  }

  /**
   * Under the invariant, extending a stored token fails only when the new
   * deadline's milliseconds overflow a u64, and then changes nothing;
   * otherwise only that token's deadline and key change.
   */
  lemma UpdateTokenMovesKey(s: Snapshot, id: TokenId, timeLeft: Duration, now: Time)
    requires EveryTokenQueued(s) && id in s.tokens
    ensures var tx := UpdateTokenTx(s, id, timeLeft, now);
            var deadline := WholeMillis(now + timeLeft);
            && (tx.result.Ok? <==> Millis(deadline) < U64Limit)
            && (!tx.result.Ok? ==> tx == Tx(Panic(TimeTooFar), s))
            && (tx.result.Ok? ==>
                  && tx.after.users == s.users
                  && tx.after.tokens == s.tokens[id := s.tokens[id].(deadline := deadline)]
                  && KeyOf(tx.after.tokens, id) == QueueKeyFrom(deadline, id)
                  && QueueKeyParts(KeyOf(tx.after.tokens, id).value) == (Millis(deadline) * NanosPerMilli, id)
                  && KeyOf(tx.after.tokens, id).value in tx.after.queue
                  && tx.after.queue[KeyOf(tx.after.tokens, id).value] == UpdateQueueItem(id)
                  && (Millis(s.tokens[id].deadline) != Millis(deadline) ==> KeyOf(s.tokens, id).value !in tx.after.queue))
  {
    QueueKeyLayout(WholeMillis(now + timeLeft), id);
    assert KeyOf(s.tokens, id).Ok?;
    if Millis(WholeMillis(now + timeLeft)) < U64Limit {
      UpdatedToken(s, id, WholeMillis(now + timeLeft));
      UpdateTokenShape(s, id, timeLeft, now);
    }
  }

  /** The token, its key and the queue after a move to a new deadline. */
  lemma UpdatedToken(s: Snapshot, id: TokenId, deadline: Time)
    requires id in s.tokens && KeyOf(s.tokens, id).Ok? && QueueKeyFrom(deadline, id).Ok?
    ensures var m := Moved(s, id, deadline);
            && m.users == s.users
            && KeyOf(m.tokens, id) == QueueKeyFrom(deadline, id)
            && QueueKeyParts(KeyOf(m.tokens, id).value) == (Millis(deadline) * NanosPerMilli, id)
            && KeyOf(m.tokens, id).value in m.queue
            && m.queue[KeyOf(m.tokens, id).value] == UpdateQueueItem(id)
            && (Millis(s.tokens[id].deadline) != Millis(deadline) ==> KeyOf(s.tokens, id).value !in m.queue)
  {
    var oldKey := KeyOf(s.tokens, id).value;
    var newKey := QueueKeyFrom(deadline, id).value;
    if Millis(s.tokens[id].deadline) != Millis(deadline) {
      assert QueueKeyParts(oldKey).0 != QueueKeyParts(newKey).0;
    }
  }

  lemma UpdateTokenKeepsConsistent(s: Snapshot, id: TokenId, timeLeft: Duration, now: Time)
    requires Consistent(s)
    ensures UpdateTokenTx(s, id, timeLeft, now).result.Ok? || UpdateTokenTx(s, id, timeLeft, now).after == s
    ensures Consistent(UpdateTokenTx(s, id, timeLeft, now).after)
  {
    if id in s.tokens && QueueKeyFrom(WholeMillis(now + timeLeft), id).Ok? {
      UpdateTokenShape(s, id, timeLeft, now);
      UpdatedQueue(s, id, WholeMillis(now + timeLeft));
      UpdatedUsers(s, id, WholeMillis(now + timeLeft));
    }
  }

  /** The new deadline is stored in whole milliseconds, so every stored time stays whole milliseconds. */
  lemma UpdateTokenKeepsMillis(s: Snapshot, id: TokenId, timeLeft: Duration, now: Time)
    requires StoredInMillis(s.tokens)
    ensures StoredInMillis(UpdateTokenTx(s, id, timeLeft, now).after.tokens)
  {
  }

  lemma UpdateTokenShape(s: Snapshot, id: TokenId, timeLeft: Duration, now: Time)
    requires id in s.tokens && KeyOf(s.tokens, id).Ok? && QueueKeyFrom(WholeMillis(now + timeLeft), id).Ok?
    ensures UpdateTokenTx(s, id, timeLeft, now).result == Ok(())
    ensures UpdateTokenTx(s, id, timeLeft, now).after.(events := s.events) == Moved(s, id, WholeMillis(now + timeLeft))
  {
  }

  /** s with token id at a new deadline, its entry moved from the old key to the new one. */
  function Moved(s: Snapshot, id: TokenId, deadline: Time): Snapshot
    requires id in s.tokens && KeyOf(s.tokens, id).Ok? && QueueKeyFrom(deadline, id).Ok?
  {
    s.(tokens := s.tokens[id := s.tokens[id].(deadline := deadline)],
       queue := (s.queue - {KeyOf(s.tokens, id).value})[QueueKeyFrom(deadline, id).value := UpdateQueueItem(id)])
  }

  lemma UpdatedQueue(s: Snapshot, id: TokenId, deadline: Time)
    requires EveryTokenQueued(s) && NoStrayEntries(s)
    requires id in s.tokens && QueueKeyFrom(deadline, id).Ok?
    ensures KeyOf(s.tokens, id).Ok?
    ensures EveryTokenQueued(Moved(s, id, deadline)) && NoStrayEntries(Moved(s, id, deadline))
  {
    UpdatedQueued(s, id, deadline);
    UpdatedNoStray(s, id, deadline);
  }

  lemma UpdatedQueued(s: Snapshot, id: TokenId, deadline: Time)
    requires EveryTokenQueued(s) && NoStrayEntries(s)
    requires id in s.tokens && QueueKeyFrom(deadline, id).Ok?
    ensures KeyOf(s.tokens, id).Ok?
    ensures EveryTokenQueued(Moved(s, id, deadline))
  {
    var s' := Moved(s, id, deadline);
    forall x | x in s'.tokens && x != id
      ensures KeyOf(s'.tokens, x).Ok? && KeyOf(s'.tokens, x).value in s'.queue
      ensures s'.queue[KeyOf(s'.tokens, x).value] == UpdateQueueItem(x)
    {
      assert s'.tokens[x] == s.tokens[x];
      KeysOfDistinctIds(s.tokens[x].deadline, x, s.tokens[id].deadline, id);
      KeysOfDistinctIds(s.tokens[x].deadline, x, deadline, id);
    }
  }

  lemma UpdatedNoStray(s: Snapshot, id: TokenId, deadline: Time)
    requires EveryTokenQueued(s) && NoStrayEntries(s)
    requires id in s.tokens && QueueKeyFrom(deadline, id).Ok?
    ensures KeyOf(s.tokens, id).Ok?
    ensures NoStrayEntries(Moved(s, id, deadline))
  {
    var s' := Moved(s, id, deadline);
    forall k | k in s'.queue && k != QueueKeyFrom(deadline, id).value
      ensures s'.queue[k].token in s'.tokens && KeyOf(s'.tokens, s'.queue[k].token) == Ok(k)
    {
      var x := s.queue[k].token;
      assert x != id;
      assert s'.tokens[x] == s.tokens[x];
    }
  }

  lemma UpdatedUsers(s: Snapshot, id: TokenId, deadline: Time)
    requires UsersWellFormed(s) && EveryTokenListed(s) && IdsIssued(s)
    requires id in s.tokens && KeyOf(s.tokens, id).Ok? && QueueKeyFrom(deadline, id).Ok?
    ensures UsersWellFormed(Moved(s, id, deadline)) && EveryTokenListed(Moved(s, id, deadline))
    ensures IdsIssued(Moved(s, id, deadline))
  {
    var s' := Moved(s, id, deadline);
    forall e | e in s'.users
      ensures UserWellFormed(s'.tokens, e, s'.users[e])
    {
      assert UserWellFormed(s.tokens, e, s.users[e]);
    }
  }

  // ---------------------------------------------------------------------
  // `remove_token`: a dead session
  // ---------------------------------------------------------------------

  /**
   * Deletes token id: its record, its queue entry and its id in its owner's
   * list. An id that is gone is a silent no-op.
   */
  function RemoveTokenTx(s: Snapshot, id: TokenId): Tx
  {
    if id !in s.tokens then Tx(Ok(()), s)
    else
      var owner := s.tokens[id].owner;
      var key := KeyOf(s.tokens, id);
      if !key.Ok? then Tx(Propagate(key), s)
      else
        var users := if owner in s.users then s.users[owner := s.users[owner].(tokens := Without(s.users[owner].tokens, id))]
                     else s.users;
        Tx(Ok(()), s.(
          users := users,
          tokens := s.tokens - {id},
          queue := s.queue - {key.value},
          events := s.events + [QueueEvent.Removed(key.value)]))
  }

  /** Taking out the one occurrence of x is removing its position. */
  lemma {:induction false} WithoutSingle(l: seq<TokenId>, x: TokenId, i: nat)
    requires i < |l| && l[i] == x
    requires forall j :: 0 <= j < |l| && j != i ==> l[j] != x
    ensures Without(l, x) == RemoveAt(l, i)
  {
    if i == 0 {
      NotIn(l[1..], x);
      assert l[1..] == RemoveAt(l, 0);
    } else {
      WithoutSingle(l[1..], x, i - 1);
      assert RemoveAt(l, i) == [l[0]] + RemoveAt(l[1..], i - 1);
    }
  }

  lemma {:induction false} NotIn(l: seq<TokenId>, x: TokenId)
    requires forall j :: 0 <= j < |l| ==> l[j] != x
    ensures Without(l, x) == l
  {
    if l != [] {
      NotIn(l[1..], x);
      assert l == [l[0]] + l[1..];
    }
  }

  /** The position of id in its owner's list, which the invariant makes unique. */
  lemma ListedOnce(s: Snapshot, id: TokenId) returns (i: nat)
    requires UsersWellFormed(s) && EveryTokenListed(s) && id in s.tokens
    ensures s.tokens[id].owner in s.users
    ensures i < |s.users[s.tokens[id].owner].tokens| && s.users[s.tokens[id].owner].tokens[i] == id
    ensures forall j :: 0 <= j < |s.users[s.tokens[id].owner].tokens| && j != i ==>
              s.users[s.tokens[id].owner].tokens[j] != id
  {
    var owner := s.tokens[id].owner;
    var l := s.users[owner].tokens;
    i :| 0 <= i < |l| && l[i] == id;
    forall j | 0 <= j < |l| && j != i
      ensures l[j] != id
    {
      if j < i {
        ListedIdsDistinct(s, owner, j, i);
      } else {
        ListedIdsDistinct(s, owner, i, j);
      }
    }
  }

  /** An id that is gone leaves the store as it was, and only such an id does. */
  lemma RemoveTokenAbsent(s: Snapshot, id: TokenId)
    requires EveryTokenQueued(s)
    ensures RemoveTokenTx(s, id) == Tx(Ok(()), s) <==> id !in s.tokens
  {
    if id in s.tokens {
      assert id !in RemoveTokenTx(s, id).after.tokens;
    }
  }

  /**
   * Removing a stored token is exactly evicting it from its owner's list:
   * its record and queue entry go, its id leaves the list, and the other
   * ids keep their order; the invariant is kept.
   */
  lemma RemoveTokenRemoves(s: Snapshot, id: TokenId) returns (i: nat)
    requires Consistent(s) && id in s.tokens
    ensures var owner := s.tokens[id].owner;
            && owner in s.users && i < |s.users[owner].tokens| && s.users[owner].tokens[i] == id
            && KeyOf(s.tokens, id).Ok? && KeyOf(s.tokens, id).value in s.queue
            && RemoveTokenTx(s, id) ==
                 Tx(Ok(()), AfterEviction(s, owner, i).(events := s.events + [QueueEvent.Removed(KeyOf(s.tokens, id).value)]))
            && id !in RemoveTokenTx(s, id).after.users[owner].tokens
            && Consistent(RemoveTokenTx(s, id).after)
  {
    i := ListedOnce(s, id);
    var owner := s.tokens[id].owner;
    WithoutSingle(s.users[owner].tokens, id, i);
    EvictedConsistent(s, owner, i);
  }

  lemma RemoveTokenKeepsConsistent(s: Snapshot, id: TokenId)
    requires Consistent(s)
    ensures RemoveTokenTx(s, id).result == Ok(())
    ensures Consistent(RemoveTokenTx(s, id).after)
  {
    if id in s.tokens {
      var _ := RemoveTokenRemoves(s, id);
    }
  }

  lemma RemoveTokenKeepsMillis(s: Snapshot, id: TokenId)
    requires StoredInMillis(s.tokens)
    ensures StoredInMillis(RemoveTokenTx(s, id).after.tokens)
  {
  }

  // ---------------------------------------------------------------------
  // `get_most_urgent_token`: the first key of the queue
  // ---------------------------------------------------------------------

  /** The token a queue key names (its last eight bytes). */
  function KeyTokenId(k: QueueKey): (id: TokenId)
    ensures id == QueueKeyParts(k).1
  {
    TokenId(k.bytes[8..])
  }

  /** A key whose token is still stored. */
  ghost predicate Live(s: Snapshot, k: QueueKey)
  {
    k in s.queue && KeyTokenId(k) in s.tokens
  }

  /** k is live and no live key sorts before it. */
  ghost predicate IsFirstLiveKey(s: Snapshot, k: QueueKey)
  {
    Live(s, k) && forall k2 :: Live(s, k2) ==> !LexLess(k2.bytes, k.bytes)
  }

  lemma FirstLiveKeyUnique(s: Snapshot, k1: QueueKey, k2: QueueKey)
    requires IsFirstLiveKey(s, k1) && IsFirstLiveKey(s, k2)
    ensures k1 == k2
  {
    LexLessTotal(k1.bytes, k2.bytes);
  }

  /** Every non-empty set of keys has a least one in byte order. */
  lemma {:induction false} LeastKeyExists(keys: set<QueueKey>) returns (m: QueueKey)
    requires keys != {}
    ensures m in keys && forall k :: k in keys ==> !LexLess(k.bytes, m.bytes)
    decreases |keys|
  {
    var x :| x in keys;
    if keys == {x} {
      m := x;
      LexLessTotal(x.bytes, x.bytes);
    } else {
      var r := LeastKeyExists(keys - {x});
      if LexLess(x.bytes, r.bytes) {
        m := x;
        forall k | k in keys
          ensures !LexLess(k.bytes, x.bytes)
        {
          LexLessTotal(x.bytes, x.bytes);
          if k != x && LexLess(k.bytes, x.bytes) {
            LexLessTransitive(k.bytes, x.bytes, r.bytes);
          }
        }
      } else {
        m := r;
      }
    }
  }

  lemma FirstLiveKeyExists(s: Snapshot)
    requires exists k :: k in s.queue && Live(s, k)
    ensures exists k :: IsFirstLiveKey(s, k)
  {
    var live := set k | k in s.queue && Live(s, k);
    var k0 :| k0 in s.queue && Live(s, k0);
    assert k0 in live;
    var m := LeastKeyExists(live);
    assert IsFirstLiveKey(s, m);
  }

  /**
   * What `get_most_urgent_token` returns on a committed snapshot: the token
   * of the first live key, or None when no key is live.
   */
  ghost function MostUrgentOf(s: Snapshot): (r: Option<(TokenId, Token)>)
    ensures r.None? <==> forall k :: k in s.queue ==> !Live(s, k)
    ensures r.Some? ==> exists k :: IsFirstLiveKey(s, k) && r.value == (KeyTokenId(k), s.tokens[KeyTokenId(k)])
  {
    if forall k :: k in s.queue ==> !Live(s, k) then None
    else
      FirstLiveKeyExists(s);
      var k :| IsFirstLiveKey(s, k);
      Some((KeyTokenId(k), s.tokens[KeyTokenId(k)]))
  }

  /** Under the invariant, the most urgent token is the stored one with the least (deadline millis, id). */
  lemma MostUrgentIsMinimal(s: Snapshot)
    requires EveryTokenQueued(s) && NoStrayEntries(s)
    ensures MostUrgentOf(s).None? <==> s.tokens == map[]
    ensures MostUrgentOf(s).Some? ==>
              var (id, t) := MostUrgentOf(s).value;
              id in s.tokens && t == s.tokens[id] &&
              forall id2 :: id2 in s.tokens ==>
                Millis(t.deadline) < Millis(s.tokens[id2].deadline) ||
                (Millis(t.deadline) == Millis(s.tokens[id2].deadline) && U64FromTokenId(id) <= U64FromTokenId(id2))
  {
    if s.tokens != map[] {
      var x :| x in s.tokens;
      assert Live(s, KeyOf(s.tokens, x).value);
    }
    if MostUrgentOf(s).Some? {
      var k :| IsFirstLiveKey(s, k) && MostUrgentOf(s).value == (KeyTokenId(k), s.tokens[KeyTokenId(k)]);
      var id := KeyTokenId(k);
      assert s.queue[k].token == id;
      forall id2 | id2 in s.tokens
        ensures Millis(s.tokens[id].deadline) < Millis(s.tokens[id2].deadline) ||
                (Millis(s.tokens[id].deadline) == Millis(s.tokens[id2].deadline) && U64FromTokenId(id) <= U64FromTokenId(id2))
      {
        var k2 := KeyOf(s.tokens, id2).value;
        assert Live(s, k2);
        QueueKeyOrder(s.tokens[id2].deadline, id2, s.tokens[id].deadline, id);
      }
    }
  }

  // ---------------------------------------------------------------------
  // `get_token_count`
  // ---------------------------------------------------------------------

  /** The keys of a set of stored tokens. */
  ghost function KeysOf(tokens: map<TokenId, Token>, ids: set<TokenId>): set<QueueKey>
    requires forall id :: id in ids ==> id in tokens && KeyOf(tokens, id).Ok?
  {
    set id | id in ids :: KeyOf(tokens, id).value
  }

  lemma {:induction false} KeysOfCard(tokens: map<TokenId, Token>, ids: set<TokenId>)
    requires forall id :: id in ids ==> id in tokens && KeyOf(tokens, id).Ok?
    ensures |KeysOf(tokens, ids)| == |ids|
    decreases |ids|
  {
    if ids != {} {
      var x :| x in ids;
      var rest := ids - {x};
      KeysOfCard(tokens, rest);
      var kx := KeyOf(tokens, x).value;
      forall id | id in rest
        ensures KeyOf(tokens, id).value != kx
      {
        KeysOfDistinctIds(tokens[id].deadline, id, tokens[x].deadline, x);
      }
      assert KeysOf(tokens, ids) == KeysOf(tokens, rest) + {kx};
    }
  }

  /** Under the invariant the queue holds exactly one entry per token. */
  lemma QueueSizeIsTokenCount(s: Snapshot)
    requires EveryTokenQueued(s) && NoStrayEntries(s)
    ensures |s.queue| == |s.tokens|
  {
    KeysOfCard(s.tokens, s.tokens.Keys);
    assert s.queue.Keys == KeysOf(s.tokens, s.tokens.Keys);
  }
}
