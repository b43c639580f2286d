// The refresh scheduler (src/updater.rs): `update_one` applies the outcome
// of one refresh call to the store, and each iteration of `update_loop`
// picks the most urgent token, refreshes it when it is due, computes how
// long to sleep and drains the watch. The refresh call, the clock and the
// wake-up are inputs.

module Updater {
  import opened Results
  import opened Model
  import opened Store
  import opened StoreProofs
  import opened Upkeep
  import opened Db

  /** The deadline assumed when the queue is empty: 1,000,000 seconds ahead. */
  const FallbackDelay: Duration := 1_000_000 * NanosPerSecond

  /** The deadline the iteration works with: the most urgent token's, or the fallback. */
  function Deadline(urgent: Option<(TokenId, Token)>, now: Time): Time
  {
    match urgent
    case Some(p) => p.1.deadline
    case None => now + FallbackDelay
  }

  /** A deadline is due when it falls before now + gap. */
  predicate IsDue(deadline: Time, now: Time, gap: Duration)
  {
    deadline < now + gap
  }

  /** The sleep before the next iteration: zero when due, else until the deadline is gap away. */
  function Timeout(deadline: Time, now: Time, gap: Duration): Duration
  {
    if IsDue(deadline, now, gap) then 0 else deadline - (now + gap)
  }

  /**
   * The timeout is the longest sleep after which the deadline is not yet
   * due: sleeping any longer makes it due, and a deadline already due
   * means no sleep. The subtraction never underflows.
   */
  lemma TimeoutIsExact(deadline: Time, now: Time, gap: Duration, d: Duration)
    ensures IsDue(deadline, now, gap) ==> Timeout(deadline, now, gap) == 0
    ensures !IsDue(deadline, now, gap) ==> now + gap <= deadline && now + gap + Timeout(deadline, now, gap) == deadline
    ensures !IsDue(deadline, now, gap) ==> (IsDue(deadline, now + d, gap) <==> d > Timeout(deadline, now, gap))
  {
  }

  /** With an empty queue nothing is due unless gap exceeds the fallback, so there is nothing to unwrap. */
  lemma FallbackNeverDue(now: Time, gap: Duration)
    ensures IsDue(Deadline(None, now), now, gap) <==> gap > FallbackDelay
    ensures !IsDue(Deadline(None, now), now, gap) ==> Timeout(Deadline(None, now), now, gap) == FallbackDelay - gap
  {
  }

  // ---------------------------------------------------------------------
  // `update_one`
  // ---------------------------------------------------------------------

  /** What the external refresh call reported. */
  datatype RefreshResult =
    | Refreshed(timeLeft: Duration)
    | SessionDead
    | TransportError

  /**
   * The effect of one refresh result on the store: a new deadline, the
   * token's removal, or nothing at all when the call itself failed.
   */
  function UpdateOneTx(s: Snapshot, id: TokenId, refresh: RefreshResult, now: Time): Tx
  {
    match refresh
    case Refreshed(timeLeft) => UpdateTokenTx(s, id, timeLeft, now)
    case SessionDead => RemoveTokenTx(s, id)
    case TransportError => Tx(Ok(()), s)
  }

  /**
   * Every refresh result keeps the invariant: a new deadline, a removal, or
   * (after a transport error) the very same store with success.
   */
  lemma UpdateOneKeepsConsistent(s: Snapshot, id: TokenId, refresh: RefreshResult, now: Time)
    requires Consistent(s)
    ensures Consistent(UpdateOneTx(s, id, refresh, now).after)
    ensures refresh.TransportError? ==> UpdateOneTx(s, id, refresh, now) == Tx(Ok(()), s)
    ensures refresh.SessionDead? ==> UpdateOneTx(s, id, refresh, now).result == Ok(())
  {
    match refresh
    case Refreshed(timeLeft) =>
      UpdateTokenKeepsConsistent(s, id, timeLeft, now);
    case SessionDead =>
      RemoveTokenKeepsConsistent(s, id);
    case TransportError =>
  }

  /** `update_one`: applies the refresh result for token id to the store; store errors propagate. */
  method UpdateOne(db: Database, id: TokenId, refresh: RefreshResult, now: Time) returns (r: Outcome<()>)
    modifies db
    ensures Tx(r, db.State()) == UpdateOneTx(old(db.State()), id, refresh, now)
    ensures old(db.Valid()) ==> db.Valid()
    ensures old(db.events) <= db.events
  {
    match refresh
    case Refreshed(timeLeft) =>
      r := db.UpdateToken(id, timeLeft, now);
    case SessionDead =>
      r := db.RemoveToken(id);
    case TransportError =>
      r := Ok(());
  }

  // ---------------------------------------------------------------------
  // One iteration of `update_loop`
  // ---------------------------------------------------------------------

  /**
   * The store effect of one iteration at time now: the most urgent token is
   * refreshed when due (with the given result, applied at time refreshedAt);
   * due with no token at all is the `unwrap` panic.
   */
  ghost function IterationTx(s: Snapshot, gap: Duration, now: Time, refresh: RefreshResult, refreshedAt: Time): Tx
  {
    var urgent := MostUrgentOf(s);
    if !IsDue(Deadline(urgent, now), now, gap) then Tx(Ok(()), s)
    else if urgent.None? then Tx(Panic(NoTokenToUpdate), s)
    else UpdateOneTx(s, urgent.value.0, refresh, refreshedAt)
  }

  /** No refresh result produces the panic reserved for the missing token. */
  lemma UpdateOneNeverMissesToken(s: Snapshot, id: TokenId, refresh: RefreshResult, now: Time)
    ensures UpdateOneTx(s, id, refresh, now).result != Panic(NoTokenToUpdate)
  {
    match refresh
    case Refreshed(timeLeft) =>
      if id in s.tokens {
        QueueKeyLayout(WholeMillis(now + timeLeft), id);
      }
    case SessionDead =>
    case TransportError =>
  }

  /**
   * The `unwrap` in the loop panics exactly when the store holds no token
   * and gap exceeds the fallback delay; in particular never when
   * gap <= FallbackDelay.
   */
  lemma IterationPanicsIffEmpty(s: Snapshot, gap: Duration, now: Time, refresh: RefreshResult, refreshedAt: Time)
    requires EveryTokenQueued(s) && NoStrayEntries(s)
    ensures IterationTx(s, gap, now, refresh, refreshedAt).result == Panic(NoTokenToUpdate) <==>
              s.tokens == map[] && gap > FallbackDelay
  {
    MostUrgentIsMinimal(s);
    var urgent := MostUrgentOf(s);
    if urgent.Some? {
      UpdateOneNeverMissesToken(s, urgent.value.0, refresh, refreshedAt);
    }
  }

  /** An iteration keeps the invariant, whatever the refresh reported. */
  lemma IterationKeepsConsistent(s: Snapshot, gap: Duration, now: Time, refresh: RefreshResult, refreshedAt: Time)
    requires Consistent(s)
    ensures Consistent(IterationTx(s, gap, now, refresh, refreshedAt).after)
  {
    var urgent := MostUrgentOf(s);
    if urgent.Some? {
      UpdateOneKeepsConsistent(s, urgent.value.0, refresh, refreshedAt);
    }
  }

  /**
   * Token id comes no later than id2 in the update queue: its deadline has
   * fewer milliseconds, or as many and its id is not larger.
   */
  ghost predicate NoLaterThan(tokens: map<TokenId, Token>, id: TokenId, id2: TokenId)
    requires id in tokens && id2 in tokens
  {
    || Millis(tokens[id].deadline) < Millis(tokens[id2].deadline)
    || (Millis(tokens[id].deadline) == Millis(tokens[id2].deadline) && U64FromTokenId(id) <= U64FromTokenId(id2))
  }

  /**
   * In a non-empty store the iteration looks at the one token with the
   * least (deadline in milliseconds, id): it refreshes that token when it
   * is due and leaves the store alone when it is not.
   */
  lemma IterationRefreshesIffDue(s: Snapshot, gap: Duration, now: Time, refresh: RefreshResult, refreshedAt: Time)
    requires EveryTokenQueued(s) && NoStrayEntries(s) && s.tokens != map[]
    ensures MostUrgentOf(s).Some?
    ensures var id := MostUrgentOf(s).value.0;
            && id in s.tokens
            && (forall id2 :: id2 in s.tokens ==> NoLaterThan(s.tokens, id, id2))
            && (forall id2 :: id2 in s.tokens && NoLaterThan(s.tokens, id2, id) ==> id2 == id)
            && (IsDue(s.tokens[id].deadline, now, gap) ==>
                  IterationTx(s, gap, now, refresh, refreshedAt) == UpdateOneTx(s, id, refresh, refreshedAt))
            && (!IsDue(s.tokens[id].deadline, now, gap) ==>
                  IterationTx(s, gap, now, refresh, refreshedAt) == Tx(Ok(()), s))
  {
    UrgentIsUniqueLeast(s);
    IterationOfUrgent(s, gap, now, refresh, refreshedAt);
  }

  /** The most urgent token is stored and is the only one no later than every other. */
  lemma UrgentIsUniqueLeast(s: Snapshot)
    requires EveryTokenQueued(s) && NoStrayEntries(s) && s.tokens != map[]
    ensures MostUrgentOf(s).Some?
    ensures var (id, t) := MostUrgentOf(s).value;
            && id in s.tokens && t == s.tokens[id]
            && (forall id2 :: id2 in s.tokens ==> NoLaterThan(s.tokens, id, id2))
            && (forall id2 :: id2 in s.tokens && NoLaterThan(s.tokens, id2, id) ==> id2 == id)
  {
    MostUrgentIsMinimal(s);
    var id := MostUrgentOf(s).value.0;
    assert forall id2 :: id2 in s.tokens ==> NoLaterThan(s.tokens, id, id2);
    LeastIsUnique(s.tokens, id);
  }

  /** Ids are distinct u64s, so at most one token is no later than every other. */
  lemma LeastIsUnique(tokens: map<TokenId, Token>, id: TokenId)
    requires id in tokens && forall id2 :: id2 in tokens ==> NoLaterThan(tokens, id, id2)
    ensures forall id2 :: id2 in tokens && NoLaterThan(tokens, id2, id) ==> id2 == id
  {
    forall id2 | id2 in tokens && NoLaterThan(tokens, id2, id)
      ensures id2 == id
    {
      assert NoLaterThan(tokens, id, id2);
      TokenIdRoundTrip(id);
      TokenIdRoundTrip(id2);
    }
  }

  lemma IterationOfUrgent(s: Snapshot, gap: Duration, now: Time, refresh: RefreshResult, refreshedAt: Time)
    requires MostUrgentOf(s).Some? && MostUrgentOf(s).value.0 in s.tokens
    requires MostUrgentOf(s).value.1 == s.tokens[MostUrgentOf(s).value.0]
    ensures var id := MostUrgentOf(s).value.0;
            && (IsDue(s.tokens[id].deadline, now, gap) ==>
                  IterationTx(s, gap, now, refresh, refreshedAt) == UpdateOneTx(s, id, refresh, refreshedAt))
            && (!IsDue(s.tokens[id].deadline, now, gap) ==>
                  IterationTx(s, gap, now, refresh, refreshedAt) == Tx(Ok(()), s))
  {
  }

  /**
   * After a transport error the store is untouched, so the same token is
   * still the most urgent and still due at any later time: it is retried
   * on the next iteration.
   */
  lemma TransportErrorRetries(s: Snapshot, gap: Duration, now: Time, later: Time, refreshedAt: Time)
    requires MostUrgentOf(s).Some? && IsDue(Deadline(MostUrgentOf(s), now), now, gap) && now <= later
    ensures IterationTx(s, gap, now, TransportError, refreshedAt) == Tx(Ok(()), s)
    ensures IsDue(Deadline(MostUrgentOf(s), later), later, gap)
  {
  }

  /**
   * The store half of one pass of `update_loop`'s body: look up the most
   * urgent token (or fall back), and refresh it when it is due.
   */
  method RefreshIfDue(db: Database, gap: Duration, now: Time, refresh: RefreshResult, refreshedAt: Time)
    returns (r: Outcome<()>, due: bool, deadline: Time)
    modifies db
    ensures Tx(r, db.State()) == IterationTx(old(db.State()), gap, now, refresh, refreshedAt)
    ensures old(db.Valid()) ==> db.Valid()
    ensures old(db.events) <= db.events
    ensures deadline == Deadline(MostUrgentOf(old(db.State())), now)
    ensures due <==> IsDue(deadline, now, gap)
  {
    var urgent := db.MostUrgentToken();
    deadline := Deadline(urgent, now);
    due := IsDue(deadline, now, gap);
    r := Ok(());
    if due {
      if urgent.None? {
        return Panic(NoTokenToUpdate), due, deadline;
      }
      var (id, _) := urgent.value;
      r := UpdateOne(db, id, refresh, refreshedAt);
    }
  }

  /** What the body of one iteration did besides changing the store. */
  datatype Iteration = Iteration(refreshed: bool, timeout: Duration, drained: seq<QueueEvent>)

  /**
   * One pass of `update_loop`'s body: refresh the most urgent token if it
   * is due, compute the timeout, wait (the wake-up is not modelled), then
   * drain every pending watch event. A store error ends
   * the pass before the wait.
   */
  method Iterate(db: Database, watch: Watch, gap: Duration, now: Time, refresh: RefreshResult, refreshedAt: Time)
    returns (r: Outcome<()>, it: Iteration)
    requires watch.db == db && watch.Valid()
    modifies db, watch
    ensures Tx(r, db.State()) == IterationTx(old(db.State()), gap, now, refresh, refreshedAt)
    ensures old(db.Valid()) ==> db.Valid()
    ensures old(db.events) <= db.events && watch.Valid()
    ensures it.refreshed <==> IsDue(Deadline(MostUrgentOf(old(db.State())), now), now, gap)
    ensures r.Ok? ==> it.timeout == Timeout(Deadline(MostUrgentOf(old(db.State())), now), now, gap)
    ensures r.Ok? ==> watch.Pending() == [] && it.drained == old(watch.Pending()) + db.events[|old(db.events)|..]
  {
    ghost var pendingBefore := watch.Pending();
    ghost var eventsBefore := db.events;
    var due, deadline;
    r, due, deadline := RefreshIfDue(db, gap, now, refresh, refreshedAt);
    it := Iteration(due, 0, []);
    if !r.Ok? {
      return;
    }
    var timeout := Timeout(deadline, now, gap);
    ghost var refreshed := db.State();
    PendingGrows(eventsBefore, db.events, watch.seen);
    var drained := watch.Drain();
    assert db.State() == refreshed;
    it := Iteration(due, timeout, drained);
  }

  /** Events published after a watch's position join the end of what it has pending. */
  lemma PendingGrows(before: seq<QueueEvent>, after: seq<QueueEvent>, seen: nat)
    requires seen <= |before| && before <= after
    ensures after[seen..] == before[seen..] + after[|before|..]
  {
  }
}
