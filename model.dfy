/**
 * The records of the store and the byte encodings of its three kinds of
 * keys: token ids, update-queue keys and e-mail addresses.
 */
module Model {
  import opened Results
  import opened Bytes
  import Utf8

  /** A point in time, in nanoseconds since UNIX_EPOCH (`SystemTime`). */
  type Time = nat
  /** A span of time in nanoseconds (`Duration`). */
  type Duration = nat

  const UnixEpoch: Time := 0
  const NanosPerMilli: nat := 1_000_000
  const NanosPerSecond: nat := 1_000_000_000

  const U64Limit: nat := 0x1_0000_0000_0000_0000
  type U64 = v: nat | v < U64Limit

  type Bytes8 = s: seq<Byte> | |s| == 8 witness [0, 0, 0, 0, 0, 0, 0, 0]
  type Bytes16 = s: seq<Byte> | |s| == 16
    witness [0, 0, 0, 0, 0, 0, 0, 0, 0, 0, 0, 0, 0, 0, 0, 0]

  /** Why a computation panicked: the failing `expect`, `assert!`, `unwrap` or slice index. */
  datatype PanicReason =
    | RawKeyTooShort        // `x.as_ref()[..n]` on a shorter key
    | TimeTooFar            // "SystemTime too far into the future"
    | InvalidTokenSet       // "User had an invalid token set???"
    | EvictedTokenMissing   // assert on `tokens.remove(&rm_token)`
    | EvictedEntryMissing   // assert on `update_queue.remove(&update_queue_key)`
    | TokenIdTaken          // assert on `tokens.set(&new_token_id, ..)`
    | QueueKeyTaken         // assert on `update_queue.set(&update_queue_key, ..)`
    | NoTokenToUpdate       // `token.unwrap()` in the update loop

  /** Errors returned through `Result`. */
  datatype Error =
    | Utf8Error             // a key that is not UTF-8
    | IdsExhausted          // the store's id generator has no u64 left
    | StoreFault            // an I/O or transaction failure of the store

  /** A computation's outcome: a value, a returned error, or a panic. */
  datatype Outcome<T> = Ok(value: T) | Err(error: Error) | Panic(reason: PanicReason)

  /** The failure of `o` at another value type. */
  function Propagate<T, U>(o: Outcome<T>): (r: Outcome<U>)
    requires !o.Ok?
    ensures r.Err? == o.Err? && (r.Err? ==> r.error == o.error) && (r.Panic? ==> r.reason == o.reason)
  {
    match o
    case Err(e) => Err(e)
    case Panic(p) => Panic(p)
  }

  datatype Email = Email(address: string)

  /** A token id: a u64 stored as its 8 big-endian bytes. */
  datatype TokenId = TokenId(bytes: Bytes8)

  /** An update-queue key: 8 big-endian bytes of the deadline in milliseconds, then the 8 id bytes. */
  datatype QueueKey = QueueKey(bytes: Bytes16)

  datatype User = User(email: Email, tokens: seq<TokenId>)

  /** A stored session; `deadline` is the single timestamp the store writes and the updater reads. */
  datatype Token = Token(
    owner: Email,
    moodleSession: string,
    csrfSession: Option<string>,
    deadline: Time,
    added: Time)

  datatype UpdateQueueItem = UpdateQueueItem(token: TokenId)

  lemma Pow256Of8()
    ensures Pow256(8) == U64Limit
  {
    assert Pow256(2) == 0x1_0000;
    assert Pow256(4) == 0x1_0000_0000 by { assert Pow256(3) == 0x100_0000; }
    assert Pow256(6) == 0x1_0000_0000_0000 by { assert Pow256(5) == 0x100_0000_0000; }
    assert Pow256(7) == 0x100_0000_0000_0000;
  }

  // ---- TokenId <-> u64 (`From` impls) ----

  function TokenIdFromU64(v: U64): TokenId
  {
    TokenId(BigEndian(v, 8))
  }

  function U64FromTokenId(t: TokenId): U64
  {
    Pow256Of8();
    FromBigEndian(t.bytes)
  }

  lemma U64RoundTrip(v: U64)
    ensures U64FromTokenId(TokenIdFromU64(v)) == v
    ensures TokenIdFromU64(v).bytes == BigEndian(v, 8)
  {
    Pow256Of8();
    FromBigEndianOfBigEndian(v, 8);
  }

  lemma TokenIdRoundTrip(t: TokenId)
    ensures TokenIdFromU64(U64FromTokenId(t)) == t
  {
    BigEndianOfFromBigEndian(t.bytes);
  }

  // ---- `kv::Key::from_raw_key` for TokenId ----

  /** Copies the first 8 bytes of a raw key; a shorter key panics at the slice. */
  function TokenIdFromRawKey(raw: seq<Byte>): Outcome<TokenId>
  {
    if |raw| < 8 then Panic(RawKeyTooShort) else Ok(TokenId(raw[..8]))
  }

  lemma TokenIdRawKey(t: TokenId, raw: seq<Byte>)
    ensures TokenIdFromRawKey(t.bytes) == Ok(t)
    ensures TokenIdFromRawKey(raw).Panic? <==> |raw| < 8
    ensures TokenIdFromRawKey(raw) == Ok(t) <==> |raw| >= 8 && raw[..8] == t.bytes
  {
    assert t.bytes[..8] == t.bytes;
  }

  // ---- UpdateQueueKey <-> (Duration, TokenId) (`From` impls) ----

  /** The time in whole milliseconds (`Duration::as_millis`). */
  function Millis(t: Duration): nat
  {
    t / NanosPerMilli
  }

  /**
   * A time as a `serde_millis` field stores it: the whole milliseconds, so
   * what is read back is the time truncated to a millisecond.
   */
  function WholeMillis(t: Time): (r: Time)
    ensures r <= t < r + NanosPerMilli && r % NanosPerMilli == 0
    ensures Millis(r) == Millis(t)
  {
    Millis(t) * NanosPerMilli
  }

  /** The key for (t, id); panics when t's millisecond count does not fit in a u64. */
  function QueueKeyFrom(t: Duration, id: TokenId): (r: Outcome<QueueKey>)
    ensures r.Ok? ==> QueueKeyParts(r.value) == (Millis(t) * NanosPerMilli, id)
  {
    var millis := Millis(t);
    if millis >= U64Limit then Panic(TimeTooFar)
    else
      Pow256Of8();
      FromBigEndianOfBigEndian(millis, 8);
      var k := BigEndian(millis, 8) + id.bytes;
      assert k[..8] == BigEndian(millis, 8) && k[8..] == id.bytes;
      Ok(QueueKey(k))
  }

  /** The (deadline, id) pair a key stands for; the deadline comes back in whole milliseconds. */
  function QueueKeyParts(k: QueueKey): (Duration, TokenId)
  {
    (FromBigEndian(k.bytes[..8]) * NanosPerMilli, TokenId(k.bytes[8..]))
  }

  lemma QueueKeyLayout(t: Duration, id: TokenId)
    ensures QueueKeyFrom(t, id).Ok? <==> Millis(t) < U64Limit
    ensures !QueueKeyFrom(t, id).Ok? ==> QueueKeyFrom(t, id) == Panic(TimeTooFar)
    ensures QueueKeyFrom(t, id).Ok? ==>
      QueueKeyFrom(t, id).value.bytes[..8] == BigEndian(Millis(t), 8) &&
      QueueKeyFrom(t, id).value.bytes[8..] == id.bytes
  {
    if Millis(t) < U64Limit {
      var k := QueueKeyFrom(t, id).value.bytes;
      assert k == BigEndian(Millis(t), 8) + id.bytes;
      assert k[..8] == BigEndian(Millis(t), 8);
    }
  }

  /** Every 16-byte key is the encoding of the pair it decodes to. */
  lemma QueueKeyOfParts(k: QueueKey)
    ensures QueueKeyFrom(QueueKeyParts(k).0, QueueKeyParts(k).1) == Ok(k)
  {
    var (t, id) := QueueKeyParts(k);
    var m := FromBigEndian(k.bytes[..8]);
    assert Millis(t) == m;
    Pow256Of8();
    BigEndianOfFromBigEndian(k.bytes[..8]);
    assert k.bytes == k.bytes[..8] + k.bytes[8..];
  }

  /**
   * Because both halves are big-endian, the store's byte order on keys is
   * the order of (milliseconds, id) pairs: the first key is the most urgent.
   */
  lemma QueueKeyOrder(t1: Duration, id1: TokenId, t2: Duration, id2: TokenId)
    requires QueueKeyFrom(t1, id1).Ok? && QueueKeyFrom(t2, id2).Ok?
    ensures LexLess(QueueKeyFrom(t1, id1).value.bytes, QueueKeyFrom(t2, id2).value.bytes) <==>
      Millis(t1) < Millis(t2) ||
      (Millis(t1) == Millis(t2) && U64FromTokenId(id1) < U64FromTokenId(id2))
  {
    QueueKeyLayout(t1, id1);
    QueueKeyLayout(t2, id2);
    var k1 := QueueKeyFrom(t1, id1).value.bytes;
    var k2 := QueueKeyFrom(t2, id2).value.bytes;
    var m1, m2 := BigEndian(Millis(t1), 8), BigEndian(Millis(t2), 8);
    assert k1 == m1 + id1.bytes && k2 == m2 + id2.bytes;
    LexLessConcat(m1, id1.bytes, m2, id2.bytes);
    LexLessIsNumericOrder(m1, m2);
    LexLessIsNumericOrder(id1.bytes, id2.bytes);
    Pow256Of8();
    FromBigEndianOfBigEndian(Millis(t1), 8);
    FromBigEndianOfBigEndian(Millis(t2), 8);
  }

  // ---- `kv::Key::from_raw_key` for UpdateQueueKey ----

  function QueueKeyFromRawKey(raw: seq<Byte>): Outcome<QueueKey>
  {
    if |raw| < 16 then Panic(RawKeyTooShort) else Ok(QueueKey(raw[..16]))
  }

  lemma QueueKeyRawKey(k: QueueKey, raw: seq<Byte>)
    ensures QueueKeyFromRawKey(k.bytes) == Ok(k)
    ensures QueueKeyFromRawKey(raw).Panic? <==> |raw| < 16
    ensures QueueKeyFromRawKey(raw) == Ok(k) <==> |raw| >= 16 && raw[..16] == k.bytes
  {
    assert k.bytes[..16] == k.bytes;
  }

  // ---- Email keys ----

  /** The key of an e-mail address: its UTF-8 bytes. */
  function EmailKey(e: Email): seq<Byte>
  {
    Utf8.Encode(e.address)
  }

  function EmailFromRawKey(raw: seq<Byte>): Outcome<Email>
  {
    match Utf8.Decode(raw)
    case None => Err(Utf8Error)
    case Some(s) => Ok(Email(s))
  }

  /** A raw key decodes to e exactly when it is e's key; anything that is not UTF-8 is an error. */
  lemma EmailKeyRoundTrip(raw: seq<Byte>, e: Email)
    ensures EmailFromRawKey(EmailKey(e)) == Ok(e)
    ensures EmailFromRawKey(raw) == Ok(e) <==> raw == EmailKey(e)
    ensures EmailFromRawKey(raw).Err? <==> forall s: string :: Utf8.Decode(raw) != Some(s)
  {
    Utf8.DecodeOfEncode(e.address);
    Utf8.DecodeIffEncode(raw, e.address);
  }

  lemma InvalidUtf8IsError()
    ensures EmailFromRawKey([0x80]) == Err(Utf8Error)
    ensures EmailFromRawKey([0xFF]) == Err(Utf8Error)
    ensures EmailFromRawKey([0xC0, 0xAF]) == Err(Utf8Error)
    ensures EmailFromRawKey([0xED, 0xA0, 0x80]) == Err(Utf8Error)
  {
  }
}
