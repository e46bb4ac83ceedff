/** Web user sessions: a map written through to a transactional bucket, and the restart from it. */
module Sessions {
  import opened Common
  import opened BigEndian

  const NANOS: int := 1_000_000_000

  /** Nanoseconds since the Unix epoch. */
  type Time = int

  datatype Token = Token(value: bytes)

  type Login = bytes

  type UserID = u128

  datatype User = User(id: UserID, login: Login)

  datatype Session = Session(token: Token, userID: UserID, login: Login, expire: Time)

  /** time.Time.Unix cut to 32 bits. */
  function StoredSeconds(expire: Time): u32 {
    expire / NANOS % 0x1_0000_0000
  }

  /** The record of a session: expiry, length of the login, login. */
  function Encode(s: Session): bytes {
    BE(StoredSeconds(s.expire), 4) + BE(|s.login| % 0x1_0000, 2) + s.login
  }

  /** The record built in a buffer, field by field. */
  method BboltEncode(s: Session) returns (data: array<byte>)
    ensures fresh(data) && data[..] == Encode(s)
  {
    data := new byte[4 + 2 + |s.login|](_ => 0);
    PutBE(data, 0, StoredSeconds(s.expire), 4);
    PutBE(data, 4, |s.login| % 0x1_0000, 2);
    assert data[..4] == BE(StoredSeconds(s.expire), 4);
    CopyTo(data, 6, s.login);
    assert data[..4] == data[..6][..4] && data[4..6] == data[..6][4..];
    assert data[6..] == data[6..6 + |s.login|];
    assert data[..] == data[..4] + data[4..6] + data[6..];
  }

  /** The bytes of one record: the expiry, high byte first, the length of the login, the login. */
  lemma RecordBytes(token: Token, id: UserID)
    ensures Encode(Session(token, id, [97, 98], 0x01020304 * NANOS)) == [1, 2, 3, 4, 0, 2, 97, 98]
  {
    Literals(0, 0, 0, 0);
    assert BE(2, 2) == [0, 2] by {
      assert BE(0, 1) == [0];
    }
  }

  datatype Record = Record(expire: Time, login: Login)

  datatype DecodeError = TooShort | LoginLength

  function Decode(data: bytes): Result<Record, DecodeError> {
    if |data| < 6 then Err(TooShort)
    else if |data| - 6 != FromBE(data[4..6]) then Err(LoginLength)
    else Ok(Record(FromBE(data[..4]) * NANOS, data[6..]))
  }

  lemma EncodeParts(s: Session)
    ensures var data := Encode(s);
            && |data| == 6 + |s.login| && data[6..] == s.login
            && FromBE(data[..4]) == StoredSeconds(s.expire) && FromBE(data[4..6]) == |s.login| % 0x1_0000
  {
    var data := Encode(s);
    Widths();
    FromToBE(StoredSeconds(s.expire), 4);
    FromToBE(|s.login| % 0x1_0000, 2);
    assert data[..4] == BE(StoredSeconds(s.expire), 4) && data[4..6] == BE(|s.login| % 0x1_0000, 2);
  }

  /** When the record reads back, and as what. */
  lemma DecodeEncoded(s: Session)
    ensures Decode(Encode(s)).Ok? <==> |s.login| < 0x1_0000
    ensures |s.login| < 0x1_0000 ==> Decode(Encode(s)) == Ok(Record(StoredSeconds(s.expire) * NANOS, s.login))
  {
    EncodeParts(s);
  }

  /** The record keeps a session to the second exactly if its login and its expiry fit their fields. */
  lemma RecordIsExactIff(s: Session)
    ensures Decode(Encode(s)) == Ok(Record(s.expire - s.expire % NANOS, s.login)) <==>
      |s.login| <= 65535 && 0 <= s.expire < 0x1_0000_0000 * NANOS
  {
    DecodeEncoded(s);
    var sec := s.expire / NANOS;
    assert s.expire == sec * NANOS + s.expire % NANOS;
  }

  /** A record that decodes is the record of what it decodes to. */
  lemma EncodeDecoded(data: bytes, token: Token, id: UserID)
    requires Decode(data).Ok?
    ensures var r := Decode(data).value;
            Encode(Session(token, id, r.login, r.expire)) == data
  {
    FromBEBound(data[..4]);
    FromBEBound(data[4..6]);
    Widths();
    ToFromBE(data[..4]);
    ToFromBE(data[4..6]);
    var r := Decode(data).value;
    assert StoredSeconds(r.expire) == FromBE(data[..4]);
    assert data == data[..4] + data[4..6] + data[6..];
  }

  type Bucket = map<Token, bytes>

  /** The sessions in memory and the bucket, which does not exist until the first session. */
  datatype State = State(sessions: map<Token, Session>, bucket: Option<Bucket>)

  /** How a database transaction goes; all but the last leave the database as it was. */
  datatype Tx = BeginFails | OperationFails | CommitFails | Done

  /** The bucket has exactly the records of the sessions, each under its token. */
  ghost predicate Agree(s: State) {
    && (forall t :: t in s.sessions ==> s.sessions[t].token == t)
    && match s.bucket
       case None => s.sessions == map[]
       case Some(b) => b.Keys == s.sessions.Keys && forall t :: t in b ==> b[t] == Encode(s.sessions[t])
  }

  function BucketOf(s: State): Bucket {
    if s.bucket.Some? then s.bucket.value else map[]
  }

  function Create(s: State, session: Session, tx: Tx): State {
    if tx != Done then s
    else State(s.sessions[session.token := session], Some(BucketOf(s)[session.token := Encode(session)]))
  }

  /** Whether a deletion fails: it needs the bucket, though not the token. */
  predicate DeleteFails(s: State, tx: Tx) {
    tx != Done || s.bucket.None?
  }

  function Delete(s: State, t: Token, tx: Tx): State {
    if DeleteFails(s, tx) then s
    else State(s.sessions - {t}, Some(s.bucket.value - {t}))
  }

  predicate Expired(s: Session, now: Time) {
    now > s.expire
  }

  /** Looking a session up deletes it if it has expired. */
  function Find(s: State, t: Token, now: Time, tx: Tx): State {
    if t in s.sessions && Expired(s.sessions[t], now) then Delete(s, t, tx) else s
  }

  /** A restart keeps the record: it reads, has not expired, and its user still exists. */
  predicate Keeps(data: bytes, now: Time, users: map<Login, UserID>) {
    Decode(data).Ok? && !(now > Decode(data).value.expire) && Decode(data).value.login in users
  }

  function Restored(t: Token, data: bytes, users: map<Login, UserID>): Session
    requires Decode(data).Ok? && Decode(data).value.login in users
  {
    var r := Decode(data).value;
    Session(t, users[r.login], r.login, r.expire)
  }

  /** A new process on the same database; a restart that fails leaves the database for the next. */
  function Restart(bucket: Option<Bucket>, now: Time, users: map<Login, UserID>): State {
    match bucket
    case None => State(map[], None)
    case Some(b) =>
      State(map t | t in b && Keeps(b[t], now, users) :: Restored(t, b[t], users),
            Some(map t | t in b && Keeps(b[t], now, users) :: b[t]))
  }

  datatype Op =
    | New(token: Token, user: User, expire: Time, newTx: Tx)
    | FindByToken(t: Token, now: Time, findTx: Tx)
    | DeleteByToken(dt: Token, deleteTx: Tx)
    | RestartAt(at: Time, users: map<Login, UserID>)

  function Step(s: State, op: Op): State {
    match op
    case New(token, user, expire, tx) => Create(s, Session(token, user.id, user.login, expire), tx)
    case FindByToken(t, now, tx) => Find(s, t, now, tx)
    case DeleteByToken(t, tx) => Delete(s, t, tx)
    case RestartAt(now, users) => Restart(s.bucket, now, users)
  }

  function Run(s: State, ops: seq<Op>): State
    decreases |ops|
  {
    if ops == [] then s else Run(Step(s, ops[0]), ops[1..])
  }

  lemma RestartAgrees(bucket: Option<Bucket>, now: Time, users: map<Login, UserID>)
    ensures Agree(Restart(bucket, now, users))
  {
    if bucket.Some? {
      forall t | t in bucket.value && Keeps(bucket.value[t], now, users)
        ensures Encode(Restored(t, bucket.value[t], users)) == bucket.value[t]
      {
        EncodeDecoded(bucket.value[t], t, users[Decode(bucket.value[t]).value.login]);
      }
    }
  }

  /** In every reachable state, through failures and restarts, the map and the bucket agree. */
  lemma {:induction false} RunAgrees(s: State, ops: seq<Op>)
    requires Agree(s)
    ensures Agree(Run(s, ops))
    decreases |ops|
  {
    if ops != [] {
      if ops[0].RestartAt? {
        RestartAgrees(s.bucket, ops[0].at, ops[0].users);
      }
      RunAgrees(Step(s, ops[0]), ops[1..]);
    }
  }

  /** A login of 65536 bytes does not read back, and an expiry of 2^32 seconds reads back as the epoch. */
  lemma RecordLimits(token: Token, id: UserID)
    ensures Decode(Encode(Session(token, id, seq(0x1_0000, _ => 65), 0))).Err?
    ensures Decode(Encode(Session(token, id, [65], 0x1_0000_0000 * NANOS))) == Ok(Record(0, [65]))
  {
    DecodeEncoded(Session(token, id, seq(0x1_0000, _ => 65), 0));
    DecodeEncoded(Session(token, id, [65], 0x1_0000_0000 * NANOS));
  }

  /** A token that is gone from an agreeing state stays gone, through lookups and restarts, until it is issued again. */
  lemma {:induction false} GoneStaysGone(s: State, ops: seq<Op>, t: Token)
    requires Agree(s) && t !in s.sessions
    requires forall op :: op in ops && op.New? ==> op.token != t
    ensures t !in Run(s, ops).sessions
    decreases |ops|
  {
    if ops != [] {
      RunAgrees(s, [ops[0]]);
      assert Run(s, [ops[0]]) == Step(s, ops[0]);
      assert ops[0] in ops && forall op :: op in ops[1..] ==> op in ops;
      GoneStaysGone(Step(s, ops[0]), ops[1..], t);
    }
  }

  /** The expiry that a restart sees: whole seconds in 32 bits. */
  function StoredExpiry(s: Session): Time {
    StoredSeconds(s.expire) * NANOS
  }

  /**
   * What a restart at a time brings back from an agreeing state: exactly the sessions whose login
   * fits its field and still exists and whose stored expiry is not before that time.
   */
  lemma RestartRestores(s: State, now: Time, users: map<Login, UserID>, t: Token)
    requires Agree(s)
    ensures var after := Restart(s.bucket, now, users);
            && (t in after.sessions <==>
                 t in s.sessions && |s.sessions[t].login| <= 65535 && s.sessions[t].login in users &&
                 now <= StoredExpiry(s.sessions[t]))
            && (t in after.sessions ==>
                 var was := s.sessions[t];
                 after.sessions[t] == Session(t, users[was.login], was.login, StoredExpiry(was)))
  {
    if t in s.sessions {
      DecodeEncoded(s.sessions[t]);
    }
  }

  /** Within the limits of the record the stored expiry is the expiry to the second. */
  lemma StoredExpiryIff(s: Session)
    ensures StoredExpiry(s) == s.expire - s.expire % NANOS <==> 0 <= s.expire < 0x1_0000_0000 * NANOS
  {
  }

  /** Storing moves an expiry back or keeps it, exactly if it is not before the epoch. */
  lemma StoredNeverLaterIff(s: Session)
    ensures StoredExpiry(s) <= s.expire <==> 0 <= s.expire
  {
  }

  /** The token has a session that has not expired at the reading. */
  predicate Authenticates(s: State, t: Token, now: Time) {
    t in s.sessions && !Expired(s.sessions[t], now)
  }

  /** A restart can bring the session back, if its user exists then. */
  predicate Restorable(s: Session) {
    |s.login| <= 65535
  }

  /** The reading is past the expiry in memory, and past the stored one unless no restart can bring it back. */
  predicate Over(s: Session, now: Time) {
    Expired(s, now) && (Restorable(s) ==> now > StoredExpiry(s))
  }

  /** If t has a session, it is over. */
  predicate DoneWith(s: State, t: Token, now: Time) {
    t in s.sessions ==> Over(s.sessions[t], now)
  }

  predicate IssuesOver(op: Op, t: Token, now: Time) {
    op.New? && op.token == t ==> Over(Session(t, op.user.id, op.user.login, op.expire), now)
  }

  /** No step of the run issues the token for longer than the reading. */
  predicate NoneLonger(ops: seq<Op>, t: Token, now: Time) {
    forall op :: op in ops ==> IssuesOver(op, t, now)
  }

  /** Whatever else happens, the token does not authenticate at the reading unless it is issued for longer. */
  ghost predicate Never(s: State, t: Token, now: Time) {
    forall ops | NoneLonger(ops, t, now) :: !Authenticates(Run(s, ops), t, now)
  }

  lemma StoredTwice(s: Session, token: Token, id: UserID)
    ensures StoredExpiry(Session(token, id, s.login, StoredExpiry(s))) == StoredExpiry(s)
  {
  }

  lemma StepStaysDone(s: State, op: Op, t: Token, now: Time)
    requires Agree(s) && DoneWith(s, t, now) && IssuesOver(op, t, now)
    ensures DoneWith(Step(s, op), t, now)
  {
    if op.RestartAt? {
      RestartRestores(s, op.at, op.users, t);
      if t in Step(s, op).sessions {
        StoredTwice(s.sessions[t], t, op.users[s.sessions[t].login]);
      }
    }
  }

  /**
   * No run, with failed deletions, clocks that go back, and restarts, makes a session outlive both of
   * its expiries, unless the token is issued for longer.
   */
  lemma {:induction false} ExpiredStaysExpired(s: State, ops: seq<Op>, t: Token, now: Time)
    requires Agree(s) && DoneWith(s, t, now) && NoneLonger(ops, t, now)
    ensures DoneWith(Run(s, ops), t, now) && !Authenticates(Run(s, ops), t, now)
    decreases |ops|
  {
    if ops != [] {
      assert ops[0] in ops && forall op :: op in ops[1..] ==> op in ops;
      StepStaysDone(s, ops[0], t, now);
      RunAgrees(s, [ops[0]]);
      assert Run(s, [ops[0]]) == Step(s, ops[0]);
      ExpiredStaysExpired(Step(s, ops[0]), ops[1..], t, now);
    }
  }

  /** A restart at the stored expiry, when the user exists, keeps the session for readings up to it. */
  lemma RestartKeepsOpen(s: State, t: Token, now: Time)
    requires Agree(s) && t in s.sessions && Restorable(s.sessions[t]) && now <= StoredExpiry(s.sessions[t])
    ensures !Never(s, t, now)
  {
    var was := s.sessions[t];
    var users: map<Login, UserID> := map[was.login := 0];
    var op := RestartAt(StoredExpiry(was), users);
    RestartRestores(s, StoredExpiry(was), users, t);
    assert Run(s, [op]) == Step(s, op);
    assert NoneLonger([op], t, now) && Authenticates(Run(s, [op]), t, now);
  }

  /**
   * When a token is done with at a reading: exactly when the reading is past the expiry of its
   * session, and past the stored expiry too unless the login is too long to come back.
   */
  lemma NeverIff(s: State, t: Token, now: Time)
    requires Agree(s)
    ensures Never(s, t, now) <==> DoneWith(s, t, now)
  {
    if DoneWith(s, t, now) {
      forall ops | NoneLonger(ops, t, now)
        ensures !Authenticates(Run(s, ops), t, now)
      {
        ExpiredStaysExpired(s, ops, t, now);
      }
    } else {
      assert NoneLonger([], t, now) && Run(s, []) == s;
      if !Authenticates(s, t, now) {
        RestartKeepsOpen(s, t, now);
      }
    }
  }

  /** The lookup that finds a session expired puts an end to it, at all readings, exactly if its transaction is done. */
  lemma LookupEndsIff(s: State, t: Token, at: Time, tx: Tx)
    requires Agree(s) && t in s.sessions && Expired(s.sessions[t], at)
    ensures (forall later :: Never(Step(s, FindByToken(t, at, tx)), t, later)) <==> tx == Done
  {
    var op := FindByToken(t, at, tx);
    var after := Step(s, op);
    RunAgrees(s, [op]);
    assert Run(s, [op]) == after;
    if tx == Done {
      forall later
        ensures Never(after, t, later)
      {
        NeverIff(after, t, later);
      }
    } else {
      NeverIff(after, t, s.sessions[t].expire);
    }
  }

  /**
   * After a restart, which compares by the wall clock, an expired session that could not be deleted
   * authenticates again when the clock goes back.
   */
  lemma FailedDeletionKeeps(s: State, t: Token, users: map<Login, UserID>)
    requires Agree(s) && t in s.sessions && s.sessions[t].expire == 7 * NANOS
    requires Restorable(s.sessions[t]) && s.sessions[t].login in users
    ensures var restarted := Step(s, RestartAt(0, users));
            var after := Step(restarted, FindByToken(t, 10 * NANOS, BeginFails));
            && t in restarted.sessions && Expired(restarted.sessions[t], 10 * NANOS)
            && Authenticates(after, t, 5 * NANOS)
  {
    RestartRestores(s, 0, users, t);
    StoredExpiryIff(s.sessions[t]);
  }

  /** Such sessions are issued. */
  lemma IssuedFor7(t: Token, user: User)
    ensures var s := Step(State(map[], None), New(t, user, 7 * NANOS, Done));
            Agree(s) && t in s.sessions && s.sessions[t].expire == 7 * NANOS && s.sessions[t].login == user.login
  {
  }

  /** A restart gives a session that ended just before the epoch the rest of the 32 bits of seconds. */
  lemma BeforeEpochRevives(s: State, t: Token, users: map<Login, UserID>)
    requires Agree(s) && t in s.sessions && s.sessions[t].expire == -1
    requires |s.sessions[t].login| <= 65535 && s.sessions[t].login in users
    ensures var after := Restart(s.bucket, 0, users);
            Expired(s.sessions[t], 0) && t in after.sessions && after.sessions[t].expire == 0xFFFF_FFFF * NANOS
  {
    assert -1 / NANOS == -1 && StoredSeconds(-1) == 0xFFFF_FFFF;
    RestartRestores(s, 0, users, t);
  }
}
