/**
 * Sessions when calls overlap: a new session is written to the bucket before the mutex is taken to put
 * it into the map, and other calls may come in between.
 */
module SessionInterleavings {
  import opened Common
  import opened BigEndian
  import opened Sessions

  /** The sessions that have been stored and are not in the map yet, by token. */
  datatype Busy = Busy(calm: State, pending: map<Token, Session>)

  datatype Part =
    | Store(session: Session, tx: Tx)
    | Insert(token: Token)
    | Whole(op: Op)

  /** Tokens that are being issued at one time differ, and a session is inserted once it is stored. */
  predicate Enabled(b: Busy, part: Part) {
    match part
    case Store(session, _) => session.token !in b.pending
    case Insert(token) => token in b.pending
    case Whole(op) => !op.New?
  }

  /** The bucket alone after a session is stored. */
  function Stored(s: State, session: Session, tx: Tx): State {
    s.(bucket := Create(s, session, tx).bucket)
  }

  /** A restart forgets what is pending: the calls are gone with their process. */
  function Next(b: Busy, part: Part): Busy {
    match part
    case Store(session, tx) =>
      Busy(Stored(b.calm, session, tx), if tx == Done then b.pending[session.token := session] else b.pending)
    case Insert(token) =>
      if token !in b.pending then b
      else Busy(b.calm.(sessions := b.calm.sessions[token := b.pending[token]]), b.pending - {token})
    case Whole(op) => Busy(Step(b.calm, op), if op.RestartAt? then map[] else b.pending)
  }

  /** The sessions that are in the map or about to be. */
  function Issued(b: Busy): map<Token, Session> {
    b.calm.sessions + b.pending
  }

  /** records has the record of every session under its token, and nothing else. */
  ghost predicate Mirrors(record: Session -> bytes, sessions: map<Token, Session>, records: Bucket) {
    records.Keys == sessions.Keys && forall t :: t in records ==> records[t] == record(sessions[t])
  }

  /** Every session is under its own token. */
  ghost predicate Keyed(sessions: map<Token, Session>) {
    forall t :: t in sessions ==> sessions[t].token == t
  }

  /** The bucket has exactly the records of what is in the map or about to be. */
  ghost predicate BusyAgree(b: Busy) {
    Keyed(b.calm.sessions) && Keyed(b.pending) && Mirrors(Encode, Issued(b), BucketOf(b.calm))
  }

  /** With nothing pending this is the agreement of sessions and bucket. */
  lemma CalmAgrees(s: State)
    ensures BusyAgree(Busy(s, map[])) <==> Agree(s)
  {
  }

  lemma PutMirrors(
    record: Session -> bytes, sessions: map<Token, Session>, pending: map<Token, Session>,
    records: Bucket, t: Token, s: Session)
    requires Mirrors(record, sessions + pending, records)
    ensures Mirrors(record, sessions + pending[t := s], records[t := record(s)])
  {
  }

  lemma TakeMirrorsIff(
    record: Session -> bytes, sessions: map<Token, Session>, pending: map<Token, Session>,
    records: Bucket, t: Token)
    requires Mirrors(record, sessions + pending, records)
    ensures Mirrors(record, sessions - {t} + pending, records - {t}) <==> t !in pending
  {
  }

  /** The part deletes t from the bucket. */
  predicate Deletes(b: Busy, part: Part, t: Token) {
    part.Whole? &&
    match part.op
    case DeleteByToken(dt, tx) => dt == t && !DeleteFails(b.calm, tx)
    case FindByToken(ft, now, tx) =>
      ft == t && t in b.calm.sessions && Expired(b.calm.sessions[t], now) && !DeleteFails(b.calm, tx)
    case _ => false
  }

  /** A part keeps the map and the bucket in agreement if and only if it does not delete what is being issued. */
  lemma PartKeepsIff(b: Busy, part: Part)
    requires BusyAgree(b) && Enabled(b, part)
    ensures BusyAgree(Next(b, part)) <==> forall t :: t in b.pending ==> !Deletes(b, part, t)
  {
    match part
    case Store(session, tx) => StoreKeeps(b, session, tx);
    case Insert(token) => assert Issued(Next(b, part)) == Issued(b);
    case Whole(op) => WholeKeepsIff(b, op);
  }

  lemma WholeKeepsIff(b: Busy, op: Op)
    requires BusyAgree(b) && !op.New?
    ensures BusyAgree(Next(b, Whole(op))) <==> forall t :: t in b.pending ==> !Deletes(b, Whole(op), t)
  {
    match op
    case DeleteByToken(t, tx) => DeletionKeepsIff(b, t, tx);
    case FindByToken(t, now, tx) =>
      if t in b.calm.sessions && Expired(b.calm.sessions[t], now) {
        DeletionKeepsIff(b, t, tx);
      }
    case RestartAt(now, users) =>
      RestartAgrees(b.calm.bucket, now, users);
      CalmAgrees(Step(b.calm, op));
  }

  lemma StoreKeeps(b: Busy, session: Session, tx: Tx)
    requires BusyAgree(b) && Enabled(b, Store(session, tx))
    ensures BusyAgree(Next(b, Store(session, tx)))
  {
    if tx == Done {
      PutMirrors(Encode, b.calm.sessions, b.pending, BucketOf(b.calm), session.token, session);
    }
  }

  lemma DeletionKeepsIff(b: Busy, t: Token, tx: Tx)
    requires BusyAgree(b)
    ensures BusyAgree(Busy(Sessions.Delete(b.calm, t, tx), b.pending)) <==> DeleteFails(b.calm, tx) || t !in b.pending
  {
    if !DeleteFails(b.calm, tx) {
      TakeMirrorsIff(Encode, b.calm.sessions, b.pending, BucketOf(b.calm), t);
    }
  }

  function RunParts(b: Busy, parts: seq<Part>): Busy
    decreases |parts|
  {
    if parts == [] then b else RunParts(Next(b, parts[0]), parts[1..])
  }

  /** Every part is enabled where it comes. */
  ghost predicate AllEnabled(b: Busy, parts: seq<Part>)
    decreases |parts|
  {
    parts != [] ==> Enabled(b, parts[0]) && AllEnabled(Next(b, parts[0]), parts[1..])
  }

  /** No part deletes a token that is being issued where it comes. */
  ghost predicate Undisturbed(b: Busy, parts: seq<Part>)
    decreases |parts|
  {
    parts != [] ==>
      (forall t :: t in b.pending ==> !Deletes(b, parts[0], t)) && Undisturbed(Next(b, parts[0]), parts[1..])
  }

  /** The map and the bucket agree, up to what is pending, after every part. */
  ghost predicate AllAgree(b: Busy, parts: seq<Part>)
    decreases |parts|
  {
    parts != [] ==> BusyAgree(Next(b, parts[0])) && AllAgree(Next(b, parts[0]), parts[1..])
  }

  /**
   * However calls overlap, the map and the bucket agree all the way, up to what is pending, if and
   * only if no token is deleted while it is being issued; once none is pending they agree outright.
   */
  lemma {:induction false} OverlapAgreesIff(b: Busy, parts: seq<Part>)
    requires BusyAgree(b) && AllEnabled(b, parts)
    ensures AllAgree(b, parts) <==> Undisturbed(b, parts)
    ensures Undisturbed(b, parts) && RunParts(b, parts).pending == map[] ==> Agree(RunParts(b, parts).calm)
    decreases |parts|
  {
    if parts == [] {
      CalmAgrees(b.calm);
    } else {
      PartKeepsIff(b, parts[0]);
      if BusyAgree(Next(b, parts[0])) {
        OverlapAgreesIff(Next(b, parts[0]), parts[1..]);
      }
    }
  }

  /** Without anything in between, the two parts are the step that issues a session. */
  lemma PartsAreNew(s: State, token: Token, user: User, expire: Time, tx: Tx)
    ensures var stored := Next(Busy(s, map[]), Store(Session(token, user.id, user.login, expire), tx));
            var after := if tx == Done then Next(stored, Insert(token)) else stored;
            after == Busy(Step(s, New(token, user, expire, tx)), map[])
  {
  }

  /** Deleting a token while it is being issued leaves a session in the map that has no record. */
  lemma DeletedWhileIssued(session: Session)
    ensures var start := Busy(State(map[], None), map[]);
            var parts := [Store(session, Done), Whole(DeleteByToken(session.token, Done)), Insert(session.token)];
            var after := RunParts(start, parts);
            BusyAgree(start) && after.pending == map[] && session.token in after.calm.sessions && !Agree(after.calm)
  {
    var start := Busy(State(map[], None), map[]);
    var del, ins := Whole(DeleteByToken(session.token, Done)), Insert(session.token);
    assert [Store(session, Done), del, ins][1..] == [del, ins] && [del, ins][1..] == [ins] && [ins][1..] == [];
    var b1 := Next(start, Store(session, Done));
    var b2 := Next(b1, del);
    var b3 := Next(b2, ins);
    assert RunParts(b2, [ins]) == b3;
    assert RunParts(b1, [del, ins]) == b3;
    assert RunParts(start, [Store(session, Done), del, ins]) == b3;
    assert b3.calm.bucket == Some(map[]);
  }
}
