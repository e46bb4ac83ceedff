/** The session storage over its database file. */
module SessionStorages {
  import opened Common
  import opened Sessions

  /** The database; it outlives the storages opened on it. */
  class DB {
    var bucket: Option<Bucket>

    constructor ()
      ensures bucket == None
    {
      bucket := None;
    }
  }

  datatype StorageError = TxFailed | NoBucket

  /** A restart has nothing to delete. */
  ghost predicate AllKept(bucket: Option<Bucket>, now: Time, users: map<Login, UserID>) {
    bucket.None? || forall t :: t in bucket.value ==> Keeps(bucket.value[t], now, users)
  }

  class DefaultSessionStorage {
    const db: DB
    const sessionTTL: int
    var sessions: map<Token, Session>

    ghost function Model(): State
      reads this, db
    {
      State(sessions, db.bucket)
    }

    ghost predicate Valid()
      reads this, db
    {
      Agree(Model())
    }

    /** Opens a storage on a database that may hold sessions of earlier storages. */
    constructor (db: DB, sessionTTL: int)
      ensures this.db == db && this.sessionTTL == sessionTTL && sessions == map[]
    {
      this.db := db;
      this.sessionTTL := sessionTTL;
      sessions := map[];
    }

    /** Loads what is valid into a storage that has just been opened and deletes the rest from the bucket. */
    method LoadSessions(now: Time, users: map<Login, UserID>, tx: Tx) returns (ok: bool)
      requires sessions == map[]
      modifies this, db
      ensures ok ==> Valid() && Model() == Restart(old(db.bucket), now, users)
      ensures ok <==> tx == Done || (tx != BeginFails && AllKept(old(db.bucket), now, users))
      ensures !ok ==> db.bucket == old(db.bucket)
    {
      if tx == BeginFails {
        return false;
      }
      if db.bucket.None? {
        return true;
      }
      var invalid := ProcessSessions(db.bucket.value, now, users);
      RestartAgrees(db.bucket, now, users);
      if invalid == {} {
        assert db.bucket.value == Restart(old(db.bucket), now, users).bucket.value;
        return true;
      }
      if tx != Done {
        return false;
      }
      db.bucket := Some(db.bucket.value - invalid);
      assert db.bucket.value == Restart(old(db.bucket), now, users).bucket.value;
      ok := true;
    }

    /** Goes through the bucket, record by record, in any order. */
    method ProcessSessions(b: Bucket, now: Time, users: map<Login, UserID>) returns (invalid: set<Token>)
      requires sessions == map[]
      modifies this
      ensures sessions == Restart(Some(b), now, users).sessions
      ensures forall t :: t in invalid <==> t in b && !Keeps(b[t], now, users)
    {
      invalid := {};
      var rest := b.Keys;
      while rest != {}
        invariant rest <= b.Keys
        invariant sessions == map t | t in b && t !in rest && Keeps(b[t], now, users) :: Restored(t, b[t], users)
        invariant forall t :: t in invalid <==> t in b && t !in rest && !Keeps(b[t], now, users)
        decreases rest
      {
        var t :| t in rest;
        rest := rest - {t};
        var r := Decode(b[t]);
        if r.Err? || now > r.value.expire || r.value.login !in users {
          invalid := invalid + {t};
        } else {
          sessions := sessions[t := Session(t, users[r.value.login], r.value.login, r.value.expire)];
        }
      }
    }

    /** A session of u under a new token; tx is how the transaction goes. */
    method New(u: User, token: Token, now: Time, tx: Tx) returns (s: Result<Session, StorageError>)
      requires Valid()
      modifies this, db
      ensures Valid() && Model() == Step(old(Model()), Sessions.New(token, u, now + sessionTTL, tx))
      ensures s == if tx == Done then Ok(Session(token, u.id, u.login, now + sessionTTL)) else Err(TxFailed)
      ensures sessions == if tx == Done then old(sessions)[token := s.value] else old(sessions)
      ensures tx == Done ==> db.bucket.Some? && token in db.bucket.value
    {
      var session := Session(token, u.id, u.login, now + sessionTTL);
      var ok := Store(session, tx);
      if !ok {
        return Err(TxFailed);
      }
      sessions := sessions[token := session];
      s := Ok(session);
    }

    /** Puts the record in a transaction, which creates the bucket if need be. */
    method Store(s: Session, tx: Tx) returns (ok: bool)
      modifies db
      ensures ok == (tx == Done)
      ensures db.bucket == if ok then Some(BucketOf(old(Model()))[s.token := Encode(s)]) else old(db.bucket)
    {
      var bkt := if db.bucket.Some? then db.bucket.value else map[];
      if tx != Done {
        return false;
      }
      var data := BboltEncode(s);
      db.bucket := Some(bkt[s.token := data[..]]);
      ok := true;
    }

    /** The session of the token, unless it has expired; an expired one is deleted. */
    method FindByToken(t: Token, now: Time, tx: Tx) returns (s: Result<Option<Session>, StorageError>)
      requires Valid()
      modifies this, db
      ensures Valid() && Model() == Step(old(Model()), Sessions.FindByToken(t, now, tx))
      ensures s.Ok? && s.value.Some? <==> t in old(sessions) && now <= old(sessions)[t].expire
      ensures s == Ok(None) && t in old(sessions) ==>
        sessions == old(sessions) - {t} && db.bucket.Some? && t !in db.bucket.value
      ensures t !in old(sessions) || now <= old(sessions)[t].expire ==> sessions == old(sessions)
      ensures s.Ok? && s.value.Some? ==> s.value.value == old(sessions)[t] && s.value.value.token == t
      ensures s.Err? <==> t in old(sessions) && Expired(old(sessions)[t], now) && tx != Done
    {
      if t !in sessions {
        return Ok(None);
      }
      if now > sessions[t].expire {
        var err := DeleteByToken(t, tx);
        return if err.Some? then Err(err.value) else Ok(None);
      }
      s := Ok(Some(sessions[t]));
    }

    method DeleteByToken(t: Token, tx: Tx) returns (err: Option<StorageError>)
      requires Valid()
      modifies this, db
      ensures Valid() && Model() == Step(old(Model()), Sessions.DeleteByToken(t, tx))
      ensures err.Some? <==> DeleteFails(old(Model()), tx)
      ensures err.None? <==> tx == Done && old(db.bucket).Some?
      ensures sessions == if err.None? then old(sessions) - {t} else old(sessions)
      ensures db.bucket == if err.None? then Some(old(db.bucket).value - {t}) else old(db.bucket)
      ensures err == Some(NoBucket) <==> old(db.bucket).None? && tx != BeginFails
    {
      if tx == BeginFails {
        return Some(TxFailed);
      }
      if db.bucket.None? {
        return Some(NoBucket);
      }
      if tx != Done {
        return Some(TxFailed);
      }
      db.bucket := Some(db.bucket.value - {t});
      sessions := sessions - {t};
      err := None;
    }
  }
}
