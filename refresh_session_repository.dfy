/** app/repositories/refresh_session.py: RefreshSessionRepository, whose only
    operation inserts one row into `refresh_sessions`. */
module RefreshSessionRepo {
  import opened Common
  import opened Seqs
  import opened Models
  import opened Database

  function TokenKey(s: RefreshSession): string { s.refreshToken }

  /** The row create_one inserts. expire_in is not in the DTO: the column's
      server default gives (now() at UTC) + 15 minutes, where now() is the
      start of the current transaction, `dbNow`. */
  function NewSession(id: int, dto: RefreshSessionCreate, dbNow: Instant): RefreshSession {
    RefreshSession(id, dto.userId, dto.refreshToken, dbNow + FifteenMinutes)
  }

  function CreateEffect(t: Tables, id: int, dto: RefreshSessionCreate, dbNow: Instant): Result<Tables, DbError> {
    Write(t.(refreshSessions := t.refreshSessions + [NewSession(id, dto, dbNow)]))
  }

  /** create_one returns nothing; its errors become InternalException. */
  function Create(t: Tables, id: int, dto: RefreshSessionCreate, dbNow: Instant, reachable: bool): Step<()> {
    Written(t, Attempt(reachable, CreateEffect(t, id, dto, dbNow)), ())
  }

  /** The insert succeeds exactly when the server is reachable and the user
      exists (the foreign key); it adds exactly one row and touches nothing
      else. */
  lemma CreateOutcome(t: Tables, id: int, dto: RefreshSessionCreate, dbNow: Instant, reachable: bool)
    requires Consistent(t) && !KeyIn(t.refreshSessions, SessionIdKey, id)
    ensures Create(t, id, dto, dbNow, reachable).result.Success? <==> reachable && HasUser(t.users, dto.userId)
    ensures Create(t, id, dto, dbNow, reachable).result.Success? ==>
      Create(t, id, dto, dbNow, reachable).tables ==
        t.(refreshSessions := t.refreshSessions + [RefreshSession(id, dto.userId, dto.refreshToken, dbNow + FifteenMinutes)])
    ensures Create(t, id, dto, dbNow, reachable).result.Failure? ==>
      Create(t, id, dto, dbNow, reachable) == Step(Failure(InternalException), t)
  {
    var row := NewSession(id, dto, dbNow);
    var c := t.(refreshSessions := t.refreshSessions + [row]);
    DistinctAppend(t.refreshSessions, row, SessionIdKey);
    assert c.refreshSessions[|t.refreshSessions|] == row;
    assert ReferencesExist(c) <==> HasUser(t.users, dto.userId);
  }

  /** refresh_token is not unique: a token already stored is accepted again. */
  lemma DuplicateTokenAccepted(t: Tables, id: int, dto: RefreshSessionCreate, dbNow: Instant)
    requires Consistent(t) && !KeyIn(t.refreshSessions, SessionIdKey, id) && HasUser(t.users, dto.userId)
    requires KeyIn(t.refreshSessions, TokenKey, dto.refreshToken)
    ensures Create(t, id, dto, dbNow, true).result.Success?
    ensures !Distinct(Create(t, id, dto, dbNow, true).tables.refreshSessions, TokenKey)
  {
    CreateOutcome(t, id, dto, dbNow, true);
    DistinctAppend(t.refreshSessions, NewSession(id, dto, dbNow), TokenKey);
  }

  /** RefreshSessionRepository: no lookup, update or delete exists. */
  class RefreshSessionRepository {
    const session: DbSession

    constructor (session: DbSession)
      ensures this.session == session
    {
      this.session := session;
    }

    method CreateOne(sessionInfo: RefreshSessionCreate, dbNow: Instant) returns (r: Result<(), Error>)
      requires session.Valid()
      modifies session`work, session.db`journal, session.db`nextSessionId
      ensures session.Valid()
      ensures session.db.nextSessionId == old(session.db.nextSessionId) + 1
      ensures Step(r, session.work) ==
        Create(old(session.work), old(session.db.nextSessionId), sessionInfo, dbNow, session.db.reachable)
      ensures session.db.journal == old(session.db.journal) + [Executed(Insert(RefreshSessionsTable))]
    {
      var id := session.NextSessionId();
      var t := session.work;
      assert !KeyIn(t.refreshSessions, SessionIdKey, id);
      CreateOutcome(t, id, sessionInfo, dbNow, session.db.reachable);
      var e := session.Run(Insert(RefreshSessionsTable), CreateEffect(session.work, id, sessionInfo, dbNow));
      r := Written(t, e, ()).result;
    }
  }
}
