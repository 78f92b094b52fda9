/** app/services/refresh_session.py: issuing a refresh token, storing it in a
    refresh session, and issuing the access token beside it. */
module RefreshSessionSvc {
  import opened Common
  import opened Uuid
  import opened Tokens
  import opened Seqs
  import opened Models
  import opened Database
  import opened RefreshSessionRepo
  import opened Uow

  /** RefreshSessionResponseDTO. */
  datatype TokenPair = TokenPair(accessToken: AccessToken, refreshToken: string)

  /** create_tokens on committed tables `t`, with the id the session
      sequence hands out next, 16 random bytes for uuid4, the database's
      now() and the application's clock. */
  function IssuedTokens(t: Tables, nextSessionId: int, userInfo: RefreshSessionRequest, random: seq<Byte>,
                        dbNow: Instant, timeNow: Instant, secretKey: string, reachable: bool): Outcome<TokenPair>
    requires |random| == 16
  {
    var refreshToken := CreateRefreshToken(random);
    var s := Create(t, nextSessionId, RefreshSessionCreate(userInfo.userId, refreshToken), dbNow, reachable);
    if s.result.Failure? then Outcome(Failure(s.result.error), t)
    else
      var accessToken := CreateAccessToken(userInfo.userId, userInfo.isSuperuser, timeNow, secretKey);
      Outcome(Success(TokenPair(accessToken, refreshToken)), s.tables)
  }

  /** Tokens are issued exactly when the user exists and the database is
      reachable; then one refresh session holding the returned refresh token
      (a canonical uuid4) is committed, and the access token carries the
      user's id and role and expires 900 seconds after its second of issue. Otherwise
      nothing is committed and InternalException is raised. */
  lemma IssuedTokensOutcome(t: Tables, nextSessionId: int, userInfo: RefreshSessionRequest, random: seq<Byte>,
                            dbNow: Instant, timeNow: Instant, secretKey: string, reachable: bool)
    requires |random| == 16
    requires Consistent(t) && !KeyIn(t.refreshSessions, SessionIdKey, nextSessionId)
    ensures var o := IssuedTokens(t, nextSessionId, userInfo, random, dbNow, timeNow, secretKey, reachable);
      o.result.Success? <==> reachable && HasUser(t.users, userInfo.userId)
    ensures var o := IssuedTokens(t, nextSessionId, userInfo, random, dbNow, timeNow, secretKey, reachable);
      o.result.Success? ==>
        && o.committed == t.(refreshSessions := t.refreshSessions +
             [RefreshSession(nextSessionId, userInfo.userId, o.result.value.refreshToken, dbNow + FifteenMinutes)])
        && ParseCanonical(o.result.value.refreshToken) == Some(Uuid4(random))
        && ReadClaims(o.result.value.accessToken.payload)
             == Some(AccessClaims(userInfo.userId, userInfo.isSuperuser, NumericDate(timeNow), NumericDate(timeNow) + 900))
        && o.result.value.accessToken.key == secretKey
        && o.result.value.accessToken.algorithm == Hs256
    ensures var o := IssuedTokens(t, nextSessionId, userInfo, random, dbNow, timeNow, secretKey, reachable);
      o.result.Failure? ==> o == Outcome(Failure(InternalException), t)
  {
    RefreshTokenFormat(random);
    AccessTokenClaims(userInfo.userId, userInfo.isSuperuser, timeNow, secretKey);
    CreateOutcome(t, nextSessionId, RefreshSessionCreate(userInfo.userId, CreateRefreshToken(random)), dbNow, reachable);
  }

  /** The stored session expires 15 minutes after the database's now(), the
      access token 900 seconds after the second of the application's clock
      reading; the two expiries are apart by as many whole seconds as the two
      readings. When now() is not later than the application's reading, as
      when the clocks agree (the transaction starts before the access token
      is built), the session expires within or before the second the
      token's exp names. */
  lemma SessionExpiresWithAccessToken(t: Tables, nextSessionId: int, userInfo: RefreshSessionRequest,
                                      random: seq<Byte>, dbNow: Instant, timeNow: Instant, secretKey: string)
    requires |random| == 16
    requires Consistent(t) && !KeyIn(t.refreshSessions, SessionIdKey, nextSessionId)
    requires HasUser(t.users, userInfo.userId)
    ensures var o := IssuedTokens(t, nextSessionId, userInfo, random, dbNow, timeNow, secretKey, true);
      && o.result.Success?
      && var expireIn := o.committed.refreshSessions[|t.refreshSessions|].expireIn;
         var exp := ReadClaims(o.result.value.accessToken.payload).value.expiresAt;
         && exp - NumericDate(expireIn) == NumericDate(timeNow) - NumericDate(dbNow)
         && (dbNow <= timeNow ==> NumericDate(expireIn) <= exp && expireIn < (exp + 1) * MicrosPerSecond)
  {
    IssuedTokensOutcome(t, nextSessionId, userInfo, random, dbNow, timeNow, secretKey, true);
    NumericDateShift(dbNow);
    NumericDateShift(timeNow);
    assert timeNow < (NumericDate(timeNow) + 1) * MicrosPerSecond;
  }

  class RefreshSessionService {
    const uow: UnitOfWork

    constructor (uow: UnitOfWork)
      ensures this.uow == uow
    {
      this.uow := uow;
    }

    /** create_tokens: the refresh token is drawn first, the session is
        stored and committed inside the unit of work, and the access token is
        built after the exit; a failed insert leaves by the exit's rollback. */
    method CreateTokens(userInfo: RefreshSessionRequest, random: seq<Byte>, dbNow: Instant, timeNow: Instant,
                        secretKey: string) returns (r: Result<TokenPair, Error>)
      requires |random| == 16
      requires uow.db.Valid()
      modifies uow, uow.db
      ensures uow.db.Valid() && uow.Entered() && !uow.session.open
      ensures var o := IssuedTokens(old(uow.db.durable), old(uow.db.nextSessionId), userInfo, random,
                                    dbNow, timeNow, secretKey, uow.db.reachable);
        r == o.result && uow.db.durable == o.committed
      ensures r.Success? ==>
        uow.db.journal == old(uow.db.journal) + [Executed(Insert(RefreshSessionsTable))] + [Committed] + [RolledBack, Closed]
      ensures r.Failure? ==>
        uow.db.journal == old(uow.db.journal) + [Executed(Insert(RefreshSessionsTable))] + [RolledBack, Closed]
    {
      ghost var t := uow.db.durable;
      ghost var o := IssuedTokens(t, uow.db.nextSessionId, userInfo, random, dbNow, timeNow, secretKey, uow.db.reachable);
      var refreshToken := CreateRefreshToken(random);
      uow.Enter();
      var repo := uow.GetRefreshSessionRepo();
      var stored := repo.CreateOne(RefreshSessionCreate(userInfo.userId, refreshToken), dbNow);
      if stored.Failure? {
        uow.Exit();
        assert o.result == Failure(stored.error) && o.committed == t;
        return Failure(stored.error);
      }
      uow.Commit();
      assert uow.db.durable == o.committed;
      uow.Exit();
      var accessToken := CreateAccessToken(userInfo.userId, userInfo.isSuperuser, timeNow, secretKey);
      r := Success(TokenPair(accessToken, refreshToken));
    }
  }
}
