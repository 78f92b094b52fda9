/** app/services/user.py: authenticate_with_yandex. The two HTTP exchanges
    with Yandex are not modelled; their outcome is the input `YandexExchange`.
    What is modelled is the storage part: look the user up by Yandex id,
    then keep, rename or create it. */
module UserSvc {
  import opened Common
  import opened Seqs
  import opened Models
  import opened Database
  import opened UserRepo
  import opened Uow

  /** login, default_phone.number and id from the user-info response. */
  datatype YandexUser = YandexUser(username: string, phoneNumber: string, yandexId: string)

  /** Either an httpx.HTTPError somewhere in the exchanges, or the access
      token field and the user info that were read. */
  datatype YandexExchange = HttpFailure | Exchanged(accessToken: string, info: YandexUser)

  function AsUserCreate(info: YandexUser): UserCreate {
    UserCreate(info.yandexId, info.username, info.phoneNumber)
  }

  /** The stored username or phone number is not the one Yandex reports. */
  predicate Differs(u: User, info: YandexUser) {
    info.username != u.username || info.phoneNumber != u.phoneNumber
  }

  /** model_validate of a repository result into UserAuthenticatedResponseDTO. */
  function Respond(r: Result<User, Error>): Result<UserAuthenticated, Error> {
    if r.Success? then Success(AuthenticatedFrom(r.value)) else Failure(r.error)
  }

  // ---- the storage part as written ----

  /** The lookup and its three branches. The renaming branch returns from
      inside the unit of work without a commit, so the exit's rollback
      discards the update: the committed tables stay `t`. */
  function StoredAsWritten(t: Tables, nextUserId: int, info: YandexUser, reachable: bool): Outcome<UserAuthenticated> {
    var found := GetByYandexId(t, info.yandexId, reachable);
    if found.result.Failure? then Outcome(Failure(found.result.error), t)
    else if found.result.value.Some? then
      var u := found.result.value.value;
      if Differs(u, info) then Outcome(Respond(UpdateByYandexId(t, AsUserCreate(info), reachable).result), t)
      else Outcome(Success(AuthenticatedFrom(u)), t)
    else
      var created := Create(t, nextUserId, AsUserCreate(info), reachable);
      Outcome(Respond(created.result), if created.result.Success? then created.tables else t)
  }

  /** authenticate_with_yandex as written: an HTTP error becomes
      InternalException; an empty access token is not rejected, because the
      exception object at line 55 is constructed and never raised. */
  function Authenticated(t: Tables, nextUserId: int, ex: YandexExchange, reachable: bool): Outcome<UserAuthenticated> {
    match ex
    case HttpFailure => Outcome(Failure(InternalException), t)
    case Exchanged(_, info) => StoredAsWritten(t, nextUserId, info, reachable)
  }

  /** Any failure leaves the committed tables as they were and surfaces as
      InternalException; an HTTP error or an unreachable database always fails. */
  lemma AuthenticatedFailureIsAtomic(t: Tables, nextUserId: int, ex: YandexExchange, reachable: bool)
    requires Consistent(t) && !HasUser(t.users, nextUserId)
    ensures ex.HttpFailure? || !reachable ==> Authenticated(t, nextUserId, ex, reachable).result.Failure?
    ensures Authenticated(t, nextUserId, ex, reachable).result.Failure? ==>
      Authenticated(t, nextUserId, ex, reachable) == Outcome(Failure(InternalException), t)
  {
    if ex.Exchanged? {
      GetByYandexIdFinds(t, ex.info.yandexId, reachable);
      UpdateByYandexIdOutcome(t, AsUserCreate(ex.info), reachable);
      CreateOutcome(t, nextUserId, AsUserCreate(ex.info), reachable);
    }
  }

  /** A known user whose username and phone are unchanged is returned as
      stored, and nothing changes. */
  lemma FoundUnchanged(t: Tables, nextUserId: int, accessToken: string, info: YandexUser, j: int)
    requires Consistent(t)
    requires 0 <= j < |t.users| && t.users[j].yandexId == info.yandexId && !Differs(t.users[j], info)
    ensures Authenticated(t, nextUserId, Exchanged(accessToken, info), true)
      == Outcome(Success(AuthenticatedFrom(t.users[j])), t)
  {
    GetByYandexIdFinds(t, info.yandexId, true);
  }

  /** A new Yandex id is stored as a new non-superuser with the next id,
      unless its username or phone number is already taken. */
  lemma NotFoundCreates(t: Tables, nextUserId: int, accessToken: string, info: YandexUser)
    requires Consistent(t) && !HasUser(t.users, nextUserId)
    requires !KeyIn(t.users, YandexIdKey, info.yandexId)
    ensures var o := Authenticated(t, nextUserId, Exchanged(accessToken, info), true);
      && (o.result.Success? <==> !KeyIn(t.users, UsernameKey, info.username) && !KeyIn(t.users, PhoneKey, info.phoneNumber))
      && (o.result.Success? ==>
            && o.result.value == UserAuthenticated(info.yandexId, info.username, info.phoneNumber, nextUserId, false)
            && o.committed == t.(users := t.users + [User(nextUserId, info.username, info.phoneNumber, info.yandexId, false)]))
  {
    GetByYandexIdFinds(t, info.yandexId, true);
    CreateOutcome(t, nextUserId, AsUserCreate(info), true);
  }

  /** The renaming branch as written: the response carries the new username
      and phone number, but the committed row still has the old ones. */
  lemma FoundChangedIsDiscarded(t: Tables, nextUserId: int, accessToken: string, info: YandexUser, j: int)
    requires Consistent(t)
    requires 0 <= j < |t.users| && t.users[j].yandexId == info.yandexId && Differs(t.users[j], info)
    requires !TakenByOther(t.users, info.yandexId, info.username, info.phoneNumber)
    ensures var o := Authenticated(t, nextUserId, Exchanged(accessToken, info), true);
      && o.result == Success(UserAuthenticated(info.yandexId, info.username, info.phoneNumber,
                                               t.users[j].id, t.users[j].isSuperuser))
      && GetByYandexId(o.committed, info.yandexId, true).result == Success(Some(t.users[j]))
      && AuthenticatedFrom(t.users[j]) != o.result.value
  {
    GetByYandexIdFinds(t, info.yandexId, true);
    UpdateByYandexIdOutcome(t, AsUserCreate(info), true);
  }

  /** An empty access token from Yandex is accepted: a new user is created
      with it all the same. */
  lemma EmptyTokenAccepted(t: Tables, nextUserId: int, info: YandexUser)
    requires Consistent(t) && !HasUser(t.users, nextUserId)
    requires !KeyIn(t.users, YandexIdKey, info.yandexId)
    requires !KeyIn(t.users, UsernameKey, info.username) && !KeyIn(t.users, PhoneKey, info.phoneNumber)
    ensures Authenticated(t, nextUserId, Exchanged("", info), true).result.Success?
  {
    NotFoundCreates(t, nextUserId, "", info);
  }

  // ---- the storage part as evidently intended ----

  /** As StoredAsWritten, but the renamed row is committed. */
  function Stored(t: Tables, nextUserId: int, info: YandexUser, reachable: bool): Outcome<UserAuthenticated> {
    var found := GetByYandexId(t, info.yandexId, reachable);
    if found.result.Failure? then Outcome(Failure(found.result.error), t)
    else if found.result.value.Some? then
      var u := found.result.value.value;
      if Differs(u, info) then
        var updated := UpdateByYandexId(t, AsUserCreate(info), reachable);
        Outcome(Respond(updated.result), updated.tables)
      else Outcome(Success(AuthenticatedFrom(u)), t)
    else
      var created := Create(t, nextUserId, AsUserCreate(info), reachable);
      Outcome(Respond(created.result), created.tables)
  }

  /** As Authenticated, but an empty access token raises InternalException. */
  function AuthenticatedIntended(t: Tables, nextUserId: int, ex: YandexExchange, reachable: bool): Outcome<UserAuthenticated> {
    match ex
    case HttpFailure => Outcome(Failure(InternalException), t)
    case Exchanged(accessToken, info) =>
      if accessToken == "" then Outcome(Failure(InternalException), t)
      else Stored(t, nextUserId, info, reachable)
  }

  /** A successful response describes the committed row for its Yandex id,
      with the username and phone number Yandex reported, in consistent
      tables; a failure is InternalException and commits nothing. */
  predicate RespondsWithStoredUser(t: Tables, info: YandexUser, o: Outcome<UserAuthenticated>) {
    && (o.result.Success? ==>
          && o.result.value.yandexId == info.yandexId
          && o.result.value.username == info.username
          && o.result.value.phoneNumber == info.phoneNumber
          && Consistent(o.committed)
          && GetByYandexId(o.committed, info.yandexId, true).result
               == Success(Some(User(o.result.value.id, o.result.value.username, o.result.value.phoneNumber,
                                    o.result.value.yandexId, o.result.value.isSuperuser))))
    && (o.result.Failure? ==> o == Outcome(Failure(InternalException), t))
  }

  /** The branch for a known Yandex id: kept or renamed and committed. */
  lemma StoredFound(t: Tables, nextUserId: int, info: YandexUser, j: int)
    requires Consistent(t)
    requires 0 <= j < |t.users| && t.users[j].yandexId == info.yandexId
    ensures RespondsWithStoredUser(t, info, Stored(t, nextUserId, info, true))
  {
    GetByYandexIdFinds(t, info.yandexId, true);
    UpdateByYandexIdOutcome(t, AsUserCreate(info), true);
    var updated := UpdateByYandexId(t, AsUserCreate(info), true);
    if Differs(t.users[j], info) && updated.result.Success? {
      var t' := updated.tables;
      assert Consistent(t') by {
        assert UpdateByYandexIdEffect(t, AsUserCreate(info)).Success?;
      }
      GetByYandexIdFinds(t', info.yandexId, true);
      assert t'.users[j] == Renamed(t.users[j], AsUserCreate(info));
    }
  }

  /** The branch for a new Yandex id: created and committed. */
  lemma StoredNew(t: Tables, nextUserId: int, info: YandexUser)
    requires Consistent(t) && !HasUser(t.users, nextUserId)
    requires !KeyIn(t.users, YandexIdKey, info.yandexId)
    ensures RespondsWithStoredUser(t, info, Stored(t, nextUserId, info, true))
  {
    GetByYandexIdFinds(t, info.yandexId, true);
    CreateOutcome(t, nextUserId, AsUserCreate(info), true);
    var created := Create(t, nextUserId, AsUserCreate(info), true);
    if created.result.Success? {
      CreateThenGet(t, nextUserId, AsUserCreate(info));
      CreateKeepsConsistent(t, nextUserId, AsUserCreate(info));
    }
  }

  /** What the response promises holds in the committed tables: a successful
      authentication had a non-empty Yandex token, and the user it returns
      is the committed row for that Yandex id, with the username and phone
      number Yandex reported. A failure commits nothing. */
  lemma IntendedReturnsStoredUser(t: Tables, nextUserId: int, ex: YandexExchange, reachable: bool)
    requires Consistent(t) && !HasUser(t.users, nextUserId)
    ensures var o := AuthenticatedIntended(t, nextUserId, ex, reachable);
      o.result.Success? ==> ex.Exchanged? && ex.accessToken != "" && RespondsWithStoredUser(t, ex.info, o)
    ensures var o := AuthenticatedIntended(t, nextUserId, ex, reachable);
      o.result.Failure? ==> o == Outcome(Failure(InternalException), t)
  {
    if ex.Exchanged? && ex.accessToken != "" {
      var info := ex.info;
      GetByYandexIdFinds(t, info.yandexId, reachable);
      if !reachable {
      } else if KeyIn(t.users, YandexIdKey, info.yandexId) {
        var j :| 0 <= j < |t.users| && t.users[j].yandexId == info.yandexId;
        StoredFound(t, nextUserId, info, j);
      } else {
        StoredNew(t, nextUserId, info);
      }
    }
  }

  /** The tables a successful create leaves are consistent. */
  lemma CreateKeepsConsistent(t: Tables, id: int, dto: UserCreate)
    requires Consistent(t) && !HasUser(t.users, id)
    requires Create(t, id, dto, true).result.Success?
    ensures Consistent(Create(t, id, dto, true).tables)
  {
    assert CreateEffect(t, id, dto).Success?;
  }

  /** The lookup finds a stored user whose username or phone number Yandex
      now reports differently. */
  predicate FoundChanged(t: Tables, info: YandexUser, reachable: bool) {
    var found := GetByYandexId(t, info.yandexId, reachable).result;
    found.Success? && found.value.Some? && Differs(found.value.value, info)
  }

  /** The lookup finds a stored user that Yandex reports unchanged. */
  predicate FoundUnchangedRow(t: Tables, info: YandexUser, reachable: bool) {
    var found := GetByYandexId(t, info.yandexId, reachable).result;
    found.Success? && found.value.Some? && !Differs(found.value.value, info)
  }

  class UserService {
    const uow: UnitOfWork

    constructor (uow: UnitOfWork)
      ensures this.uow == uow
    {
      this.uow := uow;
    }

    /** authenticate_with_yandex, after the HTTP exchanges. */
    method AuthenticateWithYandex(ex: YandexExchange) returns (r: Result<UserAuthenticated, Error>)
      requires uow.db.Valid()
      modifies uow, uow.db
      ensures uow.db.Valid()
      ensures var o := Authenticated(old(uow.db.durable), old(uow.db.nextUserId), ex, uow.db.reachable);
        r == o.result && uow.db.durable == o.committed
      ensures ex.HttpFailure? ==> uow.db.journal == old(uow.db.journal)
      ensures ex.Exchanged? && GetByYandexId(old(uow.db.durable), ex.info.yandexId, uow.db.reachable).result.Failure? ==>
        uow.db.journal == old(uow.db.journal) + [Executed(Select(UsersTable))] + [RolledBack, Closed]
      ensures ex.Exchanged? && FoundChanged(old(uow.db.durable), ex.info, uow.db.reachable) ==>
        uow.db.journal == old(uow.db.journal) + [Executed(Select(UsersTable))] + [Executed(Update(UsersTable))] + [RolledBack, Closed]
      ensures ex.Exchanged? && FoundUnchangedRow(old(uow.db.durable), ex.info, uow.db.reachable) ==>
        uow.db.journal == old(uow.db.journal) + [Executed(Select(UsersTable))] + [Committed] + [RolledBack, Closed]
      ensures ex.Exchanged? && GetByYandexId(old(uow.db.durable), ex.info.yandexId, uow.db.reachable).result == Success(None) ==>
        if r.Success? then
          uow.db.journal == old(uow.db.journal) + [Executed(Select(UsersTable))] + [Executed(Insert(UsersTable))] + [Committed] + [RolledBack, Closed]
        else
          uow.db.journal == old(uow.db.journal) + [Executed(Select(UsersTable))] + [Executed(Insert(UsersTable))] + [RolledBack, Closed]
    {
      if ex.HttpFailure? {
        return Failure(InternalException);
      }
      var info := ex.info;
      uow.Enter();
      var repo := uow.GetUserRepo();
      var found := repo.GetOneByYandexId(info.yandexId);
      if found.Failure? {
        uow.Exit();
        return Failure(found.error);
      }
      if found.value.Some? {
        var u := found.value.value;
        if Differs(u, info) {
          var updated := repo.UpdateOneByYandexId(AsUserCreate(info));
          uow.Exit();
          return Respond(updated);
        }
        uow.Commit();
        uow.Exit();
        return Success(AuthenticatedFrom(u));
      }
      var created := repo.CreateOne(AsUserCreate(info));
      if created.Failure? {
        uow.Exit();
        return Failure(created.error);
      }
      uow.Commit();
      uow.Exit();
      r := Success(AuthenticatedFrom(created.value));
    }
  }
}
