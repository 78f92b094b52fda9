/** app/repositories/user.py: UserRepository over the `users` table. Each
    operation is a function from the working tables to a Step (what the call
    returns and the tables it leaves); the class runs it on its session. */
module UserRepo {
  import opened Common
  import opened Seqs
  import opened Models
  import opened Database

  function IdIs(id: int): User -> bool { (u: User) => u.id == id }
  function IdIsNot(id: int): User -> bool { (u: User) => u.id != id }
  function YandexIdIs(yandexId: string): User -> bool { (u: User) => u.yandexId == yandexId }

  /** The row create_one inserts: the DTO's fields, the drawn id, and the
      column default is_superuser = False. */
  function NewUser(id: int, dto: UserCreate): User {
    User(id, dto.username, dto.phoneNumber, dto.yandexId, false)
  }

  /** update_one_by_yandex_id sets every DTO field except yandex_id. */
  function Renamed(u: User, dto: UserCreate): User {
    u.(username := dto.username, phoneNumber := dto.phoneNumber)
  }

  /** update_one_by_id sets the fields that are not None, never id. */
  function Patched(u: User, req: UserUpdateRequest): User {
    User(u.id, OrElse(req.username, u.username), OrElse(req.phoneNumber, u.phoneNumber),
         OrElse(req.yandexId, u.yandexId), OrElse(req.isSuperuser, u.isSuperuser))
  }

  // ---- effects of the statements on the tables ----

  function CreateEffect(t: Tables, id: int, dto: UserCreate): Result<Tables, DbError> {
    Write(t.(users := t.users + [NewUser(id, dto)]))
  }

  function UpdateByYandexIdEffect(t: Tables, dto: UserCreate): Result<Tables, DbError> {
    var i := IndexWhere(t.users, YandexIdIs(dto.yandexId));
    if i == -1 then Success(t) else Write(t.(users := t.users[i := Renamed(t.users[i], dto)]))
  }

  function UpdateByIdEffect(t: Tables, req: UserUpdateRequest): Result<Tables, DbError> {
    var i := IndexWhere(t.users, IdIs(req.id));
    if i == -1 then Success(t) else Write(t.(users := t.users[i := Patched(t.users[i], req)]))
  }

  function DeleteEffect(t: Tables, id: int): Result<Tables, DbError> {
    if !HasUser(t.users, id) then Success(t) else Write(t.(users := Filter(t.users, IdIsNot(id))))
  }

  // ---- the repository's operations ----

  function Create(t: Tables, id: int, dto: UserCreate, reachable: bool): Step<User> {
    Written(t, Attempt(reachable, CreateEffect(t, id, dto)), NewUser(id, dto))
  }

  function GetByYandexId(t: Tables, yandexId: string, reachable: bool): Step<Option<User>> {
    Queried(t, reachable, FirstWhere(t.users, YandexIdIs(yandexId)))
  }

  function GetById(t: Tables, id: int, reachable: bool): Step<Option<User>> {
    Queried(t, reachable, FirstWhere(t.users, IdIs(id)))
  }

  /** `scalar_one` turns "no row matched" into NoResultFound. */
  function UpdateByYandexId(t: Tables, dto: UserCreate, reachable: bool): Step<User> {
    var i := IndexWhere(t.users, YandexIdIs(dto.yandexId));
    if i == -1 then Step(Failure(InternalException), t)
    else Written(t, Attempt(reachable, UpdateByYandexIdEffect(t, dto)), Renamed(t.users[i], dto))
  }

  /** `scalar` turns "no row matched" into None. */
  function UpdateById(t: Tables, req: UserUpdateRequest, reachable: bool): Step<Option<User>> {
    var i := IndexWhere(t.users, IdIs(req.id));
    if i == -1 then Queried(t, reachable, None)
    else Written(t, Attempt(reachable, UpdateByIdEffect(t, req)), Some(Patched(t.users[i], req)))
  }

  function DeleteById(t: Tables, id: int, reachable: bool): Step<Option<int>> {
    if !HasUser(t.users, id) then Queried(t, reachable, None)
    else Written(t, Attempt(reachable, DeleteEffect(t, id)), Some(id))
  }

  // ---- what the operations guarantee ----

  /** Some row other than the one with `yandexId` already has this username or phone. */
  predicate TakenByOther(users: seq<User>, yandexId: string, username: string, phone: string) {
    exists j :: 0 <= j < |users| && users[j].yandexId != yandexId
      && (users[j].username == username || users[j].phoneNumber == phone)
  }

  /** With unique keys the lookup finds the one matching row, or None. */
  lemma GetByYandexIdFinds(t: Tables, yandexId: string, reachable: bool)
    requires Distinct(t.users, YandexIdKey)
    ensures GetByYandexId(t, yandexId, reachable).tables == t
    ensures !reachable ==> GetByYandexId(t, yandexId, reachable).result == Failure(InternalException)
    ensures reachable && !KeyIn(t.users, YandexIdKey, yandexId) ==>
      GetByYandexId(t, yandexId, reachable).result == Success(None)
    ensures reachable ==> forall j :: 0 <= j < |t.users| && t.users[j].yandexId == yandexId ==>
      GetByYandexId(t, yandexId, reachable).result == Success(Some(t.users[j]))
  {
    var i := IndexWhere(t.users, YandexIdIs(yandexId));
    if !KeyIn(t.users, YandexIdKey, yandexId) {
      assert forall j :: 0 <= j < |t.users| ==> !YandexIdIs(yandexId)(t.users[j]);
    } else {
      forall j | 0 <= j < |t.users| && t.users[j].yandexId == yandexId ensures i == j {
        assert YandexIdIs(yandexId)(t.users[j]);
        assert YandexIdKey(t.users[i]) == YandexIdKey(t.users[j]);
      }
    }
  }

  lemma GetByIdFinds(t: Tables, id: int, reachable: bool)
    requires Distinct(t.users, UserIdKey)
    ensures GetById(t, id, reachable).tables == t
    ensures !reachable ==> GetById(t, id, reachable).result == Failure(InternalException)
    ensures reachable && !HasUser(t.users, id) ==> GetById(t, id, reachable).result == Success(None)
    ensures reachable ==> forall j :: 0 <= j < |t.users| && t.users[j].id == id ==>
      GetById(t, id, reachable).result == Success(Some(t.users[j]))
  {
    var i := IndexWhere(t.users, IdIs(id));
    if !HasUser(t.users, id) {
      assert forall j :: 0 <= j < |t.users| ==> !IdIs(id)(t.users[j]);
    } else {
      forall j | 0 <= j < |t.users| && t.users[j].id == id ensures i == j {
        assert IdIs(id)(t.users[j]);
        assert UserIdKey(t.users[i]) == UserIdKey(t.users[j]);
      }
    }
  }

  /** Appending a user with a fresh id keeps the tables consistent exactly
      when its username, phone number and Yandex id are all new. */
  lemma CreateOutcome(t: Tables, id: int, dto: UserCreate, reachable: bool)
    requires Consistent(t) && !HasUser(t.users, id)
    ensures Create(t, id, dto, reachable).result.Success? <==>
      reachable && !KeyIn(t.users, UsernameKey, dto.username)
      && !KeyIn(t.users, PhoneKey, dto.phoneNumber) && !KeyIn(t.users, YandexIdKey, dto.yandexId)
    ensures Create(t, id, dto, reachable).result.Success? ==>
      && Create(t, id, dto, reachable).result.value == User(id, dto.username, dto.phoneNumber, dto.yandexId, false)
      && Create(t, id, dto, reachable).tables == t.(users := t.users + [NewUser(id, dto)])
    ensures Create(t, id, dto, reachable).result.Failure? ==>
      Create(t, id, dto, reachable) == Step(Failure(InternalException), t)
  {
    var row := NewUser(id, dto);
    var c := t.(users := t.users + [row]);
    DistinctAppend(t.users, row, UserIdKey);
    DistinctAppend(t.users, row, UsernameKey);
    DistinctAppend(t.users, row, PhoneKey);
    DistinctAppend(t.users, row, YandexIdKey);
    forall k ensures HasUser(t.users, k) ==> HasUser(c.users, k) {
      KeyInAppend(t.users, row, UserIdKey, k);
    }
    assert ReferencesExist(c);
  }

  /** A created user can be read back by its Yandex id and by its id. */
  lemma CreateThenGet(t: Tables, id: int, dto: UserCreate)
    requires Consistent(t) && !HasUser(t.users, id)
    requires Create(t, id, dto, true).result.Success?
    ensures GetByYandexId(Create(t, id, dto, true).tables, dto.yandexId, true).result
      == Success(Some(NewUser(id, dto)))
    ensures GetById(Create(t, id, dto, true).tables, id, true).result == Success(Some(NewUser(id, dto)))
  {
    CreateOutcome(t, id, dto, true);
    var t' := Create(t, id, dto, true).tables;
    assert t'.users[|t.users|] == NewUser(id, dto);
    GetByYandexIdFinds(t', dto.yandexId, true);
    GetByIdFinds(t', id, true);
  }

  /** Renaming the row with this Yandex id keeps the tables consistent
      exactly when no other row holds the new username or phone number. */
  lemma UpdateByYandexIdOutcome(t: Tables, dto: UserCreate, reachable: bool)
    requires Consistent(t)
    ensures UpdateByYandexId(t, dto, reachable).result.Success? <==>
      reachable && KeyIn(t.users, YandexIdKey, dto.yandexId)
      && !TakenByOther(t.users, dto.yandexId, dto.username, dto.phoneNumber)
    ensures UpdateByYandexId(t, dto, reachable).result.Success? ==>
      var t' := UpdateByYandexId(t, dto, reachable).tables;
      var row := UpdateByYandexId(t, dto, reachable).result.value;
      && GetByYandexId(t, dto.yandexId, true).result == Success(Some(t.users[IndexWhere(t.users, YandexIdIs(dto.yandexId))]))
      && row == Renamed(t.users[IndexWhere(t.users, YandexIdIs(dto.yandexId))], dto)
      && row.yandexId == dto.yandexId && row.username == dto.username && row.phoneNumber == dto.phoneNumber
      && t'.refreshSessions == t.refreshSessions && t'.audioFiles == t.audioFiles
      && |t'.users| == |t.users|
      && (forall j :: 0 <= j < |t.users| ==>
            t'.users[j] == if t.users[j].yandexId == dto.yandexId then Renamed(t.users[j], dto) else t.users[j])
    ensures UpdateByYandexId(t, dto, reachable).result.Failure? ==>
      UpdateByYandexId(t, dto, reachable) == Step(Failure(InternalException), t)
  {
    var i := IndexWhere(t.users, YandexIdIs(dto.yandexId));
    GetByYandexIdFinds(t, dto.yandexId, true);
    if i == -1 {
      assert !KeyIn(t.users, YandexIdKey, dto.yandexId) by {
        assert forall j :: 0 <= j < |t.users| ==> !YandexIdIs(dto.yandexId)(t.users[j]);
      }
    } else {
      var row := Renamed(t.users[i], dto);
      var us := t.users[i := row];
      var c := t.(users := us);
      assert t.users[i].yandexId == dto.yandexId;
      forall j | 0 <= j < |t.users| && j != i ensures t.users[j].yandexId != dto.yandexId {
        if j < i { assert !YandexIdIs(dto.yandexId)(t.users[j]); }
        else { assert YandexIdKey(t.users[i]) != YandexIdKey(t.users[j]); }
      }
      DistinctUpdateSameKey(t.users, i, row, UserIdKey);
      DistinctUpdateSameKey(t.users, i, row, YandexIdKey);
      DistinctUpdate(t.users, i, row, UsernameKey);
      DistinctUpdate(t.users, i, row, PhoneKey);
      forall k ensures HasUser(us, k) <==> HasUser(t.users, k) {
        KeyInUpdateSameKey(t.users, i, row, UserIdKey, k);
      }
      assert ReferencesExist(c) <==> ReferencesExist(t);
      assert Consistent(c) <==> !TakenByOther(t.users, dto.yandexId, dto.username, dto.phoneNumber);
    }
  }

  /** Updating by id changes exactly the fields the request sets, and is
      rejected when another row already holds a new unique value. */
  lemma UpdateByIdOutcome(t: Tables, req: UserUpdateRequest, reachable: bool)
    requires Consistent(t)
    ensures !HasUser(t.users, req.id) ==> UpdateById(t, req, reachable) == Queried(t, reachable, None)
    ensures HasUser(t.users, req.id) ==>
      (UpdateById(t, req, reachable).result.Success? <==>
        reachable
        && (req.username.Some? ==> forall j :: 0 <= j < |t.users| && t.users[j].id != req.id ==> t.users[j].username != req.username.value)
        && (req.phoneNumber.Some? ==> forall j :: 0 <= j < |t.users| && t.users[j].id != req.id ==> t.users[j].phoneNumber != req.phoneNumber.value)
        && (req.yandexId.Some? ==> forall j :: 0 <= j < |t.users| && t.users[j].id != req.id ==> t.users[j].yandexId != req.yandexId.value))
    ensures HasUser(t.users, req.id) && UpdateById(t, req, reachable).result.Success? ==>
      var t' := UpdateById(t, req, reachable).tables;
      && UpdateById(t, req, reachable).result.value.Some?
      && UpdateById(t, req, reachable).result.value.value.id == req.id
      && (forall j :: 0 <= j < |t.users| && t.users[j].id == req.id ==>
            UpdateById(t, req, reachable).result.value.value == Patched(t.users[j], req) == t'.users[j])
      && t'.refreshSessions == t.refreshSessions && t'.audioFiles == t.audioFiles
      && |t'.users| == |t.users|
      && (forall j :: 0 <= j < |t.users| ==>
            t'.users[j] == if t.users[j].id == req.id then Patched(t.users[j], req) else t.users[j])
    ensures UpdateById(t, req, reachable).result.Failure? ==>
      UpdateById(t, req, reachable) == Step(Failure(InternalException), t)
  {
    var i := IndexWhere(t.users, IdIs(req.id));
    if i == -1 {
      assert !HasUser(t.users, req.id) by {
        assert forall j :: 0 <= j < |t.users| ==> !IdIs(req.id)(t.users[j]);
      }
    } else {
      var row := Patched(t.users[i], req);
      var us := t.users[i := row];
      var c := t.(users := us);
      assert t.users[i].id == req.id;
      forall j | 0 <= j < |t.users| && j != i ensures t.users[j].id != req.id {
        if j < i { assert !IdIs(req.id)(t.users[j]); }
        else { assert UserIdKey(t.users[i]) != UserIdKey(t.users[j]); }
      }
      DistinctUpdateSameKey(t.users, i, row, UserIdKey);
      DistinctUpdate(t.users, i, row, UsernameKey);
      DistinctUpdate(t.users, i, row, PhoneKey);
      DistinctUpdate(t.users, i, row, YandexIdKey);
      forall k ensures HasUser(us, k) <==> HasUser(t.users, k) {
        KeyInUpdateSameKey(t.users, i, row, UserIdKey, k);
      }
      assert ReferencesExist(c) <==> ReferencesExist(t);
    }
  }

  /** Deleting removes exactly the row with that id, and is rejected while a
      refresh session or an audio file still refers to it. */
  lemma DeleteOutcome(t: Tables, id: int, reachable: bool)
    requires Consistent(t)
    ensures !HasUser(t.users, id) ==> DeleteById(t, id, reachable) == Queried(t, reachable, None)
    ensures HasUser(t.users, id) ==>
      (DeleteById(t, id, reachable).result.Success? <==>
        reachable
        && (forall i :: 0 <= i < |t.refreshSessions| ==> t.refreshSessions[i].userId != id)
        && (forall i :: 0 <= i < |t.audioFiles| ==> t.audioFiles[i].userId != id))
    ensures HasUser(t.users, id) && DeleteById(t, id, reachable).result.Success? ==>
      var t' := DeleteById(t, id, reachable).tables;
      && DeleteById(t, id, reachable).result.value == Some(id)
      && !HasUser(t'.users, id)
      && (forall u :: u in t'.users <==> u in t.users && u.id != id)
      && t'.refreshSessions == t.refreshSessions && t'.audioFiles == t.audioFiles
    ensures DeleteById(t, id, reachable).result.Failure? ==>
      DeleteById(t, id, reachable) == Step(Failure(InternalException), t)
  {
    if HasUser(t.users, id) {
      var us := Filter(t.users, IdIsNot(id));
      var c := t.(users := us);
      DistinctFilter(t.users, IdIsNot(id), UserIdKey);
      DistinctFilter(t.users, IdIsNot(id), UsernameKey);
      DistinctFilter(t.users, IdIsNot(id), PhoneKey);
      DistinctFilter(t.users, IdIsNot(id), YandexIdKey);
      forall k ensures HasUser(us, k) <==> HasUser(t.users, k) && k != id {
        KeyInFilter(t.users, IdIsNot(id), UserIdKey, k);
        if HasUser(t.users, k) && k != id {
          var j :| 0 <= j < |t.users| && UserIdKey(t.users[j]) == k;
          assert IdIsNot(id)(t.users[j]);
        }
      }
      assert Consistent(c) <==>
        (forall i :: 0 <= i < |t.refreshSessions| ==> t.refreshSessions[i].userId != id)
        && (forall i :: 0 <= i < |t.audioFiles| ==> t.audioFiles[i].userId != id);
    }
  }

  /** After a successful delete the id is gone. */
  lemma DeleteThenGet(t: Tables, id: int)
    requires Consistent(t) && HasUser(t.users, id)
    requires DeleteById(t, id, true).result.Success?
    ensures GetById(DeleteById(t, id, true).tables, id, true).result == Success(None)
  {
    DeleteOutcome(t, id, true);
    var t' := DeleteById(t, id, true).tables;
    GetByIdFinds(t', id, true);
  }

  /** UserRepository: every statement runs on the session it was built with. */
  class UserRepository {
    const session: DbSession

    constructor (session: DbSession)
      ensures this.session == session
    {
      this.session := session;
    }

    method CreateOne(user: UserCreate) returns (r: Result<User, Error>)
      requires session.Valid()
      modifies session`work, session.db`journal, session.db`nextUserId
      ensures session.Valid()
      ensures session.db.nextUserId == old(session.db.nextUserId) + 1
      ensures Step(r, session.work) == Create(old(session.work), old(session.db.nextUserId), user, session.db.reachable)
      ensures session.db.journal == old(session.db.journal) + [Executed(Insert(UsersTable))]
    {
      var id := session.NextUserId();
      var t := session.work;
      assert !HasUser(t.users, id);
      CreateOutcome(t, id, user, session.db.reachable);
      var e := session.Run(Insert(UsersTable), CreateEffect(session.work, id, user));
      r := Written(t, e, NewUser(id, user)).result;
    }

    method GetOneByYandexId(yandexId: string) returns (r: Result<Option<User>, Error>)
      requires session.Valid()
      modifies session`work, session.db`journal
      ensures session.Valid() && unchanged(session)
      ensures r == GetByYandexId(session.work, yandexId, session.db.reachable).result
      ensures session.db.journal == old(session.db.journal) + [Executed(Select(UsersTable))]
    {
      var e := session.Run(Select(UsersTable), Success(session.work));
      r := GetByYandexId(session.work, yandexId, session.db.reachable).result;
    }

    method GetOneById(id: int) returns (r: Result<Option<User>, Error>)
      requires session.Valid()
      modifies session`work, session.db`journal
      ensures session.Valid() && unchanged(session)
      ensures r == GetById(session.work, id, session.db.reachable).result
      ensures session.db.journal == old(session.db.journal) + [Executed(Select(UsersTable))]
    {
      var e := session.Run(Select(UsersTable), Success(session.work));
      r := GetById(session.work, id, session.db.reachable).result;
    }

    method UpdateOneByYandexId(user: UserCreate) returns (r: Result<User, Error>)
      requires session.Valid()
      modifies session`work, session.db`journal
      ensures session.Valid()
      ensures Step(r, session.work) == UpdateByYandexId(old(session.work), user, session.db.reachable)
      ensures session.db.journal == old(session.db.journal) + [Executed(Update(UsersTable))]
    {
      var t := session.work;
      var i := IndexWhere(session.work.users, YandexIdIs(user.yandexId));
      UpdateByYandexIdOutcome(t, user, session.db.reachable);
      var e := session.Run(Update(UsersTable), UpdateByYandexIdEffect(session.work, user));
      if i == -1 {
        r := Failure(InternalException);
      } else {
        r := Written(t, e, Renamed(t.users[i], user)).result;
      }
    }

    method UpdateOneById(user: UserUpdateRequest) returns (r: Result<Option<User>, Error>)
      requires session.Valid()
      modifies session`work, session.db`journal
      ensures session.Valid()
      ensures Step(r, session.work) == UpdateById(old(session.work), user, session.db.reachable)
      ensures session.db.journal == old(session.db.journal) + [Executed(Update(UsersTable))]
    {
      var t := session.work;
      var i := IndexWhere(session.work.users, IdIs(user.id));
      UpdateByIdOutcome(t, user, session.db.reachable);
      var e := session.Run(Update(UsersTable), UpdateByIdEffect(session.work, user));
      if i == -1 {
        r := Queried(t, session.db.reachable, None).result;
      } else {
        r := Written(t, e, Some(Patched(t.users[i], user))).result;
      }
    }

    method DeleteOneById(id: int) returns (r: Result<Option<int>, Error>)
      requires session.Valid()
      modifies session`work, session.db`journal
      ensures session.Valid()
      ensures Step(r, session.work) == DeleteById(old(session.work), id, session.db.reachable)
      ensures session.db.journal == old(session.db.journal) + [Executed(Delete(UsersTable))]
    {
      var t := session.work;
      DeleteOutcome(t, id, session.db.reachable);
      var found := HasUser(session.work.users, id);
      forall j | 0 <= j < |Filter(t.users, IdIsNot(id))|
        ensures Filter(t.users, IdIsNot(id))[j].id < session.db.nextUserId
      {
        assert Filter(t.users, IdIsNot(id))[j] in t.users;
      }
      var e := session.Run(Delete(UsersTable), DeleteEffect(session.work, id));
      if !found {
        r := Queried(t, session.db.reachable, None).result;
      } else {
        r := Written(t, e, Some(id)).result;
      }
    }
  }
}
