/** The ORM models and DTOs of app/models/user.py, refresh_session.py and audio_file.py, the three tables they map
    to, and the integrity constraints PostgreSQL enforces on them. */
module Models {
  import opened Common
  import opened Seqs

  /** A row of `users` (app/models/user.py): id is the primary key; username,
      phone_number and yandex_id are unique; is_superuser defaults to False. */
  datatype User = User(id: int, username: string, phoneNumber: string, yandexId: string, isSuperuser: bool)

  /** A row of `refresh_sessions` (app/models/refresh_session.py): user_id
      references users.id; refresh_token is indexed but not unique. */
  datatype RefreshSession = RefreshSession(id: int, userId: int, refreshToken: string, expireIn: Instant)

  /** A row of `audio_files` (app/models/audio_file.py): user_id references
      users.id; filename_unique is unique; filename_original is not. */
  datatype AudioFile = AudioFile(id: int, userId: int, filenameOriginal: string, filenameUnique: string, filepath: string)

  /** UserCreateDTO, and UserUpdateDTO which adds nothing to it. */
  datatype UserCreate = UserCreate(yandexId: string, username: string, phoneNumber: string)

  /** UserUpdateRequestDTO: None means "leave the column alone". */
  datatype UserUpdateRequest = UserUpdateRequest(
    id: int, username: Option<string>, phoneNumber: Option<string>,
    yandexId: Option<string>, isSuperuser: Option<bool>)

  /** UserAuthenticatedResponseDTO, read from a stored row. */
  datatype UserAuthenticated = UserAuthenticated(
    yandexId: string, username: string, phoneNumber: string, id: int, isSuperuser: bool)

  function AuthenticatedFrom(u: User): UserAuthenticated {
    UserAuthenticated(u.yandexId, u.username, u.phoneNumber, u.id, u.isSuperuser)
  }

  datatype RefreshSessionRequest = RefreshSessionRequest(userId: int, isSuperuser: bool)

  datatype RefreshSessionCreate = RefreshSessionCreate(userId: int, refreshToken: string)

  datatype AudioFileSaveLocal = AudioFileSaveLocal(filepath: string, filenameUnique: string)

  datatype AudioFileCreateRequest = AudioFileCreateRequest(
    filepath: string, filenameUnique: string, userId: int, filenameOriginal: string)

  datatype AudioFileCreateResponse = AudioFileCreateResponse(filenameOriginal: string, filenameUnique: string)

  /** The database's contents. Row order stands for the order a scan returns. */
  datatype Tables = Tables(users: seq<User>, refreshSessions: seq<RefreshSession>, audioFiles: seq<AudioFile>)

  const EmptyTables: Tables := Tables([], [], [])

  function UserIdKey(u: User): int { u.id }
  function UsernameKey(u: User): string { u.username }
  function PhoneKey(u: User): string { u.phoneNumber }
  function YandexIdKey(u: User): string { u.yandexId }
  function SessionIdKey(s: RefreshSession): int { s.id }
  function AudioIdKey(f: AudioFile): int { f.id }
  function FilenameUniqueKey(f: AudioFile): string { f.filenameUnique }

  predicate HasUser(users: seq<User>, id: int) {
    KeyIn(users, UserIdKey, id)
  }

  predicate UsersUnique(users: seq<User>) {
    && Distinct(users, UserIdKey)
    && Distinct(users, UsernameKey)
    && Distinct(users, PhoneKey)
    && Distinct(users, YandexIdKey)
  }

  /** Every user_id of refresh_sessions and audio_files names a user. */
  predicate ReferencesExist(t: Tables) {
    && (forall i :: 0 <= i < |t.refreshSessions| ==> HasUser(t.users, t.refreshSessions[i].userId))
    && (forall i :: 0 <= i < |t.audioFiles| ==> HasUser(t.users, t.audioFiles[i].userId))
  }

  /** The primary-key, unique and foreign-key constraints of the three tables. */
  predicate Consistent(t: Tables) {
    && UsersUnique(t.users)
    && Distinct(t.refreshSessions, SessionIdKey)
    && Distinct(t.audioFiles, AudioIdKey)
    && Distinct(t.audioFiles, FilenameUniqueKey)
    && ReferencesExist(t)
  }

  /** Every id is below the value its sequence will hand out next. */
  predicate IdsBelow(t: Tables, nextUserId: int, nextSessionId: int, nextAudioFileId: int) {
    && (forall i :: 0 <= i < |t.users| ==> t.users[i].id < nextUserId)
    && (forall i :: 0 <= i < |t.refreshSessions| ==> t.refreshSessions[i].id < nextSessionId)
    && (forall i :: 0 <= i < |t.audioFiles| ==> t.audioFiles[i].id < nextAudioFileId)
  }

  /** What the driver raises: a constraint violation, `scalar_one` on an
      empty result, or a lost connection. */
  datatype DbError = IntegrityError | NoResultFound | OperationalError

  /** A data-changing statement whose result would be `candidate`. PostgreSQL
      checks these constraints at the end of each statement and rejects the
      whole statement when one fails. */
  function Write(candidate: Tables): (r: Result<Tables, DbError>)
    ensures r.Success? <==> Consistent(candidate)
    ensures r.Success? ==> r.value == candidate
    ensures r.Failure? ==> r.error == IntegrityError
  {
    if Consistent(candidate) then Success(candidate) else Failure(IntegrityError)
  }

  /** A write succeeds only if no two users share an id, a username, a phone
      number or a Yandex id; any such pair makes it fail with IntegrityError. */
  lemma WriteKeepsUserKeys(c: Tables)
    ensures Write(c).Success? ==>
      forall i, j :: 0 <= i < j < |c.users| ==>
        && c.users[i].id != c.users[j].id
        && c.users[i].username != c.users[j].username
        && c.users[i].phoneNumber != c.users[j].phoneNumber
        && c.users[i].yandexId != c.users[j].yandexId
    ensures (exists i, j :: 0 <= i < j < |c.users| &&
               (|| c.users[i].id == c.users[j].id
                || c.users[i].username == c.users[j].username
                || c.users[i].phoneNumber == c.users[j].phoneNumber
                || c.users[i].yandexId == c.users[j].yandexId))
      ==> Write(c) == Failure(IntegrityError)
  {
  }

  /** HasUser spelled out over the rows. */
  lemma HasUserRow(users: seq<User>, id: int)
    ensures HasUser(users, id) <==> exists u :: u in users && u.id == id
  {
    if HasUser(users, id) {
      var k :| 0 <= k < |users| && UserIdKey(users[k]) == id;
      assert users[k] in users;
    }
  }

  /** Ids that are all present name rows of `users`; the shared step of the
      two foreign keys. */
  lemma OwnerRows(users: seq<User>, ids: set<int>)
    requires forall id :: id in ids ==> HasUser(users, id)
    ensures forall id :: id in ids ==> exists u :: u in users && u.id == id
  {
    forall id | id in ids ensures exists u :: u in users && u.id == id {
      HasUserRow(users, id);
    }
  }

  /** A write succeeds only if session ids are distinct and every session's
      user_id is the id of a user; a dangling user_id makes it fail. */
  lemma WriteKeepsSessionKeys(c: Tables)
    ensures Write(c).Success? ==>
      && (forall i, j :: 0 <= i < j < |c.refreshSessions| ==> c.refreshSessions[i].id != c.refreshSessions[j].id)
      && (forall r :: r in c.refreshSessions ==> exists u :: u in c.users && u.id == r.userId)
    ensures (exists r :: r in c.refreshSessions && forall u :: u in c.users ==> u.id != r.userId)
      ==> Write(c) == Failure(IntegrityError)
  {
    var owners := set r | r in c.refreshSessions :: r.userId;
    if Write(c).Success? {
      OwnerRows(c.users, owners);
    }
    if exists r :: r in c.refreshSessions && forall u :: u in c.users ==> u.id != r.userId {
      var r :| r in c.refreshSessions && forall u :: u in c.users ==> u.id != r.userId;
      HasUserRow(c.users, r.userId);
    }
  }

  /** A write succeeds only if audio-file ids and filename_unique values are
      distinct and every file's user_id is the id of a user; a repeated
      filename_unique or a dangling user_id makes it fail; filename_original
      may repeat. */
  lemma WriteKeepsAudioFileKeys(c: Tables)
    ensures Write(c).Success? ==>
      && (forall i, j :: 0 <= i < j < |c.audioFiles| ==>
            c.audioFiles[i].id != c.audioFiles[j].id && c.audioFiles[i].filenameUnique != c.audioFiles[j].filenameUnique)
      && (forall f :: f in c.audioFiles ==> exists u :: u in c.users && u.id == f.userId)
    ensures (exists i, j :: 0 <= i < j < |c.audioFiles| && c.audioFiles[i].filenameUnique == c.audioFiles[j].filenameUnique)
      ==> Write(c) == Failure(IntegrityError)
    ensures (exists f :: f in c.audioFiles && forall u :: u in c.users ==> u.id != f.userId)
      ==> Write(c) == Failure(IntegrityError)
  {
    var owners := set f | f in c.audioFiles :: f.userId;
    if Write(c).Success? {
      OwnerRows(c.users, owners);
    }
    if exists f :: f in c.audioFiles && forall u :: u in c.users ==> u.id != f.userId {
      var f :| f in c.audioFiles && forall u :: u in c.users ==> u.id != f.userId;
      HasUserRow(c.users, f.userId);
    }
  }

  /** A statement sent to a server that is reachable or not. */
  function Attempt<T>(reachable: bool, effect: Result<T, DbError>): Result<T, DbError> {
    if reachable then effect else Failure(OperationalError)
  }

  /** What a repository call returns and the working tables it leaves. */
  datatype Step<+T> = Step(result: Result<T, Error>, tables: Tables)

  /** A write's outcome as the repositories report it: every database error
      becomes InternalException and leaves the working tables as they were. */
  function Written<T>(t: Tables, e: Result<Tables, DbError>, value: T): Step<T> {
    if e.Success? then Step(Success(value), e.value) else Step(Failure(InternalException), t)
  }

  /** A query's outcome: the tables are unchanged; an unreachable server
      becomes InternalException. */
  function Queried<T>(t: Tables, reachable: bool, value: T): Step<T> {
    if reachable then Step(Success(value), t) else Step(Failure(InternalException), t)
  }
}
