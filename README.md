# Sessions, users and audio uploads of test-work-pavepo, modelled in Dafny

This project models the storage and token core of a FastAPI service that logs
users in through Yandex OAuth, issues JWT access tokens and opaque refresh
tokens, and stores uploaded audio files:

- token creation: `create_refresh_token` (a `str(uuid4())`) and
  `create_access_token` (an HS256 JWT with `id`, `is_superuser`, `iat` and
  `exp` fifteen minutes after `iat`);
- the three repositories over the PostgreSQL tables `users`,
  `refresh_sessions` and `audio_files`, with their primary-key, unique and
  foreign-key constraints. Every database error becomes `InternalException`;
- the unit of work. Entering opens a session and builds the repositories on
  it. `commit` makes the work durable. Exiting always rolls back, then
  closes;
- the services `RefreshSessionService.create_tokens`, the storage part of
  `UserService.authenticate_with_yandex`, and the upload checks and
  recording of `AudioFileService`.

Layout, one module per file:

- `Common`, `Seqs`: the `Option`/`Result` types, the error kinds, and
  sequence search, filtering and key uniqueness.
- `Uuid`, `Tokens`: uuid4 over 16 random bytes, its canonical text form and
  parser, and the two token constructors. The JWT stays symbolic: it is the
  claim map, the key and the algorithm name.
- `Models`: rows, DTOs, the three tables, their constraints (`Consistent`), and
  how a statement's outcome is reported. `Write` fails with `IntegrityError`
  when a candidate state breaks a constraint. An unreachable server fails every
  statement with `OperationalError`.
- `Database`: the server, as a class holding the committed tables, the serial
  id sequences (never rolled back) and a ghost journal of statements,
  commits, rollbacks and closes. A `DbSession` is a class whose working copy
  only `Commit` makes durable.
- `UserRepo`, `RefreshSessionRepo`, `AudioFileRepo`: each repository
  operation is a pure function from working tables to a `Step` (the result
  and the new working tables). Lemmas characterise when each operation
  succeeds and what it leaves. Each repository class has methods that run
  the function on its session.
- `Uow`: the `UnitOfWork` class.
- `RefreshSessionSvc`, `UserSvc`, `AudioFileSvc`: one pure function per
  service operation, giving the result and the tables committed once the unit
  of work has exited. Lemmas state what the operation promises. Each service
  class has a method proved to equal its function.

Nothing in the model is tied to a particular implementation of the clock,
the random source or the network. They are parameters:

- `timeNow` is the application clock used for `iat`;
- `dbNow` is PostgreSQL's `now()`, used by the `expire_in` server default;
- `random` is the 16 bytes uuid4 draws;
- `YandexExchange` is the outcome of the two HTTP calls to Yandex;
- `written` says whether the chunked copy to disk succeeded;
- `Server.reachable` says whether statements reach the database.

Facts about the code that the model follows:

- The access token is built after the unit of work has exited, so it is
  issued only once the refresh session is committed
  (`app/services/refresh_session.py:33-46`).
- The session's expiry comes from the column's server default (the
  database's clock), not from the application's clock.
- `authenticate_with_yandex` calls repository methods that do not exist:
  `get_by_yandex_id`, `update_info`, and `create_one(user_info=...)`. It also
  imports a `UserUpdateInfoDTO` that `app/models/user.py` does not define.
  The model uses the repository's actual operations instead:
  `get_one_by_yandex_id`, `update_one_by_yandex_id` with the
  `UserUpdateDTO` fields, and `create_one`.

## Model

| member | source | states |
|---|---|---|
| Uuid.Uuid4 | app/tokens/tokens.py:17-18 | uuid4 sets the version nibble to 4 and the variant bits to 10, and keeps the other 122 random bits |
| Uuid.Canonical | app/tokens/tokens.py:17-18 | `str(uuid)` has 36 characters with hyphens at positions 8, 13, 18 and 23 |
| Uuid.CanonicalRoundTrip | app/tokens/tokens.py:17-18 | parsing the canonical text of any UUID gives back that UUID, so the text loses nothing |
| Uuid.Uuid4Digits | app/tokens/tokens.py:17-18 | in the text, character 14 is '4' and character 19 is one of 8, 9, a, b |
| Uuid.CanonicalIsLowerHex | app/tokens/tokens.py:17-18 | every character of str(uuid) other than the four hyphens is a lower-case hex digit |
| Tokens.RefreshTokenFormat | app/tokens/tokens.py:17-18 | a refresh token is a canonical version-4 UUID string of lower-case hex digits and hyphens that parses back to the uuid4 of the random bytes |
| Tokens.AccessTokenClaims | app/tokens/tokens.py:21-34 | the payload has exactly the claims id, is_superuser, iat and exp; they read back as the user's id and role, the whole second of the clock reading (floored, as PyJWT writes a datetime), and that second plus 900; the key is the secret and the algorithm HS256 |
| Tokens.NumericDateShift | app/tokens/tokens.py:26-27 | adding 15 minutes to an instant adds exactly 900 to its whole second, so exp is iat plus 900 even after flooring |
| Tokens.AccessTokenDeterminesClaims | app/tokens/tokens.py:21-34 | under one key, two access tokens are equal exactly when they were built for the same user id, the same role and the same whole second |
| Tokens.SameSecondSameToken | app/tokens/tokens.py:21-34 | two calls within one second for the same user and role give the same token |
| Models.WriteKeepsUserKeys | app/models/user.py:14-17 | a write succeeds only if no two users share an id, a username, a phone number or a Yandex id, and any such pair makes it fail with IntegrityError |
| Models.WriteKeepsSessionKeys | app/models/refresh_session.py:14-16 | a write succeeds only if session ids are distinct and every user_id is a user's id; a dangling user_id makes it fail with IntegrityError, while refresh_token may repeat |
| Models.WriteKeepsAudioFileKeys | app/models/audio_file.py:12-15 | a write succeeds only if file ids and filename_unique values are distinct and every user_id is a user's id; a repeated filename_unique or a dangling user_id makes it fail with IntegrityError |
| Database.DbSession.Run | app/database/db.py:11-13 | a statement changes the session's working tables only when it succeeds, and an unreachable server fails it with OperationalError |
| Database.DbSession.Commit | app/repositories/uow.py:63-64 | the working tables become the committed tables |
| Database.DbSession.Rollback | app/repositories/uow.py:50-52 | the working tables go back to the committed tables |
| Database.DbSession.Close | app/repositories/uow.py:50-52 | the session is closed and the committed tables are kept |
| UserRepo.CreateOutcome | app/repositories/user.py:54-63 | an insert succeeds iff the server is reachable and the username, phone number and Yandex id are all new; the returned row has the drawn id and is_superuser false; a failure is InternalException and leaves the tables unchanged |
| UserRepo.CreateThenGet | app/repositories/user.py:54-83 | a created user is found again by its Yandex id and by its id |
| UserRepo.GetByYandexIdFinds | app/repositories/user.py:65-73 | the lookup returns the one row with that Yandex id, or None when there is none; the tables are unchanged; an unreachable server gives InternalException |
| UserRepo.GetByIdFinds | app/repositories/user.py:75-83 | the lookup returns the one row with that id, or None; the tables are unchanged |
| UserRepo.UpdateByYandexIdOutcome | app/repositories/user.py:85-99 | the update succeeds iff the Yandex id exists and no other row holds the new username or phone number; exactly that row gets the new username and phone number and every other row is untouched; a missing row (scalar_one) or a constraint breach is InternalException with no change |
| UserRepo.UpdateByIdOutcome | app/repositories/user.py:101-114 | a missing id gives None; otherwise only the fields that are not None are set on that row, the id never changes, the returned row is exactly that patched row as stored, and a constraint breach is InternalException with no change |
| UserRepo.DeleteOutcome | app/repositories/user.py:116-126 | a missing id gives None; otherwise the row goes exactly when no refresh session or audio file references it, returning the id, and every other row stays |
| UserRepo.DeleteThenGet | app/repositories/user.py:116-126 | after a successful delete the id is no longer found |
| UserRepo.UserRepository.CreateOne | app/repositories/user.py:54-63 | draws the next user id and leaves the result and working tables that UserRepo.Create gives |
| UserRepo.UserRepository.GetOneByYandexId | app/repositories/user.py:65-73 | returns what UserRepo.GetByYandexId gives and changes no table |
| UserRepo.UserRepository.GetOneById | app/repositories/user.py:75-83 | returns what UserRepo.GetById gives and changes no table |
| UserRepo.UserRepository.UpdateOneByYandexId | app/repositories/user.py:85-99 | result and working tables are those of UserRepo.UpdateByYandexId |
| UserRepo.UserRepository.UpdateOneById | app/repositories/user.py:101-114 | result and working tables are those of UserRepo.UpdateById |
| UserRepo.UserRepository.DeleteOneById | app/repositories/user.py:116-126 | result and working tables are those of UserRepo.DeleteById |
| RefreshSessionRepo.CreateOutcome | app/repositories/refresh_session.py:29-35 | the insert succeeds iff the server is reachable and the user exists; it appends exactly one row whose expire_in is now() plus 15 minutes; otherwise InternalException with no change |
| RefreshSessionRepo.DuplicateTokenAccepted | app/models/refresh_session.py:16 | refresh_token is indexed but not unique: a token already stored is accepted again, leaving two rows with it |
| RefreshSessionRepo.RefreshSessionRepository.CreateOne | app/repositories/refresh_session.py:29-35 | draws the next session id and leaves what RefreshSessionRepo.Create gives |
| AudioFileRepo.CreateOutcome | app/repositories/audio_file.py:42-57 | the insert succeeds iff the server is reachable, the owner exists and filename_unique is new; it returns and appends the DTO's row; otherwise InternalException with no change |
| AudioFileRepo.GetByUserIdAndFilenameFinds | app/repositories/audio_file.py:59-78 | on a reachable server the lookup returns a row of that user with that original name, or None exactly when there is none; on an unreachable one it is InternalException; the tables are unchanged either way |
| AudioFileRepo.ListByUserIdFinds | app/repositories/audio_file.py:80-89 | on a reachable server the listing holds every row of that user and no other; on an unreachable one it is InternalException; the tables are unchanged either way |
| AudioFileRepo.CreateThenGet | app/repositories/audio_file.py:42-89 | a stored file is found by owner and original name, and is listed for its owner |
| AudioFileRepo.AudioFileRepository.CreateOne | app/repositories/audio_file.py:42-57 | draws the next file id and leaves what AudioFileRepo.Create gives |
| AudioFileRepo.AudioFileRepository.GetOneByUserIdAndFilename | app/repositories/audio_file.py:59-78 | returns what AudioFileRepo.GetByUserIdAndFilename gives and changes no table |
| AudioFileRepo.AudioFileRepository.GetAllByUserId | app/repositories/audio_file.py:80-89 | returns what AudioFileRepo.ListByUserId gives and changes no table |
| Uow.UnitOfWork.Enter | app/repositories/uow.py:41-48 | a fresh session starts from the committed tables and the three fresh repositories share it |
| Uow.UnitOfWork.Exit | app/repositories/uow.py:50-52 | rolls back and closes: the working tables return to the committed ones and no commit happens |
| Uow.UnitOfWork.Commit | app/repositories/uow.py:63-64 | the session's working tables become the committed tables |
| Uow.UnitOfWork.GetUserRepo | app/repositories/uow.py:54-55 | before the first enter there is no repository (the AttributeError); afterwards it is the one on the current session |
| Uow.UnitOfWork.GetRefreshSessionRepo | app/repositories/uow.py:57-58 | as GetUserRepo, for the refresh-session repository |
| Uow.UnitOfWork.GetAudioFileRepo | app/repositories/uow.py:60-61 | as GetUserRepo, for the audio-file repository |
| RefreshSessionSvc.IssuedTokensOutcome | app/services/refresh_session.py:28-51 | tokens are issued iff the user exists and the database is reachable; then exactly one session row holding the returned refresh token is committed, the refresh token parses as the uuid4 drawn, and the access token carries the user's id and role, is issued at the whole second of the clock reading and expires 900 seconds after it; a failure commits nothing and is InternalException |
| RefreshSessionSvc.SessionExpiresWithAccessToken | app/services/refresh_session.py:31-46 | on success, the access token's exp minus the whole second of the stored expire_in equals the application clock's second minus the database clock's second; when the database clock reads no later than the application clock, expire_in lies before the end of the second exp names |
| RefreshSessionSvc.RefreshSessionService.CreateTokens | app/services/refresh_session.py:28-51 | returns and commits what RefreshSessionSvc.IssuedTokens gives; the journal is the insert, then a commit only on success, then the exit's rollback and close |
| UserSvc.AuthenticatedFailureIsAtomic | app/services/user.py:44-110 | an HTTP error or an unreachable database always fails, and every failure is InternalException and commits nothing |
| UserSvc.FoundUnchanged | app/services/user.py:78-97 | a known Yandex id with unchanged username and phone returns the stored user and changes nothing |
| UserSvc.NotFoundCreates | app/services/user.py:99-110 | an unknown Yandex id succeeds iff its username and phone number are free; it then commits one new non-superuser with the next id and returns it |
| UserSvc.FoundChangedIsDiscarded | app/services/user.py:78-92 | as written, the renaming branch returns the new username and phone number while the committed row keeps the old ones |
| UserSvc.EmptyTokenAccepted | app/services/user.py:52-55 | as written, an empty Yandex access token does not stop authentication, given an exchange outcome in which the user-info request still succeeds |
| UserSvc.StoredFound | app/services/user.py:78-97 | with the update committed, a known Yandex id yields the committed row for it, with the reported username and phone, or InternalException with nothing committed |
| UserSvc.StoredNew | app/services/user.py:99-110 | an unknown Yandex id yields the newly committed row for it, with the reported username and phone, or InternalException with nothing committed |
| UserSvc.IntendedReturnsStoredUser | app/services/user.py:73-110 | with the commit after the update and the empty-token check, a successful result had a non-empty token and is exactly the committed row for that Yandex id, with the reported username and phone; a failure commits nothing |
| UserSvc.UserService.AuthenticateWithYandex | app/services/user.py:73-110 | returns and commits what UserSvc.Authenticated gives, following the code as written; the statements sent are a select, then an update for a changed user, an insert for a new one, a commit only for an unchanged user or a successful insert, and the exit's rollback and close, so the renaming branch's update is rolled back |
| AudioFileSvc.LastIndexOfIsLast | app/services/audio_file.py:49-50 | the index splitext searches for holds the character and no later index does |
| AudioFileSvc.SplitExt | app/services/audio_file.py:49-50 | splitext splits a path into a root and an extension that join back to the path, and the extension is empty or starts with a dot |
| AudioFileSvc.FileExtensionCharacterised | app/services/audio_file.py:49-50 | the extension is the lowered tail from the last dot of the last path component when something other than dots precedes it in that component, and empty exactly when there is no such dot |
| AudioFileSvc.FileExtensionShape | app/services/audio_file.py:49-50 | an extension is empty or a dot followed by characters that are neither dots, slashes nor upper-case letters |
| AudioFileSvc.ExtensionStartLower | app/services/audio_file.py:49-50 | lower-casing a name does not move where its extension starts |
| AudioFileSvc.FileExtensionIgnoresCase | app/services/audio_file.py:49-50 | a name and its lower-cased form have the same extension, so "Song.MP3" and "song.mp3" both give ".mp3" |
| AudioFileSvc.DotfileHasNoExtension | app/services/audio_file.py:49-50 | ".mp3" has no extension |
| AudioFileSvc.DirectoryDotIsNoExtension | app/services/audio_file.py:49-50 | "a.mp3/b" has no extension |
| AudioFileSvc.ValidateFile | app/services/audio_file.py:53-58 | the only error it raises is BadMediaType |
| AudioFileSvc.ValidateFileDecides | app/services/audio_file.py:53-58 | a file passes exactly when its extension is allowed and its content type is absent, empty or one of the allowed ones |
| AudioFileSvc.ContentTypeComparedExactly | app/services/audio_file.py:53-58 | "audio/MPEG" is refused, because content types are compared exactly, and an empty content type is not checked |
| AudioFileSvc.ValidateFileAccepts | app/settings/config.py:21-28 | a validated extension is one of the allowed ones and never empty; with no content type only the extension decides |
| AudioFileSvc.SavedLocalCheckOrder | app/services/audio_file.py:60-99 | once no row has the custom name, an absent or empty filename gives BadRequestException, then a refused media type gives BadMediaType whether or not the copy would succeed, then a failed copy gives InternalException; the upload succeeds exactly when all checks pass |
| AudioFileSvc.SavedLocalOutcome | app/services/audio_file.py:60-99 | a name the user already has gives ConflictException whatever the upload. On success the stored name is a fresh canonical uuid4 followed by the lowered, allowed extension, it lies in the storage directory, and the copy succeeded. Every other failure happens after an empty lookup, a missing filename ends in ConflictException or BadRequestException, and an unreachable database gives InternalException |
| AudioFileSvc.SavedDbOutcome | app/services/audio_file.py:101-111 | the row is committed iff the owner exists, the unique name is new and the database is reachable; the response echoes both names; a failure commits nothing |
| AudioFileSvc.SavedDbThenConflict | app/services/audio_file.py:60-111 | once a file is recorded, a new upload under the same custom name for the same user is refused with ConflictException |
| AudioFileSvc.AudioFileService.SaveLocal | app/services/audio_file.py:60-99 | returns what AudioFileSvc.SavedLocal gives; it commits nothing; the journal is one select, then the exit's rollback and close |
| AudioFileSvc.AudioFileService.SaveDb | app/services/audio_file.py:101-111 | returns and commits what AudioFileSvc.SavedDb gives; it commits only on success |

## Left out

- The HTTP exchanges with Yandex (`app/services/user.py:37-71`) are not modelled; their outcome is the input `YandexExchange`. A missing JSON field raises `KeyError`, which is not modelled either.
- JWT signing and encoding are not modelled: the token is the payload, the key and the algorithm.
- Tokens.AccessTokenClaims: the conversion of `iat` and `exp` to whole seconds is modelled (`NumericDate`), but the JWS serialisation and the HMAC signature are not, so the token is its claims, key and algorithm.
- RefreshSessionSvc.SessionExpiresWithAccessToken: its second clause assumes the database clock reads no later than the application clock. With the clocks in agreement this holds: `now()` is the start of the transaction, and the token is built after the unit of work exits (`app/services/refresh_session.py:33-46`). The model does not relate the two clocks otherwise.
- The clocks and uuid4's random bytes are parameters. The `AT TIME ZONE 'utc'` cast in the `expire_in` default is not modelled; both clocks are plain microsecond instants.
- `PhoneNumber` validation and normalisation are not modelled: phone numbers are compared as given. In the code the stored number went through pydantic's `PhoneNumber` (`app/models/user.py:16`, `app/models/user.py:25`), which rewrites it (for example to a `tel:` URI), while `authenticate_with_yandex` compares the raw number from Yandex with it (`app/services/user.py:80-81`). A returning user therefore most likely always takes the renaming branch: UserSvc.FoundUnchanged describes a case that is rare or never reached, and the finding about `app/services/user.py:83-92` applies to every repeat login.
- AudioFileSvc.Lower lowers ASCII letters only. Python's `str.lower` also maps non-ASCII letters. No non-ASCII character lowers to a string made of the allowed extensions' letters, so validation outcomes are the same.
- The chunked copy to disk, the removal of a partial file and `file.close()` are not modelled. Only the copy's success or failure is: the `written` parameter.
- Asynchrony and concurrent requests are not modelled; each operation runs alone.
- After a failed statement, PostgreSQL refuses further statements until a rollback. This state is not modelled, because no service issues a statement after a failure.
- UserRepo.UpdateById: a request whose fields are all None is treated as an update that changes nothing.
- The `onupdate` default of `expire_in` is not modelled, because no operation updates a refresh session.
- Refresh-token rotation and expiry checks are not modelled. The router calls an `update_tokens` that the service does not define.
- SQL without ORDER BY returns rows in no fixed order. The model keeps insertion order, and the listing lemmas state membership only.
- AudioFileRepo.GetByUserIdAndFilenameFinds: states only that some matching row is returned, because without ORDER BY, `LIMIT 1` may return any of them.
- `AuthException` is not modelled, because no modelled operation raises it.
- Not modelled because they are outside this core: the routers, `deps.py`, `main.py`, settings loading, and table creation.
- Database.DbSession.Commit, Uow.UnitOfWork.Commit: a commit never fails in the model. In the code, `session.commit()` (`app/repositories/uow.py:63-64`) can fail, for example on a lost connection, and the raw SQLAlchemy error then propagates instead of InternalException. RefreshSessionSvc.IssuedTokensOutcome, AudioFileSvc.SavedDbOutcome and UserSvc.AuthenticatedFailureIsAtomic state "every failure is InternalException" only for the failures the model has, which excludes a failing commit.
- UserRepo.GetById, UserRepo.UpdateById, UserRepo.DeleteById, AudioFileRepo.GetByUserIdAndFilename, AudioFileRepo.ListByUserId: ids are unbounded integers. The id columns are PostgreSQL `INTEGER` (32 bits), so an id outside that range makes the driver or the database raise, which the repositories turn into InternalException. The model instead returns None, or succeeds, for such ids.
- The `logger.error` calls in the repositories and in `save_local` (`app/services/audio_file.py:89`) are not modelled, because logging changes no state the model tracks.
- An id sequence value is drawn whenever a repository insert is attempted, even when the server is unreachable. Ids are therefore unique but not gap-free, as with PostgreSQL sequences.

## Findings

| source | as written | input that shows it | evidently intended | confidence | as-written member | corrected member |
|---|---|---|---|---|---|---|
| app/services/user.py:83-92 | the renaming branch returns from inside the unit of work without a commit, so the exit's rollback discards the update while the response reports it | a user whose Yandex id is stored but whose Yandex username or phone number has changed | commit after the update, so the returned user is the stored one | not executed | UserSvc.FoundChangedIsDiscarded | UserSvc.IntendedReturnsStoredUser |
| app/services/user.py:54-55 | `InternalException()` is constructed but not raised, so an empty access token is not rejected | a token response whose `access_token` is the empty string, followed by a user-info response that succeeds; the exchange outcome is an input of the model, and Yandex may well answer such a request with 401, which gives InternalException | raise InternalException for an empty token | not executed | UserSvc.EmptyTokenAccepted | UserSvc.IntendedReturnsStoredUser |
