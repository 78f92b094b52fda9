/** app/repositories/uow.py: the unit of work. Entering opens a fresh session
    and builds the three repositories on it; commit makes the session's work
    durable; exiting always rolls back and closes, so whatever was not
    committed before the exit is lost. */
module Uow {
  import opened Common
  import opened Models
  import opened Database
  import opened UserRepo
  import opened RefreshSessionRepo
  import opened AudioFileRepo

  /** What a service call returns and the tables committed once its unit of
      work has exited. */
  datatype Outcome<+T> = Outcome(result: Result<T, Error>, committed: Tables)

  class UnitOfWork {
    const db: Server
    var session: DbSession?
    var userRepo: UserRepository?
    var refreshSession: RefreshSessionRepository?
    var audioFileRepo: AudioFileRepository?

    /** A unit of work that has not been entered has no session and no
        repositories. */
    constructor (db: Server)
      ensures this.db == db
      ensures session == null && userRepo == null && refreshSession == null && audioFileRepo == null
    {
      this.db := db;
      session := null;
      userRepo := null;
      refreshSession := null;
      audioFileRepo := null;
    }

    /** Either nothing has been set up, or all three repositories share the
        one session on this server. */
    ghost predicate Wired()
      reads this
    {
      && (session == null ==> userRepo == null && refreshSession == null && audioFileRepo == null)
      && (session != null ==>
            && session.db == db
            && userRepo != null && userRepo.session == session
            && refreshSession != null && refreshSession.session == session
            && audioFileRepo != null && audioFileRepo.session == session)
    }

    ghost predicate Entered()
      reads this
    {
      Wired() && session != null
    }

    /** __aenter__: a new session whose work starts from the committed
        tables; entering again replaces the session and the repositories. */
    method Enter()
      requires db.Valid()
      modifies this
      ensures Entered() && fresh(session) && fresh(userRepo) && fresh(refreshSession) && fresh(audioFileRepo)
      ensures session.Valid() && session.work == db.durable && session.open
    {
      var s := new DbSession(db);
      session := s;
      userRepo := new UserRepository(s);
      refreshSession := new RefreshSessionRepository(s);
      audioFileRepo := new AudioFileRepository(s);
    }

    /** __aexit__: rollback, then close; the committed tables stay. */
    method Exit()
      requires Entered() && session.Valid()
      modifies session`work, session`open, db`journal
      ensures session.Valid() && session.work == db.durable && !session.open
      ensures db.journal == old(db.journal) + [RolledBack, Closed]
    {
      session.Rollback();
      session.Close();
    }

    method Commit()
      requires Entered() && session.Valid()
      modifies db`durable, db`journal
      ensures session.Valid() && db.durable == session.work
      ensures db.journal == old(db.journal) + [Committed]
    {
      session.Commit();
    }

    /** get_user_repo: null stands for the AttributeError raised before the
        first __aenter__. */
    function GetUserRepo(): (r: UserRepository?)
      reads this
      requires Wired()
      ensures r == null <==> session == null
      ensures r != null ==> r.session == session
    {
      userRepo
    }

    function GetRefreshSessionRepo(): (r: RefreshSessionRepository?)
      reads this
      requires Wired()
      ensures r == null <==> session == null
      ensures r != null ==> r.session == session
    {
      refreshSession
    }

    function GetAudioFileRepo(): (r: AudioFileRepository?)
      reads this
      requires Wired()
      ensures r == null <==> session == null
      ensures r != null ==> r.session == session
    {
      audioFileRepo
    }
  }
}
