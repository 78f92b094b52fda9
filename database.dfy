/** The PostgreSQL server and SQLAlchemy's AsyncSession, reduced to what the
    repositories and the unit of work rely on: committed tables, a working
    copy per session, id sequences, and a journal of what was sent. */
module Database {
  import opened Common
  import opened Models

  datatype Table = UsersTable | RefreshSessionsTable | AudioFilesTable

  datatype Statement = Insert(table: Table) | Select(table: Table) | Update(table: Table) | Delete(table: Table)

  datatype Event = Executed(statement: Statement) | Committed | RolledBack | Closed

  /** The server: committed tables and the SERIAL sequences of the three
      primary keys. Sequences are not transactional: an id once drawn is never
      handed out again, even when the transaction that drew it rolls back.
      `reachable` says whether statements reach the server at all. */
  class Server {
    var durable: Tables
    var nextUserId: int
    var nextSessionId: int
    var nextAudioFileId: int
    const reachable: bool
    ghost var journal: seq<Event>

    ghost predicate Valid()
      reads this
    {
      Consistent(durable) && IdsBelow(durable, nextUserId, nextSessionId, nextAudioFileId)
    }

    constructor (reachable: bool)
      ensures Valid()
      ensures durable == EmptyTables && this.reachable == reachable && journal == []
      ensures nextUserId == 1 && nextSessionId == 1 && nextAudioFileId == 1
    {
      durable := EmptyTables;
      nextUserId, nextSessionId, nextAudioFileId := 1, 1, 1;
      this.reachable := reachable;
      journal := [];
    }
  }

  /** An AsyncSession from session_factory(): statements change `work`; only
      a commit makes `work` the server's committed state. */
  class DbSession {
    const db: Server
    var work: Tables
    var open: bool

    ghost predicate Valid()
      reads this, db
    {
      db.Valid() && Consistent(work) && IdsBelow(work, db.nextUserId, db.nextSessionId, db.nextAudioFileId)
    }

    constructor (db: Server)
      requires db.Valid()
      ensures Valid() && this.db == db && work == db.durable && open
    {
      this.db := db;
      work := db.durable;
      open := true;
    }

    /** Runs a statement whose effect on the working tables would be `effect`. */
    method Run(statement: Statement, effect: Result<Tables, DbError>) returns (r: Result<Tables, DbError>)
      requires Valid()
      requires effect.Success? ==> Consistent(effect.value)
      requires effect.Success? ==> IdsBelow(effect.value, db.nextUserId, db.nextSessionId, db.nextAudioFileId)
      modifies this`work, db`journal
      ensures Valid()
      ensures r == Attempt(db.reachable, effect)
      ensures work == (if r.Success? then r.value else old(work))
      ensures db.journal == old(db.journal) + [Executed(statement)]
    {
      r := Attempt(db.reachable, effect);
      if r.Success? {
        work := r.value;
      }
      db.journal := db.journal + [Executed(statement)];
    }

    method NextUserId() returns (id: int)
      requires Valid()
      modifies db`nextUserId
      ensures Valid() && id == old(db.nextUserId) && db.nextUserId == id + 1
    {
      id := db.nextUserId;
      db.nextUserId := id + 1;
    }

    method NextSessionId() returns (id: int)
      requires Valid()
      modifies db`nextSessionId
      ensures Valid() && id == old(db.nextSessionId) && db.nextSessionId == id + 1
    {
      id := db.nextSessionId;
      db.nextSessionId := id + 1;
    }

    method NextAudioFileId() returns (id: int)
      requires Valid()
      modifies db`nextAudioFileId
      ensures Valid() && id == old(db.nextAudioFileId) && db.nextAudioFileId == id + 1
    {
      id := db.nextAudioFileId;
      db.nextAudioFileId := id + 1;
    }

    /** session.commit(): the working tables become the committed tables. */
    method Commit()
      requires Valid()
      modifies db`durable, db`journal
      ensures Valid() && db.durable == work
      ensures db.journal == old(db.journal) + [Committed]
    {
      db.durable := work;
      db.journal := db.journal + [Committed];
    }

    /** session.rollback(): everything since the last commit is discarded. */
    method Rollback()
      requires Valid()
      modifies this`work, db`journal
      ensures Valid() && work == db.durable
      ensures db.journal == old(db.journal) + [RolledBack]
    {
      work := db.durable;
      db.journal := db.journal + [RolledBack];
    }

    /** session.close(). */
    method Close()
      requires Valid()
      modifies this`open, db`journal
      ensures Valid() && !open
      ensures db.journal == old(db.journal) + [Closed]
    {
      open := false;
      db.journal := db.journal + [Closed];
    }
  }
}
