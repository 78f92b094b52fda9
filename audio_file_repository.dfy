/** app/repositories/audio_file.py: AudioFileRepository over `audio_files`. */
module AudioFileRepo {
  import opened Common
  import opened Seqs
  import opened Models
  import opened Database

  function OwnedBy(userId: int): AudioFile -> bool { (f: AudioFile) => f.userId == userId }

  function OwnedAs(userId: int, filenameOriginal: string): AudioFile -> bool {
    (f: AudioFile) => f.userId == userId && f.filenameOriginal == filenameOriginal
  }

  function NewAudioFile(id: int, dto: AudioFileCreateRequest): AudioFile {
    AudioFile(id, dto.userId, dto.filenameOriginal, dto.filenameUnique, dto.filepath)
  }

  function CreateEffect(t: Tables, id: int, dto: AudioFileCreateRequest): Result<Tables, DbError> {
    Write(t.(audioFiles := t.audioFiles + [NewAudioFile(id, dto)]))
  }

  function Create(t: Tables, id: int, dto: AudioFileCreateRequest, reachable: bool): Step<AudioFile> {
    Written(t, Attempt(reachable, CreateEffect(t, id, dto)), NewAudioFile(id, dto))
  }

  /** SELECT ... WHERE user_id = ? AND filename_original = ? LIMIT 1. */
  function GetByUserIdAndFilename(t: Tables, userId: int, filenameOriginal: string, reachable: bool): Step<Option<AudioFile>> {
    Queried(t, reachable, FirstWhere(t.audioFiles, OwnedAs(userId, filenameOriginal)))
  }

  /** SELECT ... WHERE user_id = ?. */
  function ListByUserId(t: Tables, userId: int, reachable: bool): Step<seq<AudioFile>> {
    Queried(t, reachable, Filter(t.audioFiles, OwnedBy(userId)))
  }

  /** The insert succeeds exactly when the server is reachable, the owner
      exists and filename_unique is new; it appends the DTO's row. */
  lemma CreateOutcome(t: Tables, id: int, dto: AudioFileCreateRequest, reachable: bool)
    requires Consistent(t) && !KeyIn(t.audioFiles, AudioIdKey, id)
    ensures Create(t, id, dto, reachable).result.Success? <==>
      reachable && HasUser(t.users, dto.userId) && !KeyIn(t.audioFiles, FilenameUniqueKey, dto.filenameUnique)
    ensures Create(t, id, dto, reachable).result.Success? ==>
      && Create(t, id, dto, reachable).result.value
           == AudioFile(id, dto.userId, dto.filenameOriginal, dto.filenameUnique, dto.filepath)
      && Create(t, id, dto, reachable).tables == t.(audioFiles := t.audioFiles + [NewAudioFile(id, dto)])
    ensures Create(t, id, dto, reachable).result.Failure? ==>
      Create(t, id, dto, reachable) == Step(Failure(InternalException), t)
  {
    var row := NewAudioFile(id, dto);
    var c := t.(audioFiles := t.audioFiles + [row]);
    DistinctAppend(t.audioFiles, row, AudioIdKey);
    DistinctAppend(t.audioFiles, row, FilenameUniqueKey);
    assert c.audioFiles[|t.audioFiles|] == row;
    assert ReferencesExist(c) <==> HasUser(t.users, dto.userId);
  }

  /** The single-file lookup: a row of that user with that original name, or
      None exactly when there is none; an unreachable server gives
      InternalException. The table is not changed. */
  lemma GetByUserIdAndFilenameFinds(t: Tables, userId: int, filenameOriginal: string, reachable: bool)
    ensures GetByUserIdAndFilename(t, userId, filenameOriginal, reachable).tables == t
    ensures !reachable ==> GetByUserIdAndFilename(t, userId, filenameOriginal, reachable).result == Failure(InternalException)
    ensures reachable ==>
      var r := GetByUserIdAndFilename(t, userId, filenameOriginal, reachable).result;
      && r.Success?
      && (r.value.None? <==>
            forall j :: 0 <= j < |t.audioFiles| ==>
              !(t.audioFiles[j].userId == userId && t.audioFiles[j].filenameOriginal == filenameOriginal))
      && (r.value.Some? ==>
            r.value.value in t.audioFiles && r.value.value.userId == userId
            && r.value.value.filenameOriginal == filenameOriginal)
  {
    var p := OwnedAs(userId, filenameOriginal);
    assert forall j :: 0 <= j < |t.audioFiles| ==>
      (p(t.audioFiles[j]) <==> t.audioFiles[j].userId == userId && t.audioFiles[j].filenameOriginal == filenameOriginal);
  }

  /** The listing holds every row of that user and no other row; an
      unreachable server gives InternalException. The table is not changed. */
  lemma ListByUserIdFinds(t: Tables, userId: int, reachable: bool)
    ensures ListByUserId(t, userId, reachable).tables == t
    ensures !reachable ==> ListByUserId(t, userId, reachable).result == Failure(InternalException)
    ensures reachable ==>
      var r := ListByUserId(t, userId, reachable).result;
      r.Success? && forall f :: f in r.value <==> f in t.audioFiles && f.userId == userId
  {
    var p := OwnedBy(userId);
    assert forall f :: p(f) <==> f.userId == userId;
  }

  /** A stored file is found again by its owner and original name and is
      listed for its owner. */
  lemma CreateThenGet(t: Tables, id: int, dto: AudioFileCreateRequest)
    requires Consistent(t) && !KeyIn(t.audioFiles, AudioIdKey, id)
    requires Create(t, id, dto, true).result.Success?
    ensures GetByUserIdAndFilename(Create(t, id, dto, true).tables, dto.userId, dto.filenameOriginal, true).result.value.Some?
    ensures NewAudioFile(id, dto) in ListByUserId(Create(t, id, dto, true).tables, dto.userId, true).result.value
  {
    CreateOutcome(t, id, dto, true);
    var t' := Create(t, id, dto, true).tables;
    assert t'.audioFiles[|t.audioFiles|] == NewAudioFile(id, dto);
    GetByUserIdAndFilenameFinds(t', dto.userId, dto.filenameOriginal, true);
    ListByUserIdFinds(t', dto.userId, true);
  }

  class AudioFileRepository {
    const session: DbSession

    constructor (session: DbSession)
      ensures this.session == session
    {
      this.session := session;
    }

    method CreateOne(audioFileInfo: AudioFileCreateRequest) returns (r: Result<AudioFile, Error>)
      requires session.Valid()
      modifies session`work, session.db`journal, session.db`nextAudioFileId
      ensures session.Valid()
      ensures session.db.nextAudioFileId == old(session.db.nextAudioFileId) + 1
      ensures Step(r, session.work) ==
        Create(old(session.work), old(session.db.nextAudioFileId), audioFileInfo, session.db.reachable)
      ensures session.db.journal == old(session.db.journal) + [Executed(Insert(AudioFilesTable))]
    {
      var id := session.NextAudioFileId();
      var t := session.work;
      assert !KeyIn(t.audioFiles, AudioIdKey, id);
      CreateOutcome(t, id, audioFileInfo, session.db.reachable);
      var e := session.Run(Insert(AudioFilesTable), CreateEffect(session.work, id, audioFileInfo));
      r := Written(t, e, NewAudioFile(id, audioFileInfo)).result;
    }

    method GetOneByUserIdAndFilename(userId: int, filenameOriginal: string) returns (r: Result<Option<AudioFile>, Error>)
      requires session.Valid()
      modifies session`work, session.db`journal
      ensures session.Valid() && unchanged(session)
      ensures r == GetByUserIdAndFilename(session.work, userId, filenameOriginal, session.db.reachable).result
      ensures session.db.journal == old(session.db.journal) + [Executed(Select(AudioFilesTable))]
    {
      var e := session.Run(Select(AudioFilesTable), Success(session.work));
      r := GetByUserIdAndFilename(session.work, userId, filenameOriginal, session.db.reachable).result;
    }

    method GetAllByUserId(userId: int) returns (r: Result<seq<AudioFile>, Error>)
      requires session.Valid()
      modifies session`work, session.db`journal
      ensures session.Valid() && unchanged(session)
      ensures r == ListByUserId(session.work, userId, session.db.reachable).result
      ensures session.db.journal == old(session.db.journal) + [Executed(Select(AudioFilesTable))]
    {
      var e := session.Run(Select(AudioFilesTable), Success(session.work));
      r := ListByUserId(session.work, userId, session.db.reachable).result;
    }
  }
}
