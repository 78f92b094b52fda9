/** app/services/audio_file.py: checking an upload and placing it under a
    unique name (save_local), and recording it (save_db). */
module AudioFileSvc {
  import opened Common
  import opened Uuid
  import opened Seqs
  import opened Models
  import opened Database
  import opened AudioFileRepo
  import opened Uow

  /** ALLOWED_AUDIO_CONTENT_TYPES and ALLOWED_AUDIO_EXTENSIONS of the
      configuration. */
  const AllowedAudioContentTypes: seq<string> := ["audio/mpeg", "audio/wav", "audio/ogg", "audio/aac", "audio/x-m4a"]
  const AllowedAudioExtensions: seq<string> := [".mp3", ".wav", ".ogg", ".aac", ".m4a"]

  // ---- os.path.splitext and str.lower ----

  /** The last index of c in s, or -1 (str.rfind). */
  function LastIndexOf(s: string, c: char): (r: int)
    ensures -1 <= r < |s|
  {
    if |s| == 0 then -1
    else if s[|s| - 1] == c then |s| - 1
    else LastIndexOf(s[..|s| - 1], c)
  }

  /** LastIndexOf finds an occurrence of c and none lies after it. */
  lemma {:induction false} LastIndexOfIsLast(s: string, c: char)
    ensures var r := LastIndexOf(s, c);
      && (r >= 0 ==> s[r] == c)
      && (forall k :: r < k < |s| ==> s[k] != c)
  {
    if |s| > 0 && s[|s| - 1] != c {
      var t := s[..|s| - 1];
      LastIndexOfIsLast(t, c);
      assert forall k :: 0 <= k < |t| ==> t[k] == s[k];
    }
  }

  predicate OnlyDots(s: string) {
    forall k :: 0 <= k < |s| ==> s[k] == '.'
  }

  /** Where posixpath.splitext starts the extension: the last dot, provided
      it lies in the last path component and that component has something
      other than dots before it; otherwise -1 (no extension). */
  function ExtensionStart(p: string): (d: int)
    ensures -1 <= d < |p|
    ensures d >= 0 ==> p[d] == '.'
  {
    LastIndexOfIsLast(p, '.');
    var sep := LastIndexOf(p, '/');
    var dot := LastIndexOf(p, '.');
    if dot > sep && !OnlyDots(p[sep + 1..dot]) then dot else -1
  }

  /** posixpath.splitext: the root and the extension. */
  function SplitExt(p: string): (r: (string, string))
    ensures r.0 + r.1 == p
    ensures r.1 == "" || r.1[0] == '.'
  {
    var d := ExtensionStart(p);
    if d >= 0 then
      assert p[..d] + p[d..] == p;
      (p[..d], p[d..])
    else (p, "")
  }

  function LowerChar(c: char): char {
    if 'A' <= c <= 'Z' then (c as int + 32) as char else c
  }

  /** str.lower on the ASCII letters. */
  function Lower(s: string): (r: string)
    ensures |r| == |s|
    ensures forall k :: 0 <= k < |s| ==> r[k] == LowerChar(s[k])
  {
    seq(|s|, k requires 0 <= k < |s| => LowerChar(s[k]))
  }

  /** _get_file_extension. */
  function FileExtension(filename: string): string {
    Lower(SplitExt(filename).1)
  }

  /** d is the last dot of the name, it lies in the last path component, and
      that component has a character other than a dot before it. */
  predicate ExtensionAt(f: string, d: int) {
    && 0 <= d < |f| && f[d] == '.'
    && (forall k :: d < k < |f| ==> f[k] != '.' && f[k] != '/')
    && (exists k :: 0 <= k < d && f[k] != '.' && f[k] != '/' && forall m :: k < m < d ==> f[m] != '/')
  }

  /** The extension is the lowered tail from the dot that ExtensionAt
      describes, and it is empty exactly when there is no such dot. */
  lemma FileExtensionCharacterised(f: string)
    ensures forall d :: ExtensionAt(f, d) ==> FileExtension(f) == Lower(f[d..])
    ensures (forall d :: !ExtensionAt(f, d)) <==> FileExtension(f) == ""
  {
    forall d | ExtensionAt(f, d) ensures ExtensionStart(f) == d {
      ExtensionAtIsStart(f, d);
    }
    if ExtensionStart(f) >= 0 {
      StartIsExtensionAt(f);
    }
  }

  /** An occurrence with none after it is the one LastIndexOf finds. */
  lemma LastIndexOfAt(s: string, c: char, i: int)
    requires 0 <= i < |s| && s[i] == c
    requires forall k :: i < k < |s| ==> s[k] != c
    ensures LastIndexOf(s, c) == i
  {
    LastIndexOfIsLast(s, c);
  }

  /** With no occurrence from i on, LastIndexOf finds one before i. */
  lemma LastIndexOfBelow(s: string, c: char, i: int)
    requires 0 <= i <= |s|
    requires forall k :: i <= k < |s| ==> s[k] != c
    ensures LastIndexOf(s, c) < i
  {
    LastIndexOfIsLast(s, c);
  }

  /** A dot that ExtensionAt describes is where splitext starts the extension. */
  lemma ExtensionAtIsStart(f: string, d: int)
    requires ExtensionAt(f, d)
    ensures ExtensionStart(f) == d
  {
    var k :| 0 <= k < d && f[k] != '.' && f[k] != '/' && forall m :: k < m < d ==> f[m] != '/';
    LastIndexOfAt(f, '.', d);
    LastIndexOfBelow(f, '/', k);
    var sep := LastIndexOf(f, '/');
    var part := f[sep + 1..d];
    assert part[k - sep - 1] == f[k];
  }

  /** Where splitext starts an extension, ExtensionAt holds. */
  lemma StartIsExtensionAt(f: string)
    requires ExtensionStart(f) >= 0
    ensures ExtensionAt(f, ExtensionStart(f))
  {
    LastIndexOfIsLast(f, '/');
    LastIndexOfIsLast(f, '.');
    var sep := LastIndexOf(f, '/');
    var dot := LastIndexOf(f, '.');
    var i :| 0 <= i < |f[sep + 1..dot]| && f[sep + 1..dot][i] != '.';
    var k := sep + 1 + i;
    assert f[k] != '.' && f[k] != '/';
  }

  /** Lower-casing turns no character into a dot, a slash or an upper-case
      letter, changes no dot or slash, and a second time changes nothing. */
  lemma LowerCharKeeps(c: char)
    ensures !('A' <= LowerChar(c) <= 'Z')
    ensures LowerChar(c) == '.' <==> c == '.'
    ensures LowerChar(c) == '/' <==> c == '/'
    ensures LowerChar(LowerChar(c)) == LowerChar(c)
  {
  }

  lemma LowerSlice(s: string, i: int, j: int)
    requires 0 <= i <= j <= |s|
    ensures Lower(s)[i..j] == Lower(s[i..j])
  {
  }

  /** After the dot that starts it, the raw extension has no dot and no slash. */
  lemma ExtensionTail(f: string)
    ensures var x := SplitExt(f).1;
      forall k :: 1 <= k < |x| ==> x[k] != '.' && x[k] != '/'
  {
    LastIndexOfIsLast(f, '/');
    LastIndexOfIsLast(f, '.');
    var x := SplitExt(f).1;
    var d := ExtensionStart(f);
    if d >= 0 {
      assert x == f[d..];
      forall k | 1 <= k < |x| ensures x[k] != '.' && x[k] != '/' {
        assert x[k] == f[d + k];
      }
    }
  }

  /** The extension is empty or a dot followed by lower-case-ASCII
      characters that are neither dots nor slashes. */
  lemma FileExtensionShape(f: string)
    ensures var e := FileExtension(f);
      && (e == "" || e[0] == '.')
      && (forall k :: 1 <= k < |e| ==> e[k] != '.' && e[k] != '/')
      && (forall k :: 0 <= k < |e| ==> !('A' <= e[k] <= 'Z'))
  {
    var x := SplitExt(f).1;
    var e := FileExtension(f);
    ExtensionTail(f);
    forall k | 0 <= k < |e| ensures e[k] == LowerChar(x[k]) && !('A' <= e[k] <= 'Z') {
      LowerCharKeeps(x[k]);
    }
    forall k | 1 <= k < |e| ensures e[k] != '.' && e[k] != '/' {
      LowerCharKeeps(x[k]);
    }
  }

  /** Lower-casing changes no dot and no slash, so it finds the same last one. */
  lemma {:induction false} LastIndexOfLower(s: string, c: char)
    requires c == '.' || c == '/'
    ensures LastIndexOf(Lower(s), c) == LastIndexOf(s, c)
  {
    if |s| > 0 {
      LowerSlice(s, 0, |s| - 1);
      assert Lower(s)[..|s| - 1] == Lower(s[..|s| - 1]);
      LowerCharKeeps(s[|s| - 1]);
      LastIndexOfLower(s[..|s| - 1], c);
    }
  }

  lemma OnlyDotsLower(s: string)
    ensures OnlyDots(Lower(s)) <==> OnlyDots(s)
  {
    forall k | 0 <= k < |s| ensures Lower(s)[k] == '.' <==> s[k] == '.' {
      LowerCharKeeps(s[k]);
    }
  }

  lemma LowerIdempotent(s: string)
    ensures Lower(Lower(s)) == Lower(s)
  {
    forall k | 0 <= k < |s| ensures Lower(Lower(s))[k] == Lower(s)[k] {
      LowerCharKeeps(s[k]);
    }
  }

  /** The extension starts at the same place whatever the case of the name. */
  lemma ExtensionStartLower(f: string)
    ensures ExtensionStart(Lower(f)) == ExtensionStart(f)
  {
    LastIndexOfLower(f, '/');
    LastIndexOfLower(f, '.');
    var sep := LastIndexOf(f, '/');
    var dot := LastIndexOf(f, '.');
    if dot > sep {
      LowerSlice(f, sep + 1, dot);
      OnlyDotsLower(f[sep + 1..dot]);
    }
  }

  /** The extension is found the same way whatever the case of the name:
      "Song.MP3" and "song.mp3" both have ".mp3". */
  lemma FileExtensionIgnoresCase(f: string)
    ensures FileExtension(Lower(f)) == FileExtension(f)
  {
    ExtensionStartLower(f);
    var d := ExtensionStart(f);
    if d >= 0 {
      LowerSlice(f, d, |f|);
      assert Lower(f)[d..] == Lower(f[d..]);
      LowerIdempotent(f[d..]);
    }
  }

  /** A leading dot does not start an extension. */
  lemma DotfileHasNoExtension()
    ensures FileExtension(".mp3") == ""
  {
    var f := ".mp3";
    assert f[0] == '.' && f[1] == 'm' && f[2] == 'p' && f[3] == '3';
    forall d ensures !ExtensionAt(f, d) {
      if 0 < d < |f| {
        assert f[d] != '.';
      }
    }
    FileExtensionCharacterised(f);
  }

  /** A dot before the last slash belongs to a directory name. */
  lemma DirectoryDotIsNoExtension()
    ensures FileExtension("a.mp3/b") == ""
  {
    var f := "a.mp3/b";
    assert f[0] == 'a' && f[1] == '.' && f[2] == 'm' && f[3] == 'p' && f[4] == '3' && f[5] == '/' && f[6] == 'b';
    forall d ensures !ExtensionAt(f, d) {
      if d == 1 {
        assert f[5] == '/';
      } else if 0 <= d < |f| {
        assert f[d] != '.';
      }
    }
    FileExtensionCharacterised(f);
  }

  // ---- _validate_file ----

  /** BadMediaType unless the extension is allowed and the content type,
      when present and non-empty, is allowed. */
  function ValidateFile(fileExtension: string, fileContentType: Option<string>): (r: Result<(), Error>)
    ensures r.Failure? ==> r.error == BadMediaType
  {
    if (fileContentType.Some? && fileContentType.value != "" && fileContentType.value !in AllowedAudioContentTypes)
       || fileExtension !in AllowedAudioExtensions
    then Failure(BadMediaType)
    else Success(())
  }

  /** A validated extension is a non-empty allowed one, so no name without
      an extension passes; a missing content type does not block an upload. */
  lemma ValidateFileAccepts(filename: string, contentType: Option<string>)
    ensures ValidateFile(FileExtension(filename), contentType).Success? ==>
      FileExtension(filename) in AllowedAudioExtensions && FileExtension(filename) != ""
    ensures ValidateFile(FileExtension(filename), None).Success? <==> FileExtension(filename) in AllowedAudioExtensions
    ensures FileExtension(filename) == "" ==> ValidateFile(FileExtension(filename), contentType) == Failure(BadMediaType)
  {
    assert "" !in AllowedAudioExtensions;
  }

  /** _validate_file accepts exactly an allowed extension together with a
      content type that is absent, empty (falsy) or one of the allowed ones;
      content types are compared exactly. */
  lemma ValidateFileDecides(fileExtension: string, fileContentType: Option<string>)
    ensures ValidateFile(fileExtension, fileContentType).Success? <==>
      && fileExtension in AllowedAudioExtensions
      && (fileContentType.None? || fileContentType.value == "" || fileContentType.value in AllowedAudioContentTypes)
  {
  }

  /** A content type differing from an allowed one only in case is refused,
      and an empty one is not checked. */
  lemma ContentTypeComparedExactly()
    ensures ValidateFile(".mp3", Some("audio/MPEG")) == Failure(BadMediaType)
    ensures ValidateFile(".mp3", Some("")) == Success(())
  {
    assert "audio/MPEG"[6] == 'M';
    assert forall k :: 0 <= k < |AllowedAudioContentTypes| ==> "audio/MPEG" != AllowedAudioContentTypes[k];
    assert ".mp3" == AllowedAudioExtensions[0];
  }

  // ---- save_local and save_db ----

  /** The UploadFile fields the service reads. */
  datatype Upload = Upload(filename: Option<string>, contentType: Option<string>)

  /** Path(dir) / name, for the absolute directory AUDIO_STORAGE_PATH_ABSOLUTE. */
  function JoinPath(dir: string, name: string): string {
    if |dir| > 0 && dir[|dir| - 1] == '/' then dir + name else dir + "/" + name
  }

  /** save_local on committed tables `t`: `random` stands for uuid4's bytes,
      `storageDir` for the storage directory and `written` for whether the
      chunked copy to disk succeeded. It commits nothing. */
  function SavedLocal(t: Tables, userId: int, filenameCustom: string, file: Upload, random: seq<Byte>,
                      storageDir: string, written: bool, reachable: bool): Result<AudioFileSaveLocal, Error>
    requires |random| == 16
  {
    var existing := GetByUserIdAndFilename(t, userId, filenameCustom, reachable).result;
    if existing.Failure? then Failure(existing.error)
    else if existing.value.Some? then Failure(ConflictException)
    else if file.filename.None? || file.filename.value == "" then Failure(BadRequestException)
    else
      var extension := FileExtension(file.filename.value);
      var valid := ValidateFile(extension, file.contentType);
      if valid.Failure? then Failure(valid.error)
      else
        var filenameUnique := Canonical(Uuid4(random)) + extension;
        if !written then Failure(InternalException)
        else Success(AudioFileSaveLocal(JoinPath(storageDir, filenameUnique), filenameUnique))
  }

  /** The checks come in this order: a name the user already has is a
      conflict whatever the upload; then a missing file name; then the media
      type; then the copy. A stored name is a fresh uuid4 followed by the
      lowered, allowed extension, inside the storage directory. When the
      database cannot be reached the lookup's InternalException is passed on. */
  lemma SavedLocalOutcome(t: Tables, userId: int, filenameCustom: string, file: Upload, random: seq<Byte>,
                          storageDir: string, written: bool)
    requires |random| == 16
    ensures var r := SavedLocal(t, userId, filenameCustom, file, random, storageDir, written, true);
      && ((exists j :: 0 <= j < |t.audioFiles| && t.audioFiles[j].userId == userId
                       && t.audioFiles[j].filenameOriginal == filenameCustom)
            <==> r == Failure(ConflictException))
      && (r.Success? ==>
            && file.filename.Some?
            && |r.value.filenameUnique| > 36
            && ParseCanonical(r.value.filenameUnique[..36]) == Some(Uuid4(random))
            && r.value.filenameUnique[36..] == FileExtension(file.filename.value)
            && r.value.filenameUnique[36..] in AllowedAudioExtensions
            && r.value.filepath == JoinPath(storageDir, r.value.filenameUnique)
            && written)
      && (r.Failure? && r != Failure(ConflictException) ==>
            GetByUserIdAndFilename(t, userId, filenameCustom, true).result == Success(None))
      && (file.filename.None? ==> r.Failure? && r.error in {ConflictException, BadRequestException})
    ensures SavedLocal(t, userId, filenameCustom, file, random, storageDir, written, false) == Failure(InternalException)
  {
    GetByUserIdAndFilenameFinds(t, userId, filenameCustom, true);
    var r := SavedLocal(t, userId, filenameCustom, file, random, storageDir, written, true);
    if r.Success? {
      var extension := FileExtension(file.filename.value);
      var u := Canonical(Uuid4(random));
      CanonicalRoundTrip(Uuid4(random));
      assert (u + extension)[..36] == u;
      assert (u + extension)[36..] == extension;
      ValidateFileAccepts(file.filename.value, file.contentType);
    }
  }

  /** Once no row has the custom name, the remaining checks come in the
      source's order: an absent or empty file name is BadRequestException;
      then a refused media type is BadMediaType whether or not the copy would
      succeed; then a failed copy is InternalException. The upload succeeds
      exactly when all of them pass. */
  lemma SavedLocalCheckOrder(t: Tables, userId: int, filenameCustom: string, file: Upload, random: seq<Byte>,
                             storageDir: string, written: bool)
    requires |random| == 16
    ensures var r := SavedLocal(t, userId, filenameCustom, file, random, storageDir, written, true);
      var vacant := GetByUserIdAndFilename(t, userId, filenameCustom, true).result == Success(None);
      var named := file.filename.Some? && file.filename.value != "";
      && (vacant && !named ==> r == Failure(BadRequestException))
      && (vacant && named && ValidateFile(FileExtension(file.filename.value), file.contentType).Failure? ==>
            r == Failure(BadMediaType))
      && (vacant && named && ValidateFile(FileExtension(file.filename.value), file.contentType).Success? && !written ==>
            r == Failure(InternalException))
      && (r.Success? <==>
            vacant && named && ValidateFile(FileExtension(file.filename.value), file.contentType).Success? && written)
  {
    GetByUserIdAndFilenameFinds(t, userId, filenameCustom, true);
  }

  /** save_db on committed tables `t`, with the id the sequence hands out next. */
  function SavedDb(t: Tables, nextAudioFileId: int, fileInfo: AudioFileCreateRequest, reachable: bool): Outcome<AudioFileCreateResponse> {
    var created := Create(t, nextAudioFileId, fileInfo, reachable);
    if created.result.Failure? then Outcome(Failure(created.result.error), t)
    else Outcome(Success(AudioFileCreateResponse(created.result.value.filenameOriginal, created.result.value.filenameUnique)),
                 created.tables)
  }

  /** The row is committed exactly when the owner exists, the unique name is
      new and the database is reachable; the response echoes the two names.
      A failure commits nothing. */
  lemma SavedDbOutcome(t: Tables, nextAudioFileId: int, fileInfo: AudioFileCreateRequest, reachable: bool)
    requires Consistent(t) && !KeyIn(t.audioFiles, AudioIdKey, nextAudioFileId)
    ensures var o := SavedDb(t, nextAudioFileId, fileInfo, reachable);
      && (o.result.Success? <==>
            reachable && HasUser(t.users, fileInfo.userId) && !KeyIn(t.audioFiles, FilenameUniqueKey, fileInfo.filenameUnique))
      && (o.result.Success? ==>
            && o.result.value == AudioFileCreateResponse(fileInfo.filenameOriginal, fileInfo.filenameUnique)
            && o.committed == t.(audioFiles := t.audioFiles + [AudioFile(nextAudioFileId, fileInfo.userId,
                   fileInfo.filenameOriginal, fileInfo.filenameUnique, fileInfo.filepath)]))
      && (o.result.Failure? ==> o == Outcome(Failure(InternalException), t))
  {
    CreateOutcome(t, nextAudioFileId, fileInfo, reachable);
  }

  /** Once a file is recorded, uploading again under the same custom name for
      the same user is refused with ConflictException. */
  lemma SavedDbThenConflict(t: Tables, nextAudioFileId: int, fileInfo: AudioFileCreateRequest,
                            file: Upload, random: seq<Byte>, storageDir: string, written: bool)
    requires |random| == 16
    requires Consistent(t) && !KeyIn(t.audioFiles, AudioIdKey, nextAudioFileId)
    requires SavedDb(t, nextAudioFileId, fileInfo, true).result.Success?
    ensures SavedLocal(SavedDb(t, nextAudioFileId, fileInfo, true).committed, fileInfo.userId,
                       fileInfo.filenameOriginal, file, random, storageDir, written, true) == Failure(ConflictException)
  {
    SavedDbOutcome(t, nextAudioFileId, fileInfo, true);
    CreateThenGet(t, nextAudioFileId, fileInfo);
  }

  class AudioFileService {
    const uow: UnitOfWork

    constructor (uow: UnitOfWork)
      ensures this.uow == uow
    {
      this.uow := uow;
    }

    /** save_local: the lookup runs in its own unit of work, which commits
        nothing; the file checks come after its exit. */
    method SaveLocal(file: Upload, filenameCustom: string, userId: int, random: seq<Byte>,
                     storageDir: string, written: bool) returns (r: Result<AudioFileSaveLocal, Error>)
      requires |random| == 16
      requires uow.db.Valid()
      modifies uow, uow.db
      ensures uow.db.Valid() && uow.db.durable == old(uow.db.durable)
      ensures r == SavedLocal(old(uow.db.durable), userId, filenameCustom, file, random, storageDir, written, uow.db.reachable)
      ensures uow.db.journal == old(uow.db.journal) + [Executed(Select(AudioFilesTable))] + [RolledBack, Closed]
    {
      uow.Enter();
      var repo := uow.GetAudioFileRepo();
      var existing := repo.GetOneByUserIdAndFilename(userId, filenameCustom);
      uow.Exit();
      if existing.Failure? {
        return Failure(existing.error);
      }
      if existing.value.Some? {
        return Failure(ConflictException);
      }
      if file.filename.None? || file.filename.value == "" {
        return Failure(BadRequestException);
      }
      var extension := FileExtension(file.filename.value);
      var valid := ValidateFile(extension, file.contentType);
      if valid.Failure? {
        return Failure(valid.error);
      }
      var filenameUnique := Canonical(Uuid4(random)) + extension;
      var filepath := JoinPath(storageDir, filenameUnique);
      if !written {
        return Failure(InternalException);
      }
      r := Success(AudioFileSaveLocal(filepath, filenameUnique));
    }

    /** save_db: insert, commit, exit; the response is built from the row. */
    method SaveDb(fileInfo: AudioFileCreateRequest) returns (r: Result<AudioFileCreateResponse, Error>)
      requires uow.db.Valid()
      modifies uow, uow.db
      ensures uow.db.Valid()
      ensures var o := SavedDb(old(uow.db.durable), old(uow.db.nextAudioFileId), fileInfo, uow.db.reachable);
        r == o.result && uow.db.durable == o.committed
      ensures r.Success? ==>
        uow.db.journal == old(uow.db.journal) + [Executed(Insert(AudioFilesTable))] + [Committed] + [RolledBack, Closed]
      ensures r.Failure? ==>
        uow.db.journal == old(uow.db.journal) + [Executed(Insert(AudioFilesTable))] + [RolledBack, Closed]
    {
      uow.Enter();
      var repo := uow.GetAudioFileRepo();
      var created := repo.CreateOne(fileInfo);
      if created.Failure? {
        uow.Exit();
        return Failure(created.error);
      }
      uow.Commit();
      uow.Exit();
      r := Success(AudioFileCreateResponse(created.value.filenameOriginal, created.value.filenameUnique));
    }
  }
}
