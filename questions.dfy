/** The question service: creating and updating questions with their media and voice
    uploads, resolving a stored file by kind, and compiling a user's answers. */
module Questions {
  import opened Wrappers
  import opened Errors
  import opened Strings
  import opened Media
  import opened Layout
  import opened Storage
  import opened Records
  import opened Compile

  const FileNotFound: string := "File not found"

  /** The `files` argument: at most one media and one voice upload. */
  datatype Uploads = Uploads(media: Option<UploadedFile>, voice: Option<UploadedFile>)

  function MediaRef(id: string, file: UploadedFile): string {
    StoredRef(MediaDir, id, file.originalname)
  }

  function VoiceRef(id: string, file: UploadedFile): string {
    StoredRef(VoiceDir, id, file.originalname)
  }

  predicate HasMedia(files: Option<Uploads>) {
    files.Some? && files.value.media.Some?
  }

  predicate HasVoice(files: Option<Uploads>) {
    files.Some? && files.value.voice.Some?
  }

  /** The single write both `create` and `update` end with: `uploadPath` and `uploadBuff`
      are assigned by the media branch and then again by the voice branch, so the voice
      upload is the one written when both are given. */
  function PendingWrite(files: Option<Uploads>, mediaId: string, voiceId: string): Option<(string, seq<byte>)> {
    if HasVoice(files) then Some((VoiceRef(voiceId, files.value.voice.value), files.value.voice.value.buffer))
    else if HasMedia(files) then Some((MediaRef(mediaId, files.value.media.value), files.value.media.value.buffer))
    else None
  }

  function AfterWrite(store: map<string, Content>, pending: Option<(string, seq<byte>)>): map<string, Content> {
    if pending.Some? then store[pending.value.0 := Bytes(pending.value.1)] else store
  }

  function WriteEvents(pending: Option<(string, seq<byte>)>): seq<FsEvent> {
    if pending.Some? then [Wrote(pending.value.0)] else []
  }

  /** The `unlink` of an old reference before a replacement upload: it happens when the
      upload is given and the reference is set, with no existence check, so a missing file
      is an ENOENT error. */
  function UnlinkOld(store: map<string, Content>, ref: string, replacing: bool): Result<map<string, Content>, Error> {
    if !replacing || ref == "" then Ok(store)
    else if ref in store then Ok(store - {ref})
    else Err(Enoent(ref))
  }

  function UnlinkEvents(store: map<string, Content>, ref: string, replacing: bool): seq<FsEvent> {
    if replacing && ref != "" && ref in store then [Unlinked(ref)] else []
  }

  /** The columns `update` assigns: the caller's patch, with the new references of the
      uploads given. */
  function UploadPatch(patch: QuestionPatch, files: Option<Uploads>, mediaId: string, voiceId: string): QuestionPatch {
    var p := if HasMedia(files) then patch.(media := Some(MediaRef(mediaId, files.value.media.value))) else patch;
    if HasVoice(files) then p.(voice := Some(VoiceRef(voiceId, files.value.voice.value))) else p
  }

  /** `getFile(type, filename)`: the path of a stored upload of the given kind. */
  function GetFile(kind: string, filename: string): (r: Result<string, Error>)
    ensures r.Ok? <==> kind == "media" || kind == "voice"
    ensures kind == "media" ==> r == Ok(MediaDir + filename)
    ensures kind == "voice" ==> r == Ok(VoiceDir + filename)
    ensures r.Err? ==> r.error == HttpException(FileNotFound, NOT_FOUND)
  {
    match kind
    case "media" => Ok(MediaDir + filename)
    case "voice" => Ok(VoiceDir + filename)
    case _ => Err(HttpException(FileNotFound, NOT_FOUND))
  }

  /** Asking for the file name of a stored upload under its own kind gives back the
      reference `create` recorded for it. */
  lemma GetFileFindsUpload(id: string, file: UploadedFile)
    ensures GetFile("media", id + "." + Extension(file.originalname)) == Ok(MediaRef(id, file))
    ensures GetFile("voice", id + "." + Extension(file.originalname)) == Ok(VoiceRef(id, file))
  {
    var name := id + "." + Extension(file.originalname);
    assert MediaDir + name == MediaDir + id + "." + Extension(file.originalname);
    assert VoiceDir + name == VoiceDir + id + "." + Extension(file.originalname);
  }

  /** Media and voice paths never coincide for file names without a `..` segment, which
      `path.join` would resolve out of the kind's directory.  Every name `create` records
      (an id, a dot and a dot-free extension) is such a name when the id holds no `.`. */
  lemma {:induction false} KindsKeepPathsApart(mediaName: string, voiceName: string)
    requires ".." !in Split(mediaName, '/') && ".." !in Split(voiceName, '/')
    ensures GetFile("media", mediaName) != GetFile("voice", voiceName)
  {
    var m, v := MediaDir + mediaName, VoiceDir + voiceName;
    assert m[..|MediaDir|] == MediaDir;
    assert v[..|VoiceDir|] == VoiceDir;
    DirsKeepRefsApart(MediaDir, VoiceDir, m, v);
  }

  /** Writing the pending upload of `create` or `update` leaves the other upload's new
      reference without a file when both are given. */
  lemma {:induction false} BothUploadsWriteVoiceOnly(store: map<string, Content>, files: Option<Uploads>,
                                                     mediaId: string, voiceId: string)
    requires HasMedia(files) && HasVoice(files)
    requires MediaRef(mediaId, files.value.media.value) !in store
    ensures MediaRef(mediaId, files.value.media.value) !in AfterWrite(store, PendingWrite(files, mediaId, voiceId))
    ensures VoiceRef(voiceId, files.value.voice.value) in AfterWrite(store, PendingWrite(files, mediaId, voiceId))
  {
    var m, v := MediaRef(mediaId, files.value.media.value), VoiceRef(voiceId, files.value.voice.value);
    DirsKeepRefsApart(MediaDir, VoiceDir, m, v);
  }

  class QuestionsService {
    const disk: FileStore
    const questions: QuestionRepository

    constructor (disk: FileStore, questions: QuestionRepository)
      ensures this.disk == disk && this.questions == questions
    {
      this.disk := disk;
      this.questions := questions;
    }

    /** `create(question, userId, files?)`: the references of the given uploads are
        recorded on the question, and the pending upload alone is written. */
    method Create(question: Question, userId: int, files: Option<Uploads>, mediaId: string, voiceId: string,
                  newId: int)
      returns (saved: Question)
      requires FindById(questions.rows, newId).None?
      requires HasMedia(files) ==> MediaRef(mediaId, files.value.media.value) !in disk.files
      requires HasVoice(files) ==> VoiceRef(voiceId, files.value.voice.value) !in disk.files
      modifies disk, questions
      ensures saved.id == newId && saved.owner == userId
      ensures saved.question == question.question && saved.answer == question.answer
      ensures saved.media == if HasMedia(files) then MediaRef(mediaId, files.value.media.value) else question.media
      ensures saved.voice == if HasVoice(files) then VoiceRef(voiceId, files.value.voice.value) else question.voice
      ensures disk.files == AfterWrite(old(disk.files), PendingWrite(files, mediaId, voiceId))
      ensures disk.trace == old(disk.trace) + WriteEvents(PendingWrite(files, mediaId, voiceId))
      ensures HasMedia(files) && HasVoice(files) ==> saved.media !in disk.files && saved.voice in disk.files
      ensures questions.rows == old(questions.rows) + [saved]
    {
      var q := question.(id := newId, owner := userId);
      var upload: Option<(string, seq<byte>)> := None;
      if files.Some? {
        if files.value.media.Some? {
          var ref := MediaRef(mediaId, files.value.media.value);
          q := q.(media := ref);
          upload := Some((ref, files.value.media.value.buffer));
        }
        if files.value.voice.Some? {
          var ref := VoiceRef(voiceId, files.value.voice.value);
          q := q.(voice := ref);
          upload := Some((ref, files.value.voice.value.buffer));
        }
        if upload.Some? {
          disk.WriteFile(upload.value.0, upload.value.1);
        }
      }
      if HasMedia(files) && HasVoice(files) {
        BothUploadsWriteVoiceOnly(old(disk.files), files, mediaId, voiceId);
      }
      questions.Save(q);
      saved := q;
    }

    /** The unlink of an old reference before its replacement is written. */
    method UnlinkReplaced(ref: string) returns (r: Result<(), Error>)
      modifies disk
      ensures UnlinkOld(old(disk.files), ref, true).Err? ==>
                r == Err(Enoent(ref)) && disk.files == old(disk.files) && disk.trace == old(disk.trace)
      ensures UnlinkOld(old(disk.files), ref, true).Ok? ==>
                r == Ok(()) && disk.files == UnlinkOld(old(disk.files), ref, true).value
                && disk.trace == old(disk.trace) + UnlinkEvents(old(disk.files), ref, true)
    {
      r := Ok(());
      if ref != "" {
        r := disk.Unlink(ref);
      }
    }

    /** The `files` branch of `update`: for each given upload the old reference is unlinked
        (when set) and the new one assigned on the patch; then the pending upload is written.
        An unlink that fails ends the branch, keeping what was unlinked before it. */
    method ReplaceUploads(q: Question, patch: QuestionPatch, files: Option<Uploads>, mediaId: string, voiceId: string)
      returns (r: Result<QuestionPatch, Error>)
      requires HasMedia(files) ==> MediaRef(mediaId, files.value.media.value) !in disk.files
      requires HasVoice(files) ==> VoiceRef(voiceId, files.value.voice.value) !in disk.files
      modifies disk
      ensures var s1 := UnlinkOld(old(disk.files), q.media, HasMedia(files));
              s1.Err? ==>
                r == Err(Enoent(q.media)) && disk.files == old(disk.files) && disk.trace == old(disk.trace)
      ensures var s1 := UnlinkOld(old(disk.files), q.media, HasMedia(files));
              s1.Ok? && UnlinkOld(s1.value, q.voice, HasVoice(files)).Err? ==>
                r == Err(Enoent(q.voice)) && disk.files == s1.value
                && disk.trace == old(disk.trace) + UnlinkEvents(old(disk.files), q.media, HasMedia(files))
      ensures var s1 := UnlinkOld(old(disk.files), q.media, HasMedia(files));
              s1.Ok? && UnlinkOld(s1.value, q.voice, HasVoice(files)).Ok? ==>
                var s2 := UnlinkOld(s1.value, q.voice, HasVoice(files)).value;
                var pending := PendingWrite(files, mediaId, voiceId);
                && r == Ok(UploadPatch(patch, files, mediaId, voiceId))
                && disk.files == AfterWrite(s2, pending)
                && disk.trace == old(disk.trace) + UnlinkEvents(old(disk.files), q.media, HasMedia(files))
                                 + UnlinkEvents(s1.value, q.voice, HasVoice(files)) + WriteEvents(pending)
                && (HasMedia(files) && q.media != "" ==> q.media !in disk.files)
                && (HasVoice(files) && q.voice != "" ==> q.voice !in disk.files)
                && (HasMedia(files) && HasVoice(files) ==>
                      MediaRef(mediaId, files.value.media.value) !in disk.files
                      && VoiceRef(voiceId, files.value.voice.value) in disk.files)
    {
      var p := patch;
      if files.Some? {
        var upload: Option<(string, seq<byte>)> := None;
        if files.value.media.Some? {
          var gone := UnlinkReplaced(q.media);
          if gone.Err? {
            r := Err(gone.error);
            return;
          }
          var ref := MediaRef(mediaId, files.value.media.value);
          p := p.(media := Some(ref));
          upload := Some((ref, files.value.media.value.buffer));
        }
        if files.value.voice.Some? {
          var gone := UnlinkReplaced(q.voice);
          if gone.Err? {
            r := Err(gone.error);
            return;
          }
          var ref := VoiceRef(voiceId, files.value.voice.value);
          p := p.(voice := Some(ref));
          upload := Some((ref, files.value.voice.value.buffer));
        }
        ghost var beforeWrite := disk.files;
        if upload.Some? {
          disk.WriteFile(upload.value.0, upload.value.1);
        }
        if HasMedia(files) && HasVoice(files) {
          BothUploadsWriteVoiceOnly(beforeWrite, files, mediaId, voiceId);
        }
      }
      r := Ok(p);
    }

    /** `update(id, updateData, files?)`.  The question is looked up first (a missing one
        fails when `findOne` reads a field of `null`); then the uploads replace the old files
        as `ReplaceUploads` states, and only when that succeeds is the patch applied and the
        updated row returned. */
    method Update(id: int, patch: QuestionPatch, files: Option<Uploads>, mediaId: string, voiceId: string)
      returns (r: Result<Question, Error>)
      requires HasMedia(files) ==> MediaRef(mediaId, files.value.media.value) !in disk.files
      requires HasVoice(files) ==> VoiceRef(voiceId, files.value.voice.value) !in disk.files
      modifies disk, questions
      ensures FindById(old(questions.rows), id).None? ==>
                r == Err(TypeError) && disk.files == old(disk.files) && disk.trace == old(disk.trace)
                && questions.rows == old(questions.rows)
      ensures FindById(old(questions.rows), id).Some? ==>
                var q := FindById(old(questions.rows), id).value;
                var s1 := UnlinkOld(old(disk.files), q.media, HasMedia(files));
                var s2 := if s1.Ok? then UnlinkOld(s1.value, q.voice, HasVoice(files)) else s1;
                && (s1.Err? ==> r == Err(Enoent(q.media)) && disk.files == old(disk.files))
                && (s1.Ok? && s2.Err? ==> r == Err(Enoent(q.voice)) && disk.files == s1.value)
                && (s2.Err? ==> questions.rows == old(questions.rows))
                && (s2.Ok? ==>
                      var p := UploadPatch(patch, files, mediaId, voiceId);
                      && disk.files == AfterWrite(s2.value, PendingWrite(files, mediaId, voiceId))
                      && questions.rows == UpdateById(old(questions.rows), id, p)
                      && r == Ok(ApplyQuestionPatch(q, p)))
    {
      var found := questions.FindOne(id);
      if found.None? {
        r := Err(TypeError);
        return;
      }
      var q := found.value;
      var replaced := ReplaceUploads(q, patch, files, mediaId, voiceId);
      if replaced.Err? {
        r := Err(replaced.error);
        return;
      }
      var p := replaced.value;
      questions.Update(id, p);
      FindAfterUpdate(old(questions.rows), id, p);
      var updated := questions.FindOne(id);
      r := Ok(updated.value);
    }

    /** `generatePdfForAllQuestions(userId, bookId)`: the user's answers, with their images,
        drawn into the user's own document; `bookId` is not used and no row changes. */
    method GeneratePdfForAllQuestions(userId: int, bookId: string, decode: Decoder) returns (path: string)
      modifies disk
      ensures path == UserPdfPath(userId)
      ensures var afterOpen := old(disk.files)[path := Document([])];
              disk.files == afterOpen[path := Document(EntriesPlan(QuestionService, OwnedBy(questions.rows, userId),
                                                                   afterOpen, decode))]
      ensures disk.trace == old(disk.trace) + [Opened(path), Ended(path)]
    {
      var qs := questions.Find(userId);
      path := UserPdfPath(userId);
      disk.CreateWriteStream(path);
      ghost var afterOpen, trace0 := disk.files, disk.trace;
      var plan: seq<RenderOp> := [];
      var i := 0;
      while i < |qs|
        invariant 0 <= i <= |qs|
        invariant disk.files == afterOpen && disk.trace == trace0
        invariant plan == EntriesPlan(QuestionService, qs[..i], disk.files, decode)
      {
        var q := qs[i];
        EntriesPlanStep(QuestionService, qs, i, disk.files, decode);
        if q.answer != "" {
          var entry := DrawEntry(disk, QuestionService, q, decode);
          plan := plan + entry;
        }
        i := i + 1;
      }
      assert qs[..i] == qs;
      disk.EndDocument(path, plan);
    }
  }
}
