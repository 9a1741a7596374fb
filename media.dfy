/** How the services name the files they store: a fixed directory per kind of
    upload, a generated id, and the extension of the uploaded file's original name. */
module Media {
  import opened Strings

  const BooksDir: string := "files/books/"
  const MediaDir: string := "files/media/"
  const VoiceDir: string := "files/voice/"
  const PdfDir: string := "files/pdf/"

  /** The extension of an uploaded file: its original name's last `.`-separated segment. */
  function Extension(originalname: string): (ext: string)
    ensures '.' !in ext
    ensures '.' !in originalname ==> ext == originalname
    ensures EndsWith(originalname, ext)
  {
    LastSegment(originalname, '.')
  }

  /** `<dir>` + id + `.` + extension: the reference stored on a record for a new upload. */
  function StoredRef(dir: string, id: string, originalname: string): (ref: string)
    ensures |ref| > |dir| && ref[..|dir|] == dir
    ensures EndsWith(ref, "." + Extension(originalname))
  {
    var ext := Extension(originalname);
    var ref := dir + id + "." + ext;
    assert ref[|ref| - |"." + ext|..] == "." + ext;
    ref
  }

  /** The directories the services store uploads and documents in. */
  predicate IsStoreDir(dir: string) {
    dir == BooksDir || dir == MediaDir || dir == VoiceDir || dir == PdfDir
  }

  /** The directory a reference lives in can be read back from the reference: two
      references in different directories are never the same path. */
  lemma {:induction false} DirsKeepRefsApart(d1: string, d2: string, ref1: string, ref2: string)
    requires IsStoreDir(d1) && IsStoreDir(d2) && d1 != d2
    requires |ref1| >= |d1| && ref1[..|d1|] == d1
    requires |ref2| >= |d2| && ref2[..|d2|] == d2
    ensures ref1 != ref2
  {
    // every directory is "files/" followed by a word whose first letter is its own
    assert d1[6] == ref1[..|d1|][6] == ref1[6];
    assert d2[6] == ref2[..|d2|][6] == ref2[6];
  }

  /** The document produced by compiling a book: `files/pdf/questions_<uuid>.pdf`. */
  function BookPdfPath(uuid: string): (path: string)
    ensures |path| > |PdfDir| && path[..|PdfDir|] == PdfDir
    ensures EndsWith(path, ".pdf")
  {
    var path := PdfDir + "questions_" + uuid + ".pdf";
    assert path[|path| - 4..] == ".pdf";
    path
  }

  /** The reference a compiled book records is `files/pdf/` + the last `/`-segment of the
      document's path; for an id without `/` (every uuid) that is the path itself. */
  lemma PersistedPdfIsOpenedPath(uuid: string)
    requires '/' !in uuid
    ensures PdfDir + LastSegment(BookPdfPath(uuid), '/') == BookPdfPath(uuid)
  {
    var tail := "questions_" + uuid + ".pdf";
    assert BookPdfPath(uuid) == PdfDir + tail;
    assert '/' !in tail by {
      forall k | 0 <= k < |tail| ensures tail[k] != '/' {
        if 10 <= k < 10 + |uuid| {
          assert tail[k] == uuid[k - 10];
        }
      }
    }
    LastSegmentAfter(PdfDir, '/', tail);
  }

  /** The per-user document of the question service: `files/pdf/questions_<userId>.pdf`. */
  function UserPdfPath(userId: int): (path: string)
    ensures |path| > |PdfDir| && path[..|PdfDir|] == PdfDir
    ensures EndsWith(path, ".pdf")
  {
    var path := PdfDir + "questions_" + IntToString(userId) + ".pdf";
    assert path[|path| - 4..] == ".pdf";
    path
  }

  /** The per-user document path names the user: two users never share one, and the
      same user always gets the same one, so compiling again overwrites it. */
  lemma UserPdfPathInjective(u1: int, u2: int)
    ensures UserPdfPath(u1) == UserPdfPath(u2) <==> u1 == u2
  {
    if UserPdfPath(u1) == UserPdfPath(u2) {
      var prefix := PdfDir + "questions_";
      var s1, s2 := IntToString(u1), IntToString(u2);
      var p1, p2 := UserPdfPath(u1), UserPdfPath(u2);
      assert p1 == prefix + s1 + ".pdf";
      assert p2 == prefix + s2 + ".pdf";
      assert |s1| == |s2|;
      assert p1[|prefix|..|prefix| + |s1|] == s1;
      assert p2[|prefix|..|prefix| + |s2|] == s2;
      IntToStringInjective(u1, u2);
    }
  }
}
