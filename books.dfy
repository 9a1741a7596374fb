/** The book service: creating, updating and removing books with their cover
    image, and compiling all of a user's answers into one document recorded on a book. */
module Books {
  import opened Wrappers
  import opened Errors
  import opened Strings
  import opened Media
  import opened Layout
  import opened Storage
  import opened Records
  import opened Compile

  const BookMissing: string := "Book with this id doesn`t exist"
  const BookMissingOnCompile: string := "Book with this id doesn`t exists"
  const NoQuestions: string := "You must answer at least one question"

  /** The pending result of `existsBy`: the guard receives this object, not a boolean. */
  datatype Promise<T> = Promise(result: T)

  /** JavaScript truthiness of an object: a Promise is truthy whatever it settles to. */
  predicate Truthy<T>(p: Promise<T>) {
    true
  }

  /** `isExists(id)`: the guard negates the Promise returned by `existsBy`, which is always
      truthy, so it never raises NOT_FOUND, whether or not the table has the book. */
  function IsExists(rows: map<int, Book>, id: int): (r: Result<(), Error>)
    ensures r == Ok(())
  {
    var pending := Promise(id in rows);
    if !Truthy(pending) then Err(HttpException(BookMissing, NOT_FOUND)) else Ok(())
  }

  /** The reference of a new cover upload. */
  function CoverRef(uuid: string, file: UploadedFile): string {
    StoredRef(BooksDir, uuid, file.originalname)
  }

  /** Whether `update` removes the old cover before writing the new one: it is set, is not
      the literal `'undefined'`, and the file exists. */
  predicate DeletesOldCover(cover: string, files: map<string, Content>) {
    cover != "" && cover != "undefined" && cover in files
  }

  /** The cover `doc.image` would draw is not readable as an image. */
  predicate CoverUnreadable(book: Book, store: map<string, Content>, decode: Decoder) {
    DrawsCover(book, store) && decode(store[book.coverImage]).None?
  }

  /** The book table after a compile: the rows whose ids are those of the answered questions
      are gone, and the compiled book, if its row is still there, records the document. */
  function RowsAfterCompile(rows: map<int, Book>, bookId: int, book: Book, qs: seq<Question>, ref: string)
    : map<int, Book>
  {
    var remaining := rows - AnsweredIds(qs);
    if bookId in remaining then remaining[bookId := book.(pdf := ref)] else remaining
  }

  lemma RemoveOneMore(rows: map<int, Book>, gone: set<int>, more: set<int>)
    ensures (rows - gone) - more == rows - (gone + more)
  {
  }

  /** The compile loop's invariant survives one iteration. */
  lemma DrawStep(rows0: map<int, Book>, before: map<int, Book>, after: map<int, Book>, qs: seq<Question>, i: nat,
                 store: map<string, Content>, decode: Decoder, header: seq<RenderOp>, plan: seq<RenderOp>,
                 entry: seq<RenderOp>)
    requires i < |qs|
    requires plan == header + EntriesPlan(BookService, qs[..i], store, decode)
    requires before == rows0 - AnsweredIds(qs[..i])
    requires entry == EntryOps(BookService, qs[i], store, decode)
    requires after == before - (if qs[i].answer != "" then {qs[i].id} else {})
    ensures plan + entry == header + EntriesPlan(BookService, qs[..i + 1], store, decode)
    ensures after == rows0 - AnsweredIds(qs[..i + 1])
  {
    EntriesPlanStep(BookService, qs, i, store, decode);
    RemoveOneMore(rows0, AnsweredIds(qs[..i]), if qs[i].answer != "" then {qs[i].id} else {});
  }

  class BooksService {
    const disk: FileStore
    const books: BookRepository
    const questions: QuestionRepository

    constructor (disk: FileStore, books: BookRepository, questions: QuestionRepository)
      ensures this.disk == disk && this.books == books && this.questions == questions
    {
      this.disk := disk;
      this.books := books;
      this.questions := questions;
    }

    /** `create(book, userId, file?)`: with a file, the cover is stored under a new name and
        the exact upload bytes are written there; without one, the disk is untouched. */
    method Create(book: Book, userId: int, file: Option<UploadedFile>, uuid: string, newId: int)
      returns (saved: Book)
      requires newId !in books.rows
      requires file.Some? ==> CoverRef(uuid, file.value) !in disk.files
      modifies disk, books
      ensures file.None? ==>
                saved == book.(owner := userId)
                && disk.files == old(disk.files) && disk.trace == old(disk.trace)
      ensures file.Some? ==>
                var ref := CoverRef(uuid, file.value);
                && saved == book.(owner := userId, coverImage := ref)
                && disk.files == old(disk.files)[ref := Bytes(file.value.buffer)]
                && ref !in old(disk.files)
                && disk.trace == old(disk.trace) + [Wrote(ref)]
      ensures books.rows == old(books.rows)[newId := saved]
    {
      var b := book.(owner := userId);
      if file.Some? {
        var ref := CoverRef(uuid, file.value);
        b := b.(coverImage := ref);
        disk.WriteFile(ref, file.value.buffer);
      }
      books.Save(newId, b);
      saved := b;
    }

    /** `update(id, updateData, file?)`.  With a file the old cover is unlinked first (when
        `DeletesOldCover`), then the new one is written and its reference patched in.  A
        missing book is not caught by `isExists`: with a file, reading its cover fails on
        `null`; without one, the update changes no row and the result is empty. */
    method Update(id: int, patch: BookPatch, file: Option<UploadedFile>, uuid: string)
      returns (r: Result<Option<Book>, Error>)
      requires file.Some? ==> CoverRef(uuid, file.value) !in disk.files
      modifies disk, books
      ensures id !in old(books.rows) ==>
                r == (if file.Some? then Err(TypeError) else Ok(None))
                && disk.files == old(disk.files) && disk.trace == old(disk.trace)
                && books.rows == old(books.rows)
      ensures id in old(books.rows) && file.None? ==>
                disk.files == old(disk.files) && disk.trace == old(disk.trace)
                && books.rows == old(books.rows)[id := ApplyBookPatch(old(books.rows)[id], patch)]
                && r == Ok(Some(books.rows[id]))
      ensures id in old(books.rows) && file.Some? ==>
                var cover := old(books.rows)[id].coverImage;
                var ref := CoverRef(uuid, file.value);
                var del := DeletesOldCover(cover, old(disk.files));
                && disk.files == (if del then old(disk.files) - {cover} else old(disk.files))
                                 [ref := Bytes(file.value.buffer)]
                && disk.trace == old(disk.trace) + (if del then [Unlinked(cover)] else []) + [Wrote(ref)]
                && (del ==> cover !in disk.files)
                && books.rows == old(books.rows)[id := ApplyBookPatch(old(books.rows)[id],
                                                                     patch.(coverImage := Some(ref)))]
                && r == Ok(Some(books.rows[id]))
    {
      var guard := IsExists(books.rows, id);
      assert guard.Ok?;
      var found := books.FindOne(id);
      var p := patch;
      if file.Some? {
        if found.None? {
          r := Err(TypeError);
          return;
        }
        var cover := found.value.coverImage;
        if cover != "" && cover != "undefined" {
          var present := disk.Access(cover);
          if present {
            var _ := disk.Unlink(cover);
          }
        }
        var ref := CoverRef(uuid, file.value);
        p := p.(coverImage := Some(ref));
        disk.WriteFile(ref, file.value.buffer);
      }
      books.Update(id, p);
      var after := books.FindOne(id);
      r := Ok(after);
    }

    /** The cover and the title page.  `None` is a cover the PDF writer cannot read: its
        `doc.image` is outside any `try`, so the compile fails. */
    method DrawHeader(book: Book, decode: Decoder) returns (header: Option<seq<RenderOp>>)
      ensures header.None? <==> DrawsCover(book, disk.files) && decode(disk.files[book.coverImage]).None?
      ensures header.Some? ==> header.value == CoverOps(book, disk.files) + TitleOps(book)
    {
      var plan: seq<RenderOp> := [];
      if book.coverImage != "" && book.coverImage != Undefinded {
        var present := disk.Access(book.coverImage);
        if present {
          if decode(disk.files[book.coverImage]).None? {
            return None;
          }
          plan := plan + [Cover(book.coverImage)];
        }
      }
      if book.title != "" && book.subtitle != "" {
        plan := plan + [Subtitle(book.subtitle), Title(book.title), NewPage];
      }
      header := Some(plan);
    }

    /** The compile loop: each answered question's image and answer are drawn after `header`,
        and the book row with the question's id is deleted. */
    method DrawAnswers(qs: seq<Question>, header: seq<RenderOp>, decode: Decoder) returns (plan: seq<RenderOp>)
      modifies books
      ensures plan == header + EntriesPlan(BookService, qs, disk.files, decode)
      ensures books.rows == old(books.rows) - AnsweredIds(qs)
    {
      plan := header;
      ghost var rows0 := books.rows;
      ghost var store := disk.files;
      var i := 0;
      while i < |qs|
        invariant 0 <= i <= |qs|
        invariant disk.files == store
        invariant plan == header + EntriesPlan(BookService, qs[..i], store, decode)
        invariant books.rows == rows0 - AnsweredIds(qs[..i])
      {
        var q := qs[i];
        ghost var before := books.rows;
        var entry := DrawQuestion(q, decode);
        DrawStep(rows0, before, books.rows, qs, i, store, decode, header, plan, entry);
        plan := plan + entry;
        i := i + 1;
      }
      assert qs[..i] == qs;
    }

    /** One iteration of the compile loop: an answered question is drawn and the book row
        with the question's id is deleted; an unanswered one changes nothing. */
    method DrawQuestion(q: Question, decode: Decoder) returns (entry: seq<RenderOp>)
      modifies books
      ensures entry == EntryOps(BookService, q, disk.files, decode)
      ensures books.rows == old(books.rows) - (if q.answer != "" then {q.id} else {})
    {
      entry := [];
      if q.answer != "" {
        entry := DrawEntry(disk, BookService, q, decode);
        books.Delete(q.id);
      }
    }

    /** The part of the compile after the book is found: cover, title page and answers are
        drawn, the document is written out and its reference recorded on the book. */
    method CompileBook(bookId: int, book: Book, qs: seq<Question>, path: string, decode: Decoder)
      returns (r: Result<string, Error>)
      requires bookId in books.rows && books.rows[bookId] == book
      modifies disk, books
      ensures CoverUnreadable(book, old(disk.files), decode) ==>
                r == Err(UnreadableImage(book.coverImage))
                && disk.files == old(disk.files) && disk.trace == old(disk.trace)
                && books.rows == old(books.rows)
      ensures !CoverUnreadable(book, old(disk.files), decode) ==>
                var ref := PdfDir + LastSegment(path, '/');
                && r == Ok(ref)
                && disk.files == old(disk.files)[path := Document(BookPlan(book, qs, old(disk.files), decode))]
                && disk.trace == old(disk.trace) + [Ended(path)]
                && books.rows == RowsAfterCompile(old(books.rows), bookId, book, qs, ref)
    {
      var header := DrawHeader(book, decode);
      if header.None? {
        r := Err(UnreadableImage(book.coverImage));
        return;
      }
      var plan := DrawAnswers(qs, header.value, decode);
      assert plan == BookPlan(book, qs, disk.files, decode);
      disk.EndDocument(path, plan);
      var ref := PdfDir + LastSegment(path, '/');
      assert ApplyBookPatch(book, WholeBook(book.(pdf := ref))) == book.(pdf := ref);
      books.Update(bookId, WholeBook(book.(pdf := ref)));
      r := Ok(ref);
    }

    /** `generatePdfForAllQuestions(userId, bookId)`.  After the (always passing) `isExists`
        guard: no questions at all is LENGTH_REQUIRED; otherwise the document's file is
        opened, and only then is the book looked up (NOT_FOUND leaves the empty document
        behind).  An unreadable cover aborts the compile.  Each answered question is drawn
        and the BOOK row with the question's id is deleted; at the end the document is
        written out, its reference is recorded on the book and returned. */
    method GeneratePdfForAllQuestions(userId: int, bookId: int, uuid: string, decode: Decoder)
      returns (r: Result<string, Error>)
      modifies disk, books
      ensures var qs := OwnedBy(questions.rows, userId);
              |qs| == 0 ==>
                r == Err(HttpException(NoQuestions, LENGTH_REQUIRED))
                && disk.files == old(disk.files) && disk.trace == old(disk.trace)
                && books.rows == old(books.rows)
      ensures var qs := OwnedBy(questions.rows, userId);
              var path := BookPdfPath(uuid);
              var afterOpen := old(disk.files)[path := Document([])];
              |qs| > 0 && bookId !in old(books.rows) ==>
                r == Err(HttpException(BookMissingOnCompile, NOT_FOUND))
                && disk.files == afterOpen && disk.trace == old(disk.trace) + [Opened(path)]
                && books.rows == old(books.rows)
      ensures var qs := OwnedBy(questions.rows, userId);
              var path := BookPdfPath(uuid);
              var afterOpen := old(disk.files)[path := Document([])];
              |qs| > 0 && bookId in old(books.rows) && CoverUnreadable(old(books.rows)[bookId], afterOpen, decode) ==>
                r == Err(UnreadableImage(old(books.rows)[bookId].coverImage))
                && disk.files == afterOpen && disk.trace == old(disk.trace) + [Opened(path)]
                && books.rows == old(books.rows)
      ensures var qs := OwnedBy(questions.rows, userId);
              var path := BookPdfPath(uuid);
              var afterOpen := old(disk.files)[path := Document([])];
              |qs| > 0 && bookId in old(books.rows) ==>
                var book := old(books.rows)[bookId];
                var ref := PdfDir + LastSegment(path, '/');
                !CoverUnreadable(book, afterOpen, decode) ==>
                  && r == Ok(ref)
                  && disk.files == afterOpen[path := Document(BookPlan(book, qs, afterOpen, decode))]
                  && disk.trace == old(disk.trace) + [Opened(path), Ended(path)]
                  && books.rows == RowsAfterCompile(old(books.rows), bookId, book, qs, ref)
    {
      var guard := IsExists(books.rows, bookId);
      assert guard.Ok?;
      var qs := questions.Find(userId);
      if |qs| == 0 {
        r := Err(HttpException(NoQuestions, LENGTH_REQUIRED));
        return;
      }
      var path := BookPdfPath(uuid);
      disk.CreateWriteStream(path);
      var found := books.FindOne(bookId);
      if found.None? {
        r := Err(HttpException(BookMissingOnCompile, NOT_FOUND));
        return;
      }
      r := CompileBook(bookId, found.value, qs, path, decode);
    }

    /** `remove(id)`: the row goes; its cover file stays on the disk. */
    method Remove(id: int) returns (r: Result<(), Error>)
      modifies books
      ensures r == Ok(())
      ensures books.rows == old(books.rows) - {id}
      ensures disk.files == old(disk.files) && disk.trace == old(disk.trace)
    {
      var guard := IsExists(books.rows, id);
      assert guard.Ok?;
      books.Delete(id);
      r := Ok(());
    }
  }
}
