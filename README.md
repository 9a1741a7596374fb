# books-app: media files and answer compilation

This project models the part of the books-app backend that manages stored files:

- the book service creates, updates and removes books together with their cover images;
- the question service creates and updates questions together with their media and voice uploads, and resolves a stored file by its kind;
- both services compile a user's answered questions into a PDF document;
- two upload filters accept or refuse a file by its MIME type.

The disk is a `FileStore`, a map from reference (`files/books/<id>.<ext>` and so on) to content, plus a ghost trace of the writes and unlinks in the order they happen. A compiled PDF is held as its sequence of drawing operations (`RenderOp`): cover, subtitle, title, page break, fitted image, answer text. The book and question tables are repository classes over a `map` and a `seq`. Uuids are inputs that the callers guarantee are fresh. `openImage`, the PDF writer's image decoder, is a function parameter; it returns `None` for a file that cannot be read as an image.

The model follows the code, including where its behaviour is easy to miss:

- `update` removes the old file before it writes the new one.
- The question `update` unlinks the old file without checking that it exists, so a missing file aborts the update.
- Book `remove` keeps the cover file.
- No page break follows the cover.
- The compile's precondition counts every question of the user, answered or not.
- The book compile deletes *book* rows by the ids of the answered *questions*. Its final `update(bookId, book)` changes nothing if one of those deletions removed the compiled book.
- `isExists` never fails. It negates the Promise returned by `existsBy`, and a Promise is always truthy.

## Model

The render plans and the effect descriptions the contracts below are stated in are definitions without a row of their own:

- `Compile.EntriesPlan` (src/books/books.service.ts:147-176 and src/questions/questions.service.ts:134-161) is the answers section.
- `Compile.CoverOps` (src/books/books.service.ts:122-128) is the cover, `Compile.TitleOps` (src/books/books.service.ts:131-142) the title page, and `Compile.BookPlan` the whole book document.
- In `books.dfy`, `Books.RowsAfterCompile` is the book table after a compile (src/books/books.service.ts:174,178-179).
- In `questions.dfy`:
  - `Questions.PendingWrite` is the single write of `create` and `update` (src/questions/questions.service.ts:33-46,85-101);
  - `Questions.UnlinkOld` is the unlink of a replaced reference (src/questions/questions.service.ts:79-80,90-91);
  - `Questions.UploadPatch` is the patch with the new references (src/questions/questions.service.ts:84,95).

| member | source | states |
|---|---|---|
| Strings.LastSegment | src/books/books.service.ts:42-43 | the last `.`-segment of a name holds no separator, ends the name, and is preceded by a separator unless it is the whole name |
| Strings.Split | src/books/books.service.ts:42 | `split` yields at least one piece and no piece holds the separator |
| Strings.JoinSplit | src/books/books.service.ts:42 | joining the pieces of `split` gives back the string |
| Strings.SplitJoin | src/books/books.service.ts:42 | splitting a join of separator-free pieces gives back the pieces |
| Strings.SplitAfterSeparator | src/books/books.service.ts:42 | a separator followed by a separator-free tail adds exactly one last piece |
| Strings.SplitNoSeparator | src/books/books.service.ts:42 | a name without the separator splits into itself alone |
| Strings.LastOfSplit | src/books/books.service.ts:43 | `split(sep).pop()` and `split(sep)[length - 1]` are both `LastSegment` |
| Strings.LastSegmentWhole | src/questions/questions.service.ts:31-32 | a name with no dot is its own extension |
| Strings.LastSegmentAfter | src/books/books.service.ts:178 | the last segment after a separator is the separator-free tail |
| Strings.NatToString | src/questions/questions.service.ts:129 | the decimal rendering of a user id is non-empty, all digits, and longer than one digit exactly from 10 on |
| Strings.IntToString | src/questions/questions.service.ts:129 | a rendered id starts with `-` exactly when it is negative |
| Strings.NatToStringInjective | src/questions/questions.service.ts:129 | different natural ids render differently |
| Strings.IntToStringInjective | src/questions/questions.service.ts:129 | different ids render differently |
| Media.Extension | src/books/books.service.ts:41-43 | the extension holds no dot, ends the original name, and is the whole name when it has no dot |
| Media.StoredRef | src/books/books.service.ts:43 | a new reference lies in its directory and ends with `.` and the extension |
| Media.DirsKeepRefsApart | src/questions/questions.service.ts:32-40 | references in different store directories never coincide |
| Media.BookPdfPath | src/books/books.service.ts:111 | the book document lies in `files/pdf/` and ends in `.pdf` |
| Media.PersistedPdfIsOpenedPath | src/books/books.service.ts:178 | for a uuid without `/`, the reference recorded on the book is the path of the document written |
| Media.UserPdfPath | src/questions/questions.service.ts:129 | the user's document lies in `files/pdf/` and ends in `.pdf` |
| Media.UserPdfPathInjective | src/questions/questions.service.ts:129 | two users share a document path exactly when they are the same user, so compiling again overwrites the same file |
| Validators.AlternativeAtEnd | src/validators.ts:4 | the group followed by `$` matches at a position exactly when the rest of the string is one of the alternatives |
| Validators.SearchFrom | src/validators.ts:4 | the unanchored search succeeds exactly when some `/` is followed by an alternative up to the end |
| Validators.PatternMeansSubtype | src/validators.ts:4 | the regular expression matches exactly the MIME types ending in `/` and a listed subtype |
| Validators.MediaFileFilter | src/validators.ts:3-8 | one callback call; accepted iff the type ends in `/jpg`, `/jpeg`, `/png`, `/gif`, `/mp4` or `/mov`; accepted is `(null, true)`, refused is a 415 exception with its message and `false` |
| Validators.AudioFileFilter | src/validators.ts:10-15 | one callback call; accepted iff the type ends in `/mp3`, `/mpeg`, `/wav` or `/ogg`; accepted is `(null, true)`, refused is a 415 exception with its message and `false` |
| Validators.AnyPrefixAccepted | src/validators.ts:4 | whatever precedes the final `/subtype` is not looked at |
| Validators.SubtypeIsLastSegmentOnly | src/validators.ts:4 | a `/`-free matched subtype is the text after the last `/` |
| Validators.LastSegmentIsSubtype | src/validators.ts:4 | a type with a `/` ends in `/` and its last segment |
| Validators.SubtypeIsLastSegment | src/validators.ts:11 | with `/`-free subtypes, a type is accepted iff it has a `/` and its last segment is listed |
| Validators.RejectedSubtype | src/validators.ts:4 | a type whose last segment is not listed is refused |
| Validators.PngAccepted | src/validators.ts:4 | `image/png` is accepted by the media filter |
| Validators.CaseSensitive | src/validators.ts:4 | `image/PNG` is refused: the match is case-sensitive |
| Validators.AnchoredAtEnd | src/validators.ts:4 | `image/png;x` is refused: the match is anchored at the end |
| Validators.AudioAccepted | src/validators.ts:11 | `audio/mpeg` is accepted by the audio filter |
| Validators.ImageIsNotAudio | src/validators.ts:11 | `image/png` is refused by the audio filter |
| Validators.NoSlashInSubtypes | src/validators.ts:4 | no listed subtype holds a `/` |
| Validators.SubtypeListsDisjoint | src/validators.ts:11 | no subtype is in both lists |
| Validators.LongerSubtypeHoldsSlash | src/validators.ts:4 | of two `/subtype` endings of one string, the longer subtype holds the shorter one's `/` |
| Validators.SameLengthSubtypesEqual | src/validators.ts:4 | two `/subtype` endings of the same length are the same subtype |
| Validators.FiltersDisjoint | src/validators.ts:4-11 | no MIME type is accepted by both filters |
| Layout.FitImage | src/questions/questions.service.ts:145-152 | the fitted width is the page width less both margins, and the fitted size keeps the image's width-to-height ratio |
| Layout.FitIgnoresResolution | src/books/books.service.ts:158-165 | scaling an image uniformly does not change the size it is drawn at |
| Layout.DefaultPageFit | src/books/books.service.ts:155-165 | on the default page every image is 468 points wide, of positive height, and undistorted |
| Storage.FileStore.Access | src/books/books.service.ts:78 | `fs.access(...).then(true).catch(false)` is true exactly when the file exists |
| Storage.FileStore.WriteFile | src/books/books.service.ts:46 | the file holds exactly the written bytes and nothing else changes |
| Storage.FileStore.Unlink | src/questions/questions.service.ts:80 | an existing file is removed; a missing one rejects with ENOENT and changes nothing |
| Storage.FileStore.CreateWriteStream | src/books/books.service.ts:112 | opening the stream creates the file with an empty document |
| Storage.FileStore.EndDocument | src/books/books.service.ts:177 | ending the document leaves the drawn operations in its file |
| Records.OwnedBy | src/books/books.service.ts:101-104 | the user's questions are exactly the table's rows owned by the user |
| Records.FindById | src/questions/questions.service.ts:67 | a found row has the id and is in the table; no row is found only when none has the id |
| Records.FindAfterUpdate | src/questions/questions.service.ts:104-105 | after an update by id, looking the id up gives the old row with the patch applied, or nothing when there was none |
| Records.BookRepository.FindOne | src/books/books.service.ts:114 | the row with the id, or `null` when there is none |
| Records.BookRepository.Save | src/books/books.service.ts:48 | the new book is added under an unused id |
| Records.BookRepository.Update | src/books/books.service.ts:90 | the patch is applied to the row with the id; a missing id changes nothing |
| Records.BookRepository.Delete | src/books/books.service.ts:174 | the row with the id is gone; a missing id is no error |
| Records.QuestionRepository.Find | src/questions/questions.service.ts:56-59 | the user's rows in table order |
| Records.QuestionRepository.FindOne | src/questions/questions.service.ts:67 | the first row with the id, if any |
| Records.QuestionRepository.Save | src/questions/questions.service.ts:50 | the new question is appended |
| Records.QuestionRepository.Update | src/questions/questions.service.ts:104 | every row with the id gets the patch |
| Compile.MediaOps | src/books/books.service.ts:151-170 | at most one image, drawn exactly when the file exists and decodes, at the page's printable width with the image's proportions |
| Compile.EntryOps | src/books/books.service.ts:148-175 | an unanswered question draws nothing; an answered one draws its answer last, preceded by its image exactly when the media passes the variant's guard, exists and decodes |
| Compile.DrawEntry | src/questions/questions.service.ts:135-160 | one iteration of either compile loop draws exactly `EntryOps` |
| Compile.AnsweredExact | src/books/books.service.ts:148 | a question is kept exactly when it is one of the user's questions and is answered |
| Compile.TextsOfAppend | src/books/books.service.ts:172 | the text of two documents in a row is the text of the first, then the second |
| Compile.EntriesShowAnswers | src/books/books.service.ts:147-176 | the compiled answers show every answer in repository order, and no other text |
| Compile.AppendWellFormed | src/books/books.service.ts:147-176 | two well-formed answer sections in a row form one |
| Compile.EntryWellFormed | src/books/books.service.ts:148-172 | one entry draws only an image and text, the image fitted to the width and followed by its answer |
| Compile.EntriesWellFormed | src/books/books.service.ts:147-176 | the answers section holds only images and text; every image is fitted to the printable width and is followed by an answer; the section ends with an answer |
| Compile.EntriesPlanSnoc | src/questions/questions.service.ts:134 | the loop's plan for one more question is the earlier plan followed by that question's entry |
| Compile.EntriesPlanStep | src/books/books.service.ts:147 | one loop iteration extends the plan and the deleted ids by question `i` |
| Compile.UnansweredIgnored | src/books/books.service.ts:148 | unanswered questions contribute nothing to the document |
| Compile.VariantsAgree | src/questions/questions.service.ts:136 | unless a media reference is the literal `undefinded`, both services draw the same answers section |
| Compile.NoTexts | src/books/books.service.ts:122-142 | a document without text operations shows no text |
| Compile.CoverFirst | src/books/books.service.ts:122-128 | the book document starts with the cover exactly when the cover is set, is not `undefinded`, and exists |
| Compile.TitlePageSecond | src/books/books.service.ts:131-142 | subtitle, title and a page break follow the cover exactly when the book has both a title and a subtitle |
| Compile.BookShowsAnswers | src/books/books.service.ts:122-176 | the book document shows exactly the answers in order, because the cover and the title page carry none |
| Compile.TwoEntryScenario | src/books/books.service.ts:122-176 | for a book with a cover and a title page and two answers, one with an image, the document is exactly cover, subtitle, title, page break, image, answer, answer |
| Books.IsExists | src/books/books.service.ts:26-31 | the guard never fails, whatever the table holds |
| Books.DrawStep | src/books/books.service.ts:147-176 | one iteration keeps the compile loop's invariant: the plan so far and the rows deleted so far |
| Books.BooksService.Create | src/books/books.service.ts:33-51 | with a file, the cover is the new reference and exactly the upload's bytes are written there, nothing else on disk changes; without one, the disk is untouched; the row is saved with the owner |
| Books.BooksService.Update | src/books/books.service.ts:68-92 | with a file: the old cover is unlinked, before the write, exactly when it is set, is not `'undefined'` and exists; the new reference holds the bytes; the old one is gone; the patch, carrying the new reference, is applied. Without a file the disk is untouched and the patch is applied. A missing book fails with a file and gives `null` without one |
| Books.BooksService.DrawHeader | src/books/books.service.ts:122-142 | the cover (unless it is unreadable, which fails) and the title page, exactly as `CoverOps` and `TitleOps` |
| Books.BooksService.DrawAnswers | src/books/books.service.ts:145-176 | the loop draws exactly `EntriesPlan` after the header and deletes the book rows whose ids are those of the answered questions |
| Books.BooksService.DrawQuestion | src/books/books.service.ts:148-175 | an answered question draws its entry and deletes the book row with its id; an unanswered one does nothing |
| Books.BooksService.CompileBook | src/books/books.service.ts:121-180 | an unreadable cover fails and changes nothing; otherwise the document file holds `BookPlan`, the rows left after the deletions get the document reference on the compiled book, and the reference is returned |
| Books.BooksService.GeneratePdfForAllQuestions | src/books/books.service.ts:99-181 | no questions at all is LENGTH_REQUIRED with nothing written; a missing book is NOT_FOUND after the empty document was created; otherwise the outcome of `CompileBook` on the store holding the empty document |
| Books.BooksService.Remove | src/books/books.service.ts:94-97 | the row is gone and the disk is unchanged: the cover file stays |
| Questions.GetFile | src/questions/questions.service.ts:114-123 | `media` and `voice` map to their directories; any other kind is NOT_FOUND with "File not found" |
| Questions.GetFileFindsUpload | src/questions/questions.service.ts:114-119 | asking by kind for a stored upload's file name gives back the reference `create` recorded |
| Questions.KindsKeepPathsApart | src/questions/questions.service.ts:116-119 | for file names without a `..` segment, media and voice paths never coincide |
| Questions.BothUploadsWriteVoiceOnly | src/questions/questions.service.ts:33-46 | when both uploads are given, the voice file is written and the recorded media reference has no file |
| Questions.QuestionsService.Create | src/questions/questions.service.ts:22-53 | the given uploads' references are recorded on the question; only the pending upload (voice over media) is written; with both, the media reference is left without a file; the question is appended with its owner |
| Questions.QuestionsService.UnlinkReplaced | src/questions/questions.service.ts:79-81 | a set old reference is unlinked with no existence check: a missing file is ENOENT and changes nothing |
| Questions.QuestionsService.ReplaceUploads | src/questions/questions.service.ts:77-103 | the old media, then the old voice, are unlinked before the single pending write; an ENOENT stops the branch, keeping the earlier unlink; on success the replaced files are gone, the patch carries the new references, and with both uploads only the voice file is written |
| Questions.QuestionsService.Update | src/questions/questions.service.ts:72-108 | a missing question fails and changes nothing; a failed unlink aborts with no write and no row change; otherwise the pending upload is written, the patch applied and the patched row returned |
| Questions.QuestionsService.GeneratePdfForAllQuestions | src/questions/questions.service.ts:125-170 | the document lies at the user's own path and holds exactly the answers section of the user's questions, drawn against the store holding the empty document; no row changes |

## Left out

- PDF rendering: fonts, colours, coordinates, the `offset` and `counter` cursor arithmetic, `moveDown`, and the bytes pdfkit writes. A document is its sequence of drawing operations.
- Floating point: the image fit is computed over real numbers. Page size and margin are pdfkit's defaults for a new document (612 by 792, margins 72).
- `doc.openImage` and the decoding inside `doc.image` are the `decode` parameter. Of the failures of `doc.image`, only an undecodable cover is modelled. An undecodable question image is caught and only logged.
- Asynchronous completion: the unawaited `doc.end()`, the `finish` and `error` events of the write stream, and concurrent requests. A document is in its file once `EndDocument` runs.
- Filesystem failures other than a missing file on `unlink`: permissions, a missing directory, a full disk.
- Questions.GetFile: a file name with a `..` segment leaves its kind's directory in the code, because `path.join` resolves it; the model concatenates.
- `path.join(__dirname, '..', '..', ...)`: references are the keys of the store, read relative to the project root. The absolute path that the question compile and `getFile` return is given as the relative reference.
- The user lookup in `create` (`usersRepository.findOneBy`) and `delete ...user` are left out. The owner is stored as the user id.
- The `findAllForUser` and `findOne` read paths of the book service are left out, as is the question service's `remove`. They pass straight through to the repository.
- The other services (users, billings, payments, GPT, cron), the controllers, modules, guards and entities are not part of this model.
- Books.BooksService.Create, Books.BooksService.Update, Questions.QuestionsService.Create, Questions.QuestionsService.Update: the uuid of a new upload is an input, and these members require that it names no existing file.
- Questions.QuestionsService.Update: its own `ensures` do not state the order of the filesystem events. `ReplaceUploads` states it.
- Records.BookRepository.Save, Records.QuestionRepository.Save: the id the database hands out is an input that must be unused.
