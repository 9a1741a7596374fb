/** What the two `generatePdfForAllQuestions` variants draw, as a sequence of
    drawing operations.  The book service's variant draws a cover and a title page
    first and guards every reference against the literal `'undefinded'`; the question
    service's variant draws the answers only and guards media on being set. */
module Compile {
  import opened Wrappers
  import opened Layout
  import opened Storage
  import opened Records

  datatype Variant = BookService | QuestionService

  /** Reads the native size of an image file the way the PDF writer's `openImage` does;
      `None` is a file it cannot read as an image (it throws). */
  type Decoder = Content -> Option<ImageSize>

  /** The sentinel the book service compares references with (spelled as in the code). */
  const Undefinded: string := "undefinded"

  /** The compile loop's guard on a question's media reference. */
  predicate DrawsMedia(v: Variant, media: string) {
    media != "" && (v == BookService ==> media != Undefinded)
  }

  /** The image drawn for a media reference that passed the guard: nothing when the file
      is missing (`fs.access` fails) or cannot be read as an image (`openImage` throws
      and the error is only logged), else the image fitted to the page width. */
  function MediaOps(path: string, store: map<string, Content>, decode: Decoder): (ops: seq<RenderOp>)
    ensures |ops| <= 1
    ensures |ops| == 1 <==> path in store && decode(store[path]).Some?
    ensures |ops| == 1 ==>
              var size := decode(store[path]).value;
              && ops[0].Image? && ops[0].path == path
              && ops[0].width == PageWidth - 2.0 * MarginLeft
              && ops[0].height * size.width == ops[0].width * size.height
  {
    if path in store then
      match decode(store[path])
      case Some(size) =>
        var fit := FitImage(PageWidth, MarginLeft, size);
        [Image(path, fit.width, fit.height)]
      case None => []
    else []
  }

  /** What one question contributes: nothing when it has no answer, else its image (when
      there is one to draw) followed by its answer. */
  function EntryOps(v: Variant, q: Question, store: map<string, Content>, decode: Decoder): (ops: seq<RenderOp>)
    ensures q.answer == "" ==> ops == []
    ensures q.answer != "" ==> 1 <= |ops| <= 2 && ops[|ops| - 1] == Text(q.answer)
    ensures |ops| == 2 <==>
              q.answer != "" && DrawsMedia(v, q.media) && q.media in store
              && decode(store[q.media]).Some?
    ensures |ops| == 2 ==> ops[0].Image? && ops[0].path == q.media
  {
    if q.answer == "" then []
    else (if DrawsMedia(v, q.media) then MediaOps(q.media, store, decode) else []) + [Text(q.answer)]
  }

  /** The compile loop over the user's questions, in repository order. */
  function EntriesPlan(v: Variant, qs: seq<Question>, store: map<string, Content>, decode: Decoder): seq<RenderOp>
    decreases |qs|
  {
    if qs == [] then []
    else EntriesPlan(v, qs[..|qs| - 1], store, decode) + EntryOps(v, qs[|qs| - 1], store, decode)
  }

  /** One answered question, as both compile loops draw it: its image when the reference
      passes the variant's guard, the file exists and decodes (a failure to decode is only
      logged), then its answer. */
  method DrawEntry(disk: FileStore, v: Variant, q: Question, decode: Decoder) returns (entry: seq<RenderOp>)
    requires q.answer != ""
    ensures entry == EntryOps(v, q, disk.files, decode)
  {
    entry := [];
    if q.media != "" && (v == BookService ==> q.media != Undefinded) {
      var present := disk.Access(q.media);
      if present {
        match decode(disk.files[q.media])
        case Some(size) =>
          var fit := FitImage(PageWidth, MarginLeft, size);
          entry := [Image(q.media, fit.width, fit.height)];
        case None =>
      }
    }
    entry := entry + [Text(q.answer)];
  }

  /** The cover is drawn when it is set, is not the sentinel and the file exists. */
  predicate DrawsCover(book: Book, store: map<string, Content>) {
    book.coverImage != "" && book.coverImage != Undefinded && book.coverImage in store
  }

  function CoverOps(book: Book, store: map<string, Content>): seq<RenderOp> {
    if DrawsCover(book, store) then [Cover(book.coverImage)] else []
  }

  /** Subtitle, title and a page break, when the book has both a title and a subtitle. */
  function TitleOps(book: Book): seq<RenderOp> {
    if book.title != "" && book.subtitle != "" then [Subtitle(book.subtitle), Title(book.title), NewPage]
    else []
  }

  /** The book service's document: cover, title page, then the answers. */
  function BookPlan(book: Book, qs: seq<Question>, store: map<string, Content>, decode: Decoder): seq<RenderOp> {
    CoverOps(book, store) + TitleOps(book) + EntriesPlan(BookService, qs, store, decode)
  }

  /** The answers of the answered questions, in order. */
  function Answers(qs: seq<Question>): seq<string>
    decreases |qs|
  {
    if qs == [] then []
    else Answers(qs[..|qs| - 1]) + (if qs[|qs| - 1].answer != "" then [qs[|qs| - 1].answer] else [])
  }

  /** The answered questions, in order. */
  function Answered(qs: seq<Question>): (r: seq<Question>)
    ensures forall k :: 0 <= k < |r| ==> r[k].answer != ""
    decreases |qs|
  {
    if qs == [] then []
    else Answered(qs[..|qs| - 1]) + (if qs[|qs| - 1].answer != "" then [qs[|qs| - 1]] else [])
  }

  /** `Answered` keeps exactly the answered questions. */
  lemma {:induction false} AnsweredExact(qs: seq<Question>)
    ensures forall q :: q in Answered(qs) <==> q in qs && q.answer != ""
    decreases |qs|
  {
    if qs != [] {
      var init, last := qs[..|qs| - 1], qs[|qs| - 1];
      AnsweredExact(init);
      assert qs == init + [last];
    }
  }

  /** The ids of the answered questions. */
  function AnsweredIds(qs: seq<Question>): set<int>
    decreases |qs|
  {
    if qs == [] then {}
    else AnsweredIds(qs[..|qs| - 1]) + (if qs[|qs| - 1].answer != "" then {qs[|qs| - 1].id} else {})
  }

  /** The text drawn by a document, in order. */
  function TextsOf(ops: seq<RenderOp>): seq<string>
    decreases |ops|
  {
    if ops == [] then []
    else (if ops[0].Text? then [ops[0].text] else []) + TextsOf(ops[1..])
  }

  lemma {:induction false} TextsOfAppend(a: seq<RenderOp>, b: seq<RenderOp>)
    ensures TextsOf(a + b) == TextsOf(a) + TextsOf(b)
    decreases |a|
  {
    if a != [] {
      assert (a + b)[0] == a[0];
      assert (a + b)[1..] == a[1..] + b;
      TextsOfAppend(a[1..], b);
    } else {
      assert a + b == b;
    }
  }

  /** The document shows every answer, in repository order, and nothing else as text. */
  lemma {:induction false} EntriesShowAnswers(v: Variant, qs: seq<Question>, store: map<string, Content>, decode: Decoder)
    ensures TextsOf(EntriesPlan(v, qs, store, decode)) == Answers(qs)
    decreases |qs|
  {
    if qs != [] {
      var init, q := qs[..|qs| - 1], qs[|qs| - 1];
      EntriesShowAnswers(v, init, store, decode);
      TextsOfAppend(EntriesPlan(v, init, store, decode), EntryOps(v, q, store, decode));
      var e := EntryOps(v, q, store, decode);
      if |e| == 2 {
        assert TextsOf(e[1..]) == [q.answer];
      }
    }
  }

  /** Between the answers there are only images, each fitted to the printable width and
      each followed by the answer it belongs to. */
  ghost predicate WellFormedEntries(ops: seq<RenderOp>) {
    (forall k :: 0 <= k < |ops| ==> ops[k].Image? || ops[k].Text?)
    && (forall k :: 0 <= k < |ops| && ops[k].Image? ==>
          k + 1 < |ops| && ops[k + 1].Text? && ops[k].width == PageWidth - 2.0 * MarginLeft)
    && (|ops| > 0 ==> ops[|ops| - 1].Text?)
  }

  lemma AppendWellFormed(a: seq<RenderOp>, e: seq<RenderOp>)
    requires WellFormedEntries(a) && WellFormedEntries(e)
    ensures WellFormedEntries(a + e)
  {
    var p := a + e;
    forall k | 0 <= k < |p| && p[k].Image?
      ensures k + 1 < |p| && p[k + 1].Text? && p[k].width == PageWidth - 2.0 * MarginLeft
    {
      if k < |a| {
        assert p[k] == a[k];
        if k + 1 < |a| {
          assert p[k + 1] == a[k + 1];
        }
      } else {
        assert p[k] == e[k - |a|];
        assert p[k + 1] == e[k + 1 - |a|];
      }
    }
    assert forall k :: 0 <= k < |p| ==> p[k] == if k < |a| then a[k] else e[k - |a|];
  }

  lemma EntryWellFormed(v: Variant, q: Question, store: map<string, Content>, decode: Decoder)
    ensures WellFormedEntries(EntryOps(v, q, store, decode))
  {
    var e := EntryOps(v, q, store, decode);
    if |e| == 2 {
      var m := MediaOps(q.media, store, decode);
      assert e == m + [Text(q.answer)];
      assert e[0] == m[0];
    }
  }

  lemma {:induction false} EntriesWellFormed(v: Variant, qs: seq<Question>, store: map<string, Content>, decode: Decoder)
    ensures WellFormedEntries(EntriesPlan(v, qs, store, decode))
    decreases |qs|
  {
    if qs != [] {
      var init, q := qs[..|qs| - 1], qs[|qs| - 1];
      EntriesWellFormed(v, init, store, decode);
      EntryWellFormed(v, q, store, decode);
      AppendWellFormed(EntriesPlan(v, init, store, decode), EntryOps(v, q, store, decode));
    }
  }

  lemma EntriesPlanSnoc(v: Variant, qs: seq<Question>, q: Question, store: map<string, Content>, decode: Decoder)
    ensures EntriesPlan(v, qs + [q], store, decode) == EntriesPlan(v, qs, store, decode) + EntryOps(v, q, store, decode)
  {
    assert (qs + [q])[..|qs|] == qs;
  }

  /** One more step of a compile loop over `qs`: the plan and the answered ids grow by
      question `i`'s contribution. */
  lemma EntriesPlanStep(v: Variant, qs: seq<Question>, i: nat, store: map<string, Content>, decode: Decoder)
    requires i < |qs|
    ensures EntriesPlan(v, qs[..i + 1], store, decode)
         == EntriesPlan(v, qs[..i], store, decode) + EntryOps(v, qs[i], store, decode)
    ensures AnsweredIds(qs[..i + 1]) == AnsweredIds(qs[..i]) + (if qs[i].answer != "" then {qs[i].id} else {})
  {
    var next := qs[..i + 1];
    assert next[..|next| - 1] == qs[..i];
    assert next[|next| - 1] == qs[i];
  }

  /** Unanswered questions contribute nothing. */
  lemma {:induction false} UnansweredIgnored(v: Variant, qs: seq<Question>, store: map<string, Content>, decode: Decoder)
    ensures EntriesPlan(v, qs, store, decode) == EntriesPlan(v, Answered(qs), store, decode)
    decreases |qs|
  {
    if qs != [] {
      var init, q := qs[..|qs| - 1], qs[|qs| - 1];
      UnansweredIgnored(v, init, store, decode);
      assert qs == init + [q];
      EntriesPlanSnoc(v, init, q, store, decode);
      if q.answer != "" {
        assert Answered(qs) == Answered(init) + [q];
        EntriesPlanSnoc(v, Answered(init), q, store, decode);
      } else {
        assert Answered(qs) == Answered(init) + [] == Answered(init);
        assert EntryOps(v, q, store, decode) == [];
        assert EntriesPlan(v, init, store, decode) + [] == EntriesPlan(v, init, store, decode);
      }
    }
  }

  /** Unless some media reference is the literal sentinel, both variants draw the same answers
      section. */
  lemma {:induction false} VariantsAgree(qs: seq<Question>, store: map<string, Content>, decode: Decoder)
    requires forall k :: 0 <= k < |qs| ==> qs[k].media != Undefinded
    ensures EntriesPlan(BookService, qs, store, decode) == EntriesPlan(QuestionService, qs, store, decode)
    decreases |qs|
  {
    if qs != [] {
      VariantsAgree(qs[..|qs| - 1], store, decode);
      assert qs[|qs| - 1].media != Undefinded;
    }
  }

  lemma {:induction false} NoTexts(ops: seq<RenderOp>)
    requires forall k :: 0 <= k < |ops| ==> !ops[k].Text?
    ensures TextsOf(ops) == []
    decreases |ops|
  {
    if ops != [] {
      NoTexts(ops[1..]);
    }
  }

  /** The book document starts with the cover exactly when the cover is drawn. */
  lemma CoverFirst(book: Book, qs: seq<Question>, store: map<string, Content>, decode: Decoder)
    ensures var p := BookPlan(book, qs, store, decode);
            |p| > 0 && p[0].Cover? <==> DrawsCover(book, store)
  {
    var c, t, e := CoverOps(book, store), TitleOps(book), EntriesPlan(BookService, qs, store, decode);
    var p := c + t + e;
    assert p == BookPlan(book, qs, store, decode);
    EntriesWellFormed(BookService, qs, store, decode);
    if c == [] && |p| > 0 {
      if t != [] {
        assert p[0] == t[0];
      } else {
        assert p[0] == e[0];
      }
    }
  }

  /** Right after the cover come subtitle, title and a page break, exactly when the book has
      both a title and a subtitle. */
  lemma TitlePageSecond(book: Book, qs: seq<Question>, store: map<string, Content>, decode: Decoder)
    ensures var p := BookPlan(book, qs, store, decode);
            var h := |CoverOps(book, store)|;
            h + 3 <= |p| && p[h..h + 3] == [Subtitle(book.subtitle), Title(book.title), NewPage]
            <==> book.title != "" && book.subtitle != ""
  {
    var c, t, e := CoverOps(book, store), TitleOps(book), EntriesPlan(BookService, qs, store, decode);
    var p := c + t + e;
    var h := |c|;
    assert p == BookPlan(book, qs, store, decode);
    EntriesWellFormed(BookService, qs, store, decode);
    if t != [] {
      assert p[h..h + 3] == t;
    } else if h + 3 <= |p| {
      assert p[h..h + 3][0] == p[h] == e[0];
    }
  }

  /** The book document shows exactly the answers, in order: cover and title page carry none. */
  lemma BookShowsAnswers(book: Book, qs: seq<Question>, store: map<string, Content>, decode: Decoder)
    ensures TextsOf(BookPlan(book, qs, store, decode)) == Answers(qs)
  {
    var c, t, e := CoverOps(book, store), TitleOps(book), EntriesPlan(BookService, qs, store, decode);
    var h := c + t;
    assert BookPlan(book, qs, store, decode) == h + e;
    assert forall k :: 0 <= k < |h| ==> !h[k].Text?;
    NoTexts(h);
    EntriesShowAnswers(BookService, qs, store, decode);
    TextsOfAppend(h, e);
  }

  /** A book with a cover, a title and a subtitle, and a user with an answered question with
      an image and an answered question without one: cover, title page, image, two answers. */
  lemma TwoEntryScenario(store: map<string, Content>, decode: Decoder, book: Book, q1: Question, q2: Question)
    requires DrawsCover(book, store) && book.title == "My Year" && book.subtitle == "2024"
    requires q1.answer != "" && DrawsMedia(BookService, q1.media) && q1.media in store
    requires decode(store[q1.media]).Some?
    requires q2.answer != "" && q2.media == ""
    ensures var fit := FitImage(PageWidth, MarginLeft, decode(store[q1.media]).value);
            BookPlan(book, [q1, q2], store, decode)
            == [Cover(book.coverImage), Subtitle("2024"), Title("My Year"), NewPage,
                Image(q1.media, fit.width, fit.height), Text(q1.answer), Text(q2.answer)]
  {
    var fit := FitImage(PageWidth, MarginLeft, decode(store[q1.media]).value);
    var e1, e2 := EntryOps(BookService, q1, store, decode), EntryOps(BookService, q2, store, decode);
    assert e1 == [Image(q1.media, fit.width, fit.height), Text(q1.answer)] by {
      assert e1 == MediaOps(q1.media, store, decode) + [Text(q1.answer)];
    }
    assert e2 == [Text(q2.answer)];
    assert [q1, q2][..1] == [q1] && [q1][..0] == [];
    assert EntriesPlan(BookService, [q1], store, decode) == [] + e1;
    assert EntriesPlan(BookService, [q1, q2], store, decode) == e1 + e2;
  }
}
