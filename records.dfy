/** The rows the services read and write, with the repositories that hold them.
    A column the services leave `null` or `undefined` is the empty string here, so
    "the field is set" (JavaScript truthiness) is "the field is not empty". */
module Records {
  import opened Wrappers

  datatype Book = Book(owner: int, title: string, subtitle: string, coverImage: string, pdf: string)

  /** `Partial<Book>`: the columns an update assigns. */
  datatype BookPatch = BookPatch(
    title: Option<string>, subtitle: Option<string>, coverImage: Option<string>, pdf: Option<string>)

  function ApplyBookPatch(b: Book, p: BookPatch): Book {
    Book(b.owner, p.title.GetOr(b.title), p.subtitle.GetOr(b.subtitle),
         p.coverImage.GetOr(b.coverImage), p.pdf.GetOr(b.pdf))
  }

  /** An update that passes a whole book assigns every column it carries. */
  function WholeBook(b: Book): BookPatch {
    BookPatch(Some(b.title), Some(b.subtitle), Some(b.coverImage), Some(b.pdf))
  }

  datatype Question = Question(
    id: int, owner: int, question: string, answer: string, media: string, voice: string)

  /** `Partial<Question>`: the columns an update assigns. */
  datatype QuestionPatch = QuestionPatch(
    question: Option<string>, answer: Option<string>, media: Option<string>, voice: Option<string>)

  function ApplyQuestionPatch(q: Question, p: QuestionPatch): Question {
    Question(q.id, q.owner, p.question.GetOr(q.question), p.answer.GetOr(q.answer),
             p.media.GetOr(q.media), p.voice.GetOr(q.voice))
  }

  /** `find({ where: { user: { id: userId } } })`: the user's rows, in table order. */
  function OwnedBy(rows: seq<Question>, userId: int): (r: seq<Question>)
    ensures |r| <= |rows|
    ensures forall q :: q in r ==> q in rows && q.owner == userId
    ensures forall q :: q in rows && q.owner == userId ==> q in r
  {
    if rows == [] then []
    else (if rows[0].owner == userId then [rows[0]] else []) + OwnedBy(rows[1..], userId)
  }

  /** `findOne({ where: { id } })`: the first row with the id, if any. */
  function FindById(rows: seq<Question>, id: int): (r: Option<Question>)
    ensures r.Some? ==> r.value in rows && r.value.id == id
    ensures r.None? ==> forall q :: q in rows ==> q.id != id
  {
    if rows == [] then None
    else if rows[0].id == id then Some(rows[0])
    else FindById(rows[1..], id)
  }

  /** `update(id, patch)`: every row with the id gets the patch. */
  function UpdateById(rows: seq<Question>, id: int, p: QuestionPatch): seq<Question> {
    if rows == [] then []
    else [if rows[0].id == id then ApplyQuestionPatch(rows[0], p) else rows[0]]
         + UpdateById(rows[1..], id, p)
  }

  /** After an update by id the row found by that id is the old one with the patch applied. */
  lemma {:induction false} FindAfterUpdate(rows: seq<Question>, id: int, p: QuestionPatch)
    ensures FindById(UpdateById(rows, id, p), id)
         == if FindById(rows, id).Some? then Some(ApplyQuestionPatch(FindById(rows, id).value, p))
            else None
  {
    if rows != [] {
      FindAfterUpdate(rows[1..], id, p);
    }
  }

  class BookRepository {
    var rows: map<int, Book>

    constructor (initial: map<int, Book>)
      ensures rows == initial
    {
      rows := initial;
    }

    method FindOne(id: int) returns (r: Option<Book>)
      ensures id in rows ==> r == Some(rows[id])
      ensures id !in rows ==> r == None
    {
      r := if id in rows then Some(rows[id]) else None;
    }

    /** `save(book)` of a new book: the database hands out an unused id. */
    method Save(id: int, b: Book)
      requires id !in rows
      modifies this
      ensures rows == old(rows)[id := b]
    {
      rows := rows[id := b];
    }

    /** `update(id, patch)`: no row changes when there is none with the id. */
    method Update(id: int, p: BookPatch)
      modifies this
      ensures id in old(rows) ==> rows == old(rows)[id := ApplyBookPatch(old(rows)[id], p)]
      ensures id !in old(rows) ==> rows == old(rows)
    {
      if id in rows {
        rows := rows[id := ApplyBookPatch(rows[id], p)];
      }
    }

    /** `delete(id)`: deleting a missing id is no error. */
    method Delete(id: int)
      modifies this
      ensures rows == old(rows) - {id}
    {
      rows := rows - {id};
    }
  }

  class QuestionRepository {
    var rows: seq<Question>

    constructor (initial: seq<Question>)
      ensures rows == initial
    {
      rows := initial;
    }

    method Find(userId: int) returns (qs: seq<Question>)
      ensures qs == OwnedBy(rows, userId)
    {
      qs := OwnedBy(rows, userId);
    }

    method FindOne(id: int) returns (r: Option<Question>)
      ensures r == FindById(rows, id)
    {
      r := FindById(rows, id);
    }

    /** `save(question)` of a new question: the database hands out an unused id. */
    method Save(q: Question)
      requires FindById(rows, q.id).None?
      modifies this
      ensures rows == old(rows) + [q]
    {
      rows := rows + [q];
    }

    method Update(id: int, p: QuestionPatch)
      modifies this
      ensures rows == UpdateById(old(rows), id, p)
    {
      rows := UpdateById(rows, id, p);
    }
  }
}
