/** The book record, the request payload, the handlers' responses, payload validation
    and the invariant every stored record keeps (src/handler.js). */
module Records {

  datatype Option<+T> = None | Some(value: T)

  /** One stored book. `id` comes from `nanoid(16)`, the two timestamps from
      `new Date().toISOString()`; both are opaque strings here. */
  datatype Book = Book(
    id: string,
    name: string,
    year: int,
    author: string,
    summary: string,
    publisher: string,
    pageCount: int,
    readPage: int,
    finished: bool,
    reading: bool,
    insertedAt: string,
    updatedAt: string)

  /** The fields a client sends to add or edit a book. An empty `name` stands for a
      missing one: both are falsy and fail the same check. */
  datatype Payload = Payload(
    name: string,
    year: int,
    author: string,
    summary: string,
    publisher: string,
    pageCount: int,
    readPage: int,
    reading: bool)

  /** Why a request failed; the response messages themselves are not modelled. */
  datatype Reason = MissingName | ReadPageExceedsPageCount | IdNotFound

  /** The `{id, name, publisher}` projection returned by the list handler. */
  datatype Summary = Summary(id: string, name: string, publisher: string)

  /** The success payload or the failure reason of a response. */
  datatype Body =
    | Created(bookId: string)
    | Found(book: Book)
    | Listed(books: seq<Summary>)
    | Done
    | Failed(reason: Reason)

  /** A handler's reply: the HTTP status code and its body. */
  datatype Response = Response(code: int, body: Body)

  /** `finished` is never sent by the client: it is derived from the two page counts. */
  predicate IsFinished(readPage: int, pageCount: int)
  {
    readPage == pageCount
  }

  /** The two payload checks shared by add and edit, in the order the handlers run them:
      a missing name first, then `readPage > pageCount`. `None` means the payload passes. */
  function Validate(p: Payload): (r: Option<Reason>)
    ensures r == None <==> p.name != "" && p.readPage <= p.pageCount
    ensures r == Some(MissingName) <==> p.name == ""
    ensures r != Some(IdNotFound)
  {
    if p.name == "" then Some(MissingName)
    else if p.readPage > p.pageCount then Some(ReadPageExceedsPageCount)
    else None
  }

  /** The record holds every field the client sent. */
  predicate Carries(b: Book, p: Payload)
  {
    b.name == p.name && b.year == p.year && b.author == p.author &&
    b.summary == p.summary && b.publisher == p.publisher &&
    b.pageCount == p.pageCount && b.readPage == p.readPage && b.reading == p.reading
  }

  /** The record the add handler builds before it validates. */
  function NewBook(p: Payload, id: string, now: string): (b: Book)
    ensures Carries(b, p) && b.id == id
    ensures b.finished == IsFinished(p.readPage, p.pageCount)
    ensures b.insertedAt == now && b.updatedAt == b.insertedAt
  {
    Book(id, p.name, p.year, p.author, p.summary, p.publisher,
         p.pageCount, p.readPage, IsFinished(p.readPage, p.pageCount), p.reading,
         now, now)
  }

  /** `{...old, name, year, ..., finished, updatedAt}`: the record the edit handler writes. */
  function Revised(prior: Book, p: Payload, now: string): (b: Book)
    ensures Carries(b, p)
    ensures b.id == prior.id && b.insertedAt == prior.insertedAt
    ensures b.finished == IsFinished(p.readPage, p.pageCount) && b.updatedAt == now
  {
    prior.(name := p.name, year := p.year, author := p.author, summary := p.summary,
           publisher := p.publisher, pageCount := p.pageCount, readPage := p.readPage,
           reading := p.reading, finished := IsFinished(p.readPage, p.pageCount),
           updatedAt := now)
  }

  /** What every stored record satisfies: it has a name, it has not read past its last
      page, and `finished` agrees with the page counts. */
  predicate WellFormedBook(b: Book)
  {
    b.name != "" && b.readPage <= b.pageCount && b.finished == IsFinished(b.readPage, b.pageCount)
  }

  /** Some record carries this id. */
  predicate HasId(books: seq<Book>, id: string)
  {
    exists i :: 0 <= i < |books| && books[i].id == id
  }

  /** No two records share an id. */
  predicate UniqueIds(books: seq<Book>)
  {
    forall i, j :: 0 <= i < j < |books| ==> books[i].id != books[j].id
  }

  /** The invariant of the whole store. */
  predicate WellFormed(books: seq<Book>)
  {
    UniqueIds(books) && forall i :: 0 <= i < |books| ==> WellFormedBook(books[i])
  }

  /** Every record built from a payload that passes validation is well formed,
      whether it is a new record or an edited one. */
  lemma ValidPayloadBuildsWellFormed(p: Payload, prior: Book, id: string, now: string)
    requires Validate(p) == None
    ensures WellFormedBook(NewBook(p, id, now))
    ensures WellFormedBook(Revised(prior, p, now))
  {
  }
}
