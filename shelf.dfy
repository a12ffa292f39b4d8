/** The shared `books` array and the three handlers that change it: add (`books.push`),
    edit (`books[index] = {...}`) and delete (`books.splice(index, 1)`) (src/handler.js).
    The fresh id from `nanoid(16)` and the time from `new Date().toISOString()` are
    parameters. */
module Shelf {
  import opened Records
  import opened Queries

  /** Appending a well-formed record with an unused id keeps the store well formed,
      and the record is then the one its id finds. */
  lemma {:induction false} AppendKeepsWellFormed(books: seq<Book>, b: Book)
    requires WellFormed(books) && WellFormedBook(b) && !HasId(books, b.id)
    ensures WellFormed(books + [b])
    ensures FindIndex(books + [b], b.id) == |books|
  {
    var s := books + [b];
    assert forall j :: 0 <= j < |books| ==> s[j] == books[j];
    assert s[|books|] == b;
    forall i, j | 0 <= i < j < |s|
      ensures s[i].id != s[j].id
    {
      if j == |books| {
        assert s[i] == books[i];
      }
    }
  }

  /** Replacing a record by a well-formed one with the same id keeps the store well
      formed, and the id still finds the same position. */
  lemma {:induction false} ReplaceKeepsWellFormed(books: seq<Book>, i: int, b: Book)
    requires WellFormed(books) && 0 <= i < |books|
    requires WellFormedBook(b) && b.id == books[i].id
    ensures WellFormed(books[i := b])
    ensures FindIndex(books[i := b], b.id) == i
  {
    var s := books[i := b];
    assert forall j :: 0 <= j < |s| ==> s[j].id == books[j].id;
  }

  /** Removing the record at `i` keeps the store well formed, keeps the other records in
      order, and, ids being unique, leaves no record with the removed id. */
  lemma {:induction false} RemoveKeepsWellFormed(books: seq<Book>, i: int)
    requires WellFormed(books) && 0 <= i < |books|
    ensures WellFormed(books[..i] + books[i + 1..])
    ensures SubsequenceOf(books[..i] + books[i + 1..], books)
    ensures !HasId(books[..i] + books[i + 1..], books[i].id)
  {
    var s := books[..i] + books[i + 1..];
    assert forall j :: 0 <= j < |s| ==> s[j] == books[if j < i then j else j + 1];
    RemoveIsSubsequence(books, i);
  }

  /** Dropping one element leaves a subsequence. */
  lemma {:induction false} RemoveIsSubsequence<T>(t: seq<T>, i: int)
    requires 0 <= i < |t|
    ensures SubsequenceOf(t[..i] + t[i + 1..], t)
    decreases i
  {
    var s := t[..i] + t[i + 1..];
    if i == 0 {
      assert s == t[1..];
      SubsequenceOfSelf(t[1..]);
      assert s == [] || !(s[0] == t[0] && SubsequenceOf(s[1..], t[1..])) || SubsequenceOf(s[1..], t[1..]);
    } else {
      RemoveIsSubsequence(t[1..], i - 1);
      assert s[0] == t[0];
      assert s[1..] == t[1..][..i - 1] + t[1..][i..];
    }
  }

  /** The store: the records in insertion order. */
  class Bookshelf {
    var books: seq<Book>

    /** Every record is well formed and ids are unique. */
    ghost predicate Valid()
      reads this
    {
      WellFormed(books)
    }

    /** The store starts empty. */
    constructor ()
      ensures Valid() && books == []
    {
      books := [];
    }

    /** POST /books. The record is built first; a missing name and then a `readPage`
        beyond `pageCount` answer 400 before anything is stored; otherwise the record is
        appended and its id returned with 201. */
    method AddBook(p: Payload, id: string, now: string) returns (r: Response)
      requires Valid() && !HasId(books, id)
      modifies this
      ensures Valid()
      ensures Validate(p).Some? ==>
        r == Response(400, Failed(Validate(p).value)) && books == old(books)
      ensures Validate(p) == None ==>
        r == Response(201, Created(id)) && books == old(books) + [NewBook(p, id, now)]
      ensures Validate(p) == None ==>
        GetBookById(books, id) == Response(200, Found(NewBook(p, id, now)))
    {
      var newBook := NewBook(p, id, now);
      if p.name == "" {
        return Response(400, Failed(MissingName));
      }
      if p.readPage > p.pageCount {
        return Response(400, Failed(ReadPageExceedsPageCount));
      }
      AppendKeepsWellFormed(books, newBook);
      books := books + [newBook];
      // The source filters for the new id and answers 500 if the result is falsy;
      // an array is never falsy, so that branch cannot be taken.
      r := Response(201, Created(id));
    }

    /** PUT /books/{bookId}. The payload is validated before the id is looked up, so a
        bad payload answers 400 even for an unknown id; an unknown id answers 404; otherwise
        the first record with that id is replaced in place, keeping its id and insertedAt. */
    method EditBookById(bookId: string, p: Payload, now: string) returns (r: Response)
      requires Valid()
      modifies this
      ensures Valid()
      ensures Validate(p).Some? ==>
        r == Response(400, Failed(Validate(p).value)) && books == old(books)
      ensures Validate(p) == None && !HasId(old(books), bookId) ==>
        r == Response(404, Failed(IdNotFound)) && books == old(books)
      ensures Validate(p) == None && HasId(old(books), bookId) ==>
        var i := FindIndex(old(books), bookId);
        r == Response(200, Done) && books == old(books)[i := Revised(old(books)[i], p, now)]
      ensures Validate(p) == None && HasId(old(books), bookId) ==>
        GetBookById(books, bookId) ==
          Response(200, Found(Revised(old(books)[FindIndex(old(books), bookId)], p, now)))
    {
      if p.name == "" {
        return Response(400, Failed(MissingName));
      }
      if p.readPage > p.pageCount {
        return Response(400, Failed(ReadPageExceedsPageCount));
      }
      var index := FindIndex(books, bookId);
      if index != -1 {
        var revised := Revised(books[index], p, now);
        ReplaceKeepsWellFormed(books, index, revised);
        books := books[index := revised];
        return Response(200, Done);
      }
      r := Response(404, Failed(IdNotFound));
    }

    /** DELETE /books/{bookId}. The first record with that id is spliced out and the others
        keep their order; an unknown id answers 404 and changes nothing. */
    method DeleteBookById(bookId: string) returns (r: Response)
      requires Valid()
      modifies this
      ensures Valid()
      ensures !HasId(old(books), bookId) ==>
        r == Response(404, Failed(IdNotFound)) && books == old(books)
      ensures HasId(old(books), bookId) ==>
        var i := FindIndex(old(books), bookId);
        r == Response(200, Done) && books == old(books)[..i] + old(books)[i + 1..]
      ensures HasId(old(books), bookId) ==>
        |books| == |old(books)| - 1 && SubsequenceOf(books, old(books)) &&
        GetBookById(books, bookId) == Response(404, Failed(IdNotFound))
    {
      var index := FindIndex(books, bookId);
      if index != -1 {
        RemoveKeepsWellFormed(books, index);
        books := books[..index] + books[index + 1..];
        return Response(200, Done);
      }
      r := Response(404, Failed(IdNotFound));
    }
  }

  /** A client scenario, first half: "Dune" (400 of 400 pages) is
      finished, "Foundation" (100 of 300) is not, and the `finished=1` list shows only Dune. */
  method ScenarioAddAndList() returns (shelf: Bookshelf)
    ensures fresh(shelf) && shelf.Valid() && |shelf.books| == 2
    ensures shelf.books[0].id == "idA" && shelf.books[1].id == "idB"
    ensures shelf.books[1] == NewBook(Foundation(), "idB", "t1")
  {
    shelf := new Bookshelf();
    var a := shelf.AddBook(Dune(), "idA", "t0");
    assert a == Response(201, Created("idA"));
    var b := shelf.AddBook(Foundation(), "idB", "t1");
    assert b == Response(201, Created("idB"));
    var two := shelf.books;
    assert two == [NewBook(Dune(), "idA", "t0"), NewBook(Foundation(), "idB", "t1")];
    assert two[0].finished && !two[1].finished;
    assert two[1..] == [two[1]] && two[1..][1..] == [];
    assert Select(two, FinishedIs(true)) == [two[0]];
    var listed := GetAllBooks(two, Query("", "", "1"));
    assert listed.body.books == [Summary("idA", "Dune", "Chilton")];
  }

  /** A client scenario, second half: reading Foundation to its last page finishes it,
      and once Dune is deleted its id is no longer found. */
  method ScenarioEditAndDelete()
  {
    var shelf := ScenarioAddAndList();
    var edit := shelf.EditBookById("idB", Foundation().(readPage := 300), "t2");
    assert edit.code == 200 && shelf.books[1].finished;
    var gone := shelf.DeleteBookById("idA");
    assert gone.code == 200;
    assert GetBookById(shelf.books, "idA").code == 404;
  }

  function Dune(): Payload
  {
    Payload("Dune", 1965, "Frank Herbert", "desert", "Chilton", 400, 400, false)
  }

  function Foundation(): Payload
  {
    Payload("Foundation", 1951, "Isaac Asimov", "empire", "Gnome", 300, 100, true)
  }
}
