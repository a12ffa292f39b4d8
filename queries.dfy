/** The read-only handlers over the store's records: `Array.prototype.findIndex` and
    `filter` as used by the handlers, the `{id, name, publisher}` projection, the list
    handler with its one-filter-by-priority rule, and the get-by-id handler
    (src/handler.js). Neither handler changes the records, so both are functions of them. */
module Queries {
  import opened Text
  import opened Records

  /** `books.findIndex((book) => book.id === id)`: the first index with that id, or -1. */
  function FindIndex(books: seq<Book>, id: string): (i: int)
    ensures -1 <= i < |books|
    ensures i == -1 <==> !HasId(books, id)
    ensures 0 <= i ==> books[i].id == id && forall j :: 0 <= j < i ==> books[j].id != id
  {
    if books == [] then -1
    else if books[0].id == id then 0
    else
      var k := FindIndex(books[1..], id);
      assert forall j :: 1 <= j < |books| ==> books[j] == books[1..][j - 1];
      if k == -1 then -1 else k + 1
  }

  /** The predicates the handlers pass to `books.filter`. */
  datatype Filter =
    | NameContains(query: string)
    | ReadingIs(reading: bool)
    | FinishedIs(finished: bool)
    | IdIs(id: string)

  /** The name filter: case-insensitive containment of the query in the book's name. */
  predicate NameMatches(name: string, query: string)
  {
    Contains(Lower(name), Lower(query))
  }

  predicate Selects(f: Filter, b: Book)
  {
    match f
    case NameContains(q) => NameMatches(b.name, q)
    case ReadingIs(r) => b.reading == r
    case FinishedIs(d) => b.finished == d
    case IdIs(id) => b.id == id
  }

  /** `s` is `t` with some elements dropped, the rest in their original order. */
  ghost predicate SubsequenceOf<T>(s: seq<T>, t: seq<T>)
    decreases |t|
  {
    if s == [] then true
    else if t == [] then false
    else (s[0] == t[0] && SubsequenceOf(s[1..], t[1..])) || SubsequenceOf(s, t[1..])
  }

  /** `books.filter(...)`: keeps exactly the selected records, in order. */
  function Select(books: seq<Book>, f: Filter): (r: seq<Book>)
    ensures |r| <= |books|
    ensures forall b :: b in r <==> b in books && Selects(f, b)
    ensures SubsequenceOf(r, books)
    ensures forall b :: multiset(r)[b] == if Selects(f, b) then multiset(books)[b] else 0
  {
    if books == [] then []
    else
      var rest := Select(books[1..], f);
      assert books == [books[0]] + books[1..];
      assert multiset(books) == multiset([books[0]]) + multiset(books[1..]);
      assert forall b :: b in books <==> b == books[0] || b in books[1..];
      if Selects(f, books[0]) then [books[0]] + rest else rest
  }

  function Summarize(b: Book): Summary
  {
    Summary(b.id, b.name, b.publisher)
  }

  /** `.map((book) => ({ id, name, publisher }))`. */
  function Project(books: seq<Book>): (r: seq<Summary>)
    ensures |r| == |books|
    ensures forall i :: 0 <= i < |books| ==> r[i] == Summarize(books[i])
  {
    seq(|books|, i requires 0 <= i < |books| => Summarize(books[i]))
  }

  /** The query string of the list request; an absent parameter is "". */
  datatype Query = Query(name: string, reading: string, finished: string)

  /** The only values of `reading` and `finished` that switch their filter on. */
  predicate IsFlag(v: string)
  {
    v == "0" || v == "1"
  }

  /** Which single filter the list handler applies: a non-empty name wins, then a
      `reading` of "0"/"1", then a `finished` of "0"/"1"; otherwise none. */
  function ChooseFilter(q: Query): (r: Option<Filter>)
    ensures r == None <==> q.name == "" && !IsFlag(q.reading) && !IsFlag(q.finished)
    ensures r.Some? ==> !r.value.IdIs?
    ensures q.name != "" ==> r == Some(NameContains(q.name))
    ensures q.name == "" && IsFlag(q.reading) ==> r == Some(ReadingIs(q.reading == "1"))
    ensures q.name == "" && !IsFlag(q.reading) && IsFlag(q.finished) ==>
      r == Some(FinishedIs(q.finished == "1"))
  {
    if q.name != "" then Some(NameContains(q.name))
    else if IsFlag(q.reading) then Some(ReadingIs(q.reading == "1"))
    else if IsFlag(q.finished) then Some(FinishedIs(q.finished == "1"))
    else None
  }

  /** GET /books: projections of the records the chosen filter keeps, or of all records.
      It always answers 200. */
  function GetAllBooks(books: seq<Book>, q: Query): (r: Response)
    ensures r.code == 200 && r.body.Listed?
    ensures |r.body.books| <= |books|
    ensures SubsequenceOf(r.body.books, Project(books))
    ensures ChooseFilter(q) == None ==> r.body.books == Project(books)
    ensures ChooseFilter(q).Some? ==> |r.body.books| == |Select(books, ChooseFilter(q).value)|
    ensures ChooseFilter(q).Some? ==>
      forall b :: b in books && Selects(ChooseFilter(q).value, b) ==> Summarize(b) in r.body.books
    ensures ChooseFilter(q).Some? ==>
      forall s :: s in r.body.books ==>
        exists b :: b in books && Selects(ChooseFilter(q).value, b) && s == Summarize(b)
  {
    var shown := match ChooseFilter(q)
      case None => books
      case Some(f) => Select(books, f);
    SubsequenceOfSelf(books);
    ProjectSubsequence(shown, books);
    ProjectMembers(shown);
    Response(200, Listed(Project(shown)))
  }

  /** GET /books/{bookId}: `books.filter(id matches)[0]`, or 404 when nothing matches. */
  function GetBookById(books: seq<Book>, id: string): (r: Response)
    ensures r.code == 200 || r.code == 404
    ensures r.code == 404 <==> !HasId(books, id)
    ensures r.code == 404 ==> r.body == Failed(IdNotFound)
    ensures r.code == 200 ==> r.body == Found(books[FindIndex(books, id)])
  {
    var matches := Select(books, IdIs(id));
    SelectIdHead(books, id);
    if |matches| > 0 then Response(200, Found(matches[0]))
    else Response(404, Failed(IdNotFound))
  }

  /** Every sequence is a subsequence of itself. */
  lemma {:induction false} SubsequenceOfSelf<T>(s: seq<T>)
    ensures SubsequenceOf(s, s)
    decreases |s|
  {
    if s != [] {
      SubsequenceOfSelf(s[1..]);
    }
  }

  /** Projection keeps the subsequence relation. */
  lemma {:induction false} ProjectSubsequence(s: seq<Book>, t: seq<Book>)
    requires SubsequenceOf(s, t)
    ensures SubsequenceOf(Project(s), Project(t))
    decreases |t|
  {
    if s != [] {
      assert Project(t)[1..] == Project(t[1..]);
      if s[0] == t[0] && SubsequenceOf(s[1..], t[1..]) {
        assert Project(s)[1..] == Project(s[1..]);
        ProjectSubsequence(s[1..], t[1..]);
      } else {
        ProjectSubsequence(s, t[1..]);
      }
    }
  }

  /** Every projection comes from a record of the list, and every record is projected. */
  lemma ProjectMembers(books: seq<Book>)
    ensures forall s :: s in Project(books) <==> exists b :: b in books && s == Summarize(b)
  {
  }

  /** The first record the id filter keeps is the one `findIndex` finds, so get-by-id and
      edit/delete agree on which record an id names. */
  lemma {:induction false} SelectIdHead(books: seq<Book>, id: string)
    ensures |Select(books, IdIs(id))| > 0 <==> HasId(books, id)
    ensures HasId(books, id) ==> Select(books, IdIs(id))[0] == books[FindIndex(books, id)]
  {
    if HasId(books, id) {
      var i := FindIndex(books, id);
      assert books[i] in Select(books, IdIs(id));
      if books[0].id != id {
        SelectIdHead(books[1..], id);
        assert FindIndex(books[1..], id) == i - 1;
      }
    } else if books != [] {
      assert forall j :: 1 <= j < |books| ==> books[j] == books[1..][j - 1];
      SelectIdHead(books[1..], id);
    }
  }

  /** The name filter is substring containment after lower-casing both sides. */
  lemma NameFilterIsSubstring(name: string, query: string)
    ensures NameMatches(name, query) <==> exists k :: OccursAt(Lower(name), Lower(query), k)
  {
    ContainsIffOccurs(Lower(name), Lower(query));
  }

  /** Case does not matter on either side of the name filter. */
  lemma NameFilterIgnoresCase(name: string, query: string)
    ensures NameMatches(Lower(name), query) == NameMatches(name, query)
    ensures NameMatches(name, Lower(query)) == NameMatches(name, query)
  {
    LowerIdempotent(name);
    LowerIdempotent(query);
  }

  /** A record named "War and Peace" is listed for the query "WAR". */
  lemma NameFilterExample()
    ensures NameMatches("War and Peace", "WAR")
  {
  }

  /** A `reading` value other than "0"/"1" is the same as leaving it out, and so is a
      `finished` value other than "0"/"1"; a name query overrides both. */
  lemma ChooseFilterFallThrough(q: Query, v: string)
    ensures !IsFlag(v) ==> ChooseFilter(q.(reading := v)) == ChooseFilter(q.(reading := ""))
    ensures !IsFlag(v) ==> ChooseFilter(q.(finished := v)) == ChooseFilter(q.(finished := ""))
    ensures q.name != "" ==> ChooseFilter(q) == ChooseFilter(Query(q.name, v, v))
  {
  }

  /** With `reading` = "0"/"1" and no name, the list is exactly the projections of the
      records whose `reading` flag equals `reading === '1'`, in store order; ids being
      unique, a record is listed exactly when its flag matches. */
  lemma {:induction false} ListByReading(books: seq<Book>, q: Query)
    requires UniqueIds(books)
    requires q.name == "" && IsFlag(q.reading)
    ensures GetAllBooks(books, q).body.books == Project(Select(books, ReadingIs(q.reading == "1")))
    ensures forall i :: 0 <= i < |books| ==>
      (Summarize(books[i]) in GetAllBooks(books, q).body.books <==> books[i].reading == (q.reading == "1"))
  {
    var f := ReadingIs(q.reading == "1");
    var listed := GetAllBooks(books, q).body.books;
    forall i | 0 <= i < |books| && Summarize(books[i]) in listed
      ensures books[i].reading == (q.reading == "1")
    {
      var b :| b in books && Selects(f, b) && Summarize(books[i]) == Summarize(b);
      var j :| 0 <= j < |books| && books[j] == b;
      assert books[j].id == books[i].id;
    }
  }

  /** With no name, no `reading` flag and `finished` = "0"/"1", the list is the
      projections of the records whose `finished` equals `finished === '1'`, in store
      order; ids being unique, a record is listed exactly when its `finished` matches. */
  lemma {:induction false} ListByFinished(books: seq<Book>, q: Query)
    requires UniqueIds(books)
    requires q.name == "" && !IsFlag(q.reading) && IsFlag(q.finished)
    ensures GetAllBooks(books, q).body.books == Project(Select(books, FinishedIs(q.finished == "1")))
    ensures forall i :: 0 <= i < |books| ==>
      (Summarize(books[i]) in GetAllBooks(books, q).body.books <==> books[i].finished == (q.finished == "1"))
  {
    var f := FinishedIs(q.finished == "1");
    var listed := GetAllBooks(books, q).body.books;
    forall i | 0 <= i < |books| && Summarize(books[i]) in listed
      ensures books[i].finished == (q.finished == "1")
    {
      var b :| b in books && Selects(f, b) && Summarize(books[i]) == Summarize(b);
      var j :| 0 <= j < |books| && books[j] == b;
      assert books[j].id == books[i].id;
    }
  }
}
