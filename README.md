# Bookshelf API: the book store and its handlers

A model of the in-memory book store behind the bookshelf HTTP API
(`src/handler.js`). One module-level array `books` holds the records in insertion
order, and five request handlers work on it:

- add validates the payload, derives `finished`, stamps the timestamps and appends a record;
- list applies at most one filter, chosen by a fixed priority, and returns `{id, name, publisher}` projections;
- get-by-id returns the first record with the id;
- edit validates the payload, looks up the id and replaces that record in place;
- delete splices out the first record with the id.

Each handler either succeeds or fails with a status code (201, 200, 400 or 404).

The Dafny project has four modules:

- `Text` (`text.dfy`): ASCII lower-casing and substring search, the stand-ins for
  `toLocaleLowerCase` and `includes`.
- `Records` (`records.dfy`): the `Book` record, the request `Payload`, the `Response`
  (status code plus a body holding the new id, a record, a projection list or the
  failure reason), the two payload checks and the store invariant `WellFormed`. The
  invariant says ids are unique, every name is non-empty, `readPage <= pageCount`, and
  `finished == (readPage == pageCount)`.
- `Queries` (`queries.dfy`): `findIndex` and `filter` as the handlers use them. It
  also holds list and get-by-id. These two only read `books`, so they are functions
  of the record sequence and cannot change the store.
- `Shelf` (`shelf.dfy`): the class `Bookshelf`, which owns `books: seq<Book>`. Add,
  edit and delete are methods on it. Each one states the new contents of `books`
  in terms of the old contents for every outcome, and keeps `WellFormed`.
  `nanoid(16)` and `new Date().toISOString()` are passed in as `id` and `now`.

The add handler has a 500 branch. It runs only when the array returned by
`books.filter` is falsy, and an array is always truthy in JavaScript. That branch
can never run, so the model has none. `AddBook` instead proves that the
appended record is the one its id finds.

## Model

| member | source | states |
|---|---|---|
| `Records.Validate` | src/handler.js:36-53 | passes iff the name is non-empty and `readPage <= pageCount`; a missing name is reported first, whatever the page counts |
| `Records.NewBook` | src/handler.js:16-34 | the new record carries every payload field and the given id, `finished` is `readPage == pageCount`, and `insertedAt == updatedAt == now` |
| `Records.Revised` | src/handler.js:229-241 | the edited record keeps `id` and `insertedAt`, takes every payload field, recomputes `finished` and sets `updatedAt` to `now` |
| `Records.ValidPayloadBuildsWellFormed` | src/handler.js:36-55 | a record built from a payload that passes both checks satisfies the record invariant, for add and for edit |
| `Queries.FindIndex` | src/handler.js:226 | returns -1 exactly when no record has the id; otherwise the index of the first record with it |
| `Queries.Select` | src/handler.js:81-87 | `filter` keeps every selected record as many times as it occurs and drops every other one (multiset equality per record), as an order-preserving subsequence |
| `Queries.ChooseFilter` | src/handler.js:78-149 | a non-empty name picks the name filter; otherwise a `reading` of "0"/"1" picks the reading filter with "1" meaning true; otherwise a `finished` of "0"/"1" picks the finished filter with "1" meaning true; no filter exactly when none of these applies; never an id filter |
| `Queries.ChooseFilterFallThrough` | src/handler.js:105-147 | a `reading` or `finished` value other than "0"/"1" acts like an absent one; with a name, `reading` and `finished` are ignored |
| `Queries.GetAllBooks` | src/handler.js:77-161 | always 200; the list is an order-preserving subsequence of the projections of all records; with no filter it is all of them; with a filter it holds the projection of every selected record and only projections of selected records, and has exactly as many entries as the filter keeps |
| `Queries.ListByReading` | src/handler.js:105-125 | with no name and `reading` "0"/"1", the list is the projection, in store order, of the records whose `reading` equals `reading === '1'`; with unique ids, a record is listed iff its flag matches |
| `Queries.ListByFinished` | src/handler.js:127-147 | with no name, no `reading` flag and `finished` "0"/"1", the list is the projection, in store order, of the records whose `finished` equals `finished === '1'`; with unique ids, a record is listed iff its `finished` matches |
| `Queries.Project` | src/handler.js:152-156 | the `{id, name, publisher}` map keeps the length and projects each record at its own position |
| `Queries.NameFilterIsSubstring` | src/handler.js:85 | the name filter holds iff the lower-cased query occurs as a contiguous block in the lower-cased name |
| `Queries.NameFilterIgnoresCase` | src/handler.js:85 | lower-casing the name or the query first does not change the name filter's answer |
| `Queries.NameFilterExample` | src/handler.js:85 | "War and Peace" matches the query "WAR" |
| `Queries.GetBookById` | src/handler.js:163-186 | 404 exactly when no record has the id; otherwise 200 with the first record that has it, the same one `findIndex` finds |
| `Queries.SelectIdHead` | src/handler.js:166 | the id filter is non-empty iff the id is present, and its first element is the record at `findIndex` |
| `Text.Lower` | src/handler.js:85 | lower-casing keeps the length, lower-cases each character in place, and leaves no ASCII capital |
| `Text.Contains` | src/handler.js:85 | `includes` of the empty string always holds, and a needle longer than the haystack is never found |
| `Text.ContainsIffOccurs` | src/handler.js:85 | `includes` holds iff the needle occurs at some position of the haystack |
| `Shelf.AppendKeepsWellFormed` | src/handler.js:55 | pushing a well-formed record with an unused id keeps the store invariant, and the record sits at the index its id finds |
| `Shelf.ReplaceKeepsWellFormed` | src/handler.js:226-241 | replacing a record by a well-formed one with the same id keeps the store invariant and the record's index |
| `Shelf.RemoveKeepsWellFormed` | src/handler.js:263-266 | splicing out one record keeps the store invariant and the order of the rest, and no record with the removed id remains |
| `Shelf.Bookshelf.constructor` | src/handler.js:2 | the store starts empty and well formed |
| `Shelf.Bookshelf.AddBook` | src/handler.js:4-75 | a failed check answers 400 with its reason and leaves `books` unchanged; otherwise answers 201 with the id, appends exactly the new record at the end, and get-by-id then finds it |
| `Shelf.Bookshelf.EditBookById` | src/handler.js:188-258 | validation precedes lookup, so a bad payload answers 400 even for an unknown id; an unknown id answers 404; on any failure `books` is unchanged; on success only the record at `findIndex` changes, into its revised form, and get-by-id returns it |
| `Shelf.Bookshelf.DeleteBookById` | src/handler.js:260-281 | an unknown id answers 404 with no change; otherwise 200, exactly the first record with the id is removed, the length drops by one, the rest keep their order, and get-by-id then answers 404 |

## Left out

- `src/server.js` is not modelled: Hapi server set-up, host and port choice, CORS and logging are not logic over the store.
- Response building (`h.response`, `.code`) and the message strings are reduced to a status code and a body. The body holds the new id, the record, the projection list, nothing, or the failure reason.
- `nanoid(16)` and `new Date().toISOString()` become the `id` and `now` parameters. That the id is not already in the store comes from randomness, not code. So it is a precondition of `AddBook`.
- Timestamps are opaque strings. `updatedAt >= insertedAt` depends on the clock and is not modelled.
- `toLocaleLowerCase` is modelled as ASCII lower-casing, character by character. Locale-specific case mappings are not modelled.
- JavaScript loose typing is not modelled. Counts are integers, `reading` is a boolean, and a missing name is the empty string. Query parameters are single strings, and an absent one is "". Not covered: `undefined` in a comparison, non-string names, repeated query parameters that arrive as arrays, and an edit payload that omits fields and so overwrites them with `undefined`.
- The commented-out second implementation at src/handler.js:291-566 is dead code.
- src/books.js is not part of this model. The shared array it exports is taken to start empty, which is the `Bookshelf` constructor.
- The list handler itself accepts only "0"/"1" for `reading` and `finished`; any other value falls through to the next rule.
