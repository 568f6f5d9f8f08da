# In-memory book store

A Dafny model of the book store behind the REST API: `bookService.js`.
The store holds two pieces of state, both updated in place:

- a list of book records `{id, title, author, year, genre}`, seeded with three classics;
- a counter `nextId`, from which every new id is taken.

It has six operations:

- create: append a record under a fresh id;
- get-all;
- get-by-id: a linear `find`;
- update: replace the first record holding the id;
- delete: splice out the first record holding the id and return it;
- search: a case-insensitive substring filter that keeps stored order.

The model has two modules:

- `Text` (`text.dfy`) models the three JavaScript string operations the store uses.
  - `trim` removes ECMAScript white space and line terminators from both ends.
  - `toLowerCase` is modelled on ASCII letters.
  - `includes` is substring search.
- `BookService` (`book_service.dfy`) models the store itself.
  - It defines datatypes for records and for the fields a request supplies.
  - Pure functions state what each operation does to a sequence of records.
  - Lemmas prove properties of those functions.
  - The class `BookStore` owns `books: seq<Book>` and `nextId: int`.
  - The three mutating operations are methods with `modifies this`. Each method's `ensures` ties the new state to the pure functions and keeps the invariant `Valid()`.
  - The three queries are functions that read the object.

Two JavaScript details are kept exactly as written:

- Absent, null and present fields differ. `Field<T>` has the cases `Omitted` (undefined), `Null` and `Given(v)`.
  - Create writes `value || null`, so `0` and `""` are stored as null, like an absent value.
  - Update writes `value !== undefined ? value : old`. An omitted field keeps its value, an explicit null clears it, and `0` is stored as `0`.
- The store methods accept any title, author and query.
  - The non-empty checks live only in the controller (`bookController.js:52`, `:81`, `:141`) and test the untrimmed strings.
  - The title/author check at `bookController.js:52` and `:81` is modelled as the function `PassesRequiredCheck`, not as a precondition of the store.
  - The query check at `bookController.js:141` is not modelled; `FilterEmptyTerm` states what the store does with the empty query that check rejects.
  - One consequence: a title of `"   "` passes the check and is stored as `""`. One might expect stored titles to be non-empty after trimming; the code does not ensure that, and the model follows the code (`BlankTitleStoredEmpty`).
  - Another: the store matches every record against an empty query, because `x.includes("")` is true for every string `x` (`FilterEmptyTerm`).

A ghost set `issued` records every id ever handed out. The invariant states that ids in use are distinct and below `nextId`, and that no issued id is at or above `nextId`. Together these show that a deleted record's id is never reused.

## Model

| member | source | states |
|---|---|---|
| Text.TrimStart | bookService.js:26 | the result is a suffix of the input; everything cut is whitespace; the result does not start with whitespace |
| Text.TrimEnd | bookService.js:26 | the result is a prefix of the input; everything cut is whitespace; the result does not end with whitespace |
| Text.Trim | bookService.js:26-27 | `trim()` gives a string with no surrounding whitespace, which is a slice of the input whose prefix and suffix outside it are whitespace only |
| Text.CutBothEnds | bookService.js:26-27 | cutting leading, then trailing whitespace leaves a trimmed slice surrounded only by whitespace |
| Text.TrimUnique | bookService.js:26-27 | any trimmed slice reached by cutting only whitespace from both ends equals `trim()`, so `trim` is fully characterised by its contract |
| Text.TrimIdempotent | bookService.js:26-27 | trimming a trimmed value changes nothing |
| Text.Lower | bookService.js:69-73 | `toLowerCase()` keeps the length, maps each ASCII capital to its small letter, keeps every other character and leaves no capital |
| Text.LowerIdempotent | bookService.js:69-73 | lowercasing twice equals lowercasing once (used by `SearchIgnoresQueryCase`) |
| Text.OccursShift | bookService.js:71-73 | the needle occurs in a non-empty haystack iff it is a prefix or occurs in the haystack's tail |
| Text.Includes | bookService.js:71-73 | `includes` is true exactly when the needle occurs at some position of the haystack, the empty needle everywhere |
| BookService.SeedIdsValid | bookService.js:2-9 | the three seed records have distinct positive ids below the initial `nextId` of 4 |
| BookService.FindIndex | bookService.js:38 | `findIndex` gives -1 iff no record holds the id; otherwise a position holding it with no earlier one holding it |
| BookService.Find | bookService.js:18-20 | `find` gives nothing iff no record holds the id; otherwise the record at the first position holding it |
| BookService.FindDistinct | bookService.js:19 | with distinct ids, looking up a stored record's id returns that record |
| BookService.YearOrNull | bookService.js:28 | the falsy-or-null rule for year is null exactly for an omitted, null or 0 year and otherwise the given year |
| BookService.GenreOrNull | bookService.js:29 | the falsy-or-null rule for genre is null exactly for an omitted, null or empty genre and otherwise the given genre |
| BookService.NewBook | bookService.js:24-30 | the new record has the given id and the trimmed title and author; year and genre are null exactly when omitted, null or falsy (0, ""), otherwise the given value |
| BookService.FindAppendedFresh | bookService.js:32 | after appending a record with an unused id, looking up that id finds it |
| BookService.IdsValidAppend | bookService.js:24-32 | appending a record with id `nextId` and bumping `nextId` keeps ids distinct and below `nextId` |
| BookService.Supplied | bookService.js:48-49 | `value !== undefined ? value : current`: an omitted field keeps the current value, null clears it, a given value replaces it |
| BookService.Merged | bookService.js:44-50 | the merged record keeps the id and takes the trimmed title and author; year and genre are kept when omitted, cleared by null and replaced by any given value |
| BookService.Updated | bookService.js:37-53 | an unknown id changes nothing; otherwise the first record holding the id becomes its merge, and every other record and every id stays as it was |
| BookService.IdsValidUpdated | bookService.js:44-50 | an update keeps the id invariant |
| BookService.FindUpdated | bookService.js:44-52 | after an update the id finds the merged record |
| BookService.UpdateIdempotent | bookService.js:37-53 | applying the same update twice gives the same records as applying it once |
| BookService.SubsequenceRefl | bookService.js:59-61 | a list is a subsequence of itself (the unchanged list of a missed delete) |
| BookService.SubsequenceRemoveAt | bookService.js:63 | dropping one position leaves a subsequence |
| BookService.Removed | bookService.js:56-65 | an unknown id changes nothing; otherwise exactly one record goes (one shorter, same multiset minus the first record holding the id), and the rest keep their order |
| BookService.RemovedSplice | bookService.js:57-63 | a delete that finds the id is `splice(index, 1)` at the found index |
| BookService.RemovedNotFound | bookService.js:56-65 | with distinct ids, a deleted id is no longer found |
| BookService.RemovedAt | bookService.js:63 | where each record after a splice came from |
| BookService.IdsValidRemoved | bookService.js:63 | a delete keeps the id invariant |
| BookService.IdsWithinRemoved | bookService.js:63 | a delete introduces no id that was not there before |
| BookService.RemoveTwice | bookService.js:56-65 | deleting an id a second time finds nothing and changes nothing |
| BookService.SeedInvariant | bookService.js:2-9 | the seed state satisfies the store invariant with ids 1 to 3 issued |
| BookService.InvariantAfterCreate | bookService.js:23-33 | create takes an id never issued before and keeps the invariant |
| BookService.InvariantAfterUpdate | bookService.js:37-53 | update keeps the invariant |
| BookService.InvariantAfterDelete | bookService.js:56-65 | delete keeps the invariant, so deleted ids are never handed out again |
| BookService.Matches | bookService.js:70-73 | a record matches exactly when the lowercased query occurs in its lowercased title or author, or in its genre when that genre is neither null nor empty |
| BookService.Filter | bookService.js:70-74 | the result is a subsequence of the records, in stored order, and every record in it matches |
| BookService.FilterCounts | bookService.js:70-74 | every matching record is kept as many times as it is stored and no other record appears, so filtering drops exactly the non-matching records |
| BookService.FilterAppend | bookService.js:70-74 | filtering distributes over concatenation |
| BookService.FilterAppendOne | bookService.js:32 | after appending a record, every search result is the earlier one plus the new record when it matches (used by `CreateBook`) |
| BookService.FilterEmptyTerm | bookService.js:69-73 | an empty query matches every record |
| BookService.PassesRequiredCheck | bookController.js:52 | the controller's truthiness test passes iff title and author are non-empty before trimming, so an empty one is rejected; in particular every request whose title and author are non-empty after trimming passes |
| BookService.BlankTitleStoredEmpty | bookController.js:52 | every non-empty title made of whitespace alone passes the controller's truthiness check and is stored as the empty string |
| BookService.CreateTrimsTitle | bookService.js:26 | creating "  Dune  " stores the title "Dune" |
| BookService.ZeroYearCreateVersusUpdate | bookService.js:28-48 | a year of 0 is stored as null by create but as 0 by update |
| BookService.BookStore.constructor | bookService.js:2-9 | the store starts with the three seed records and `nextId` 4, satisfying the invariant |
| BookService.BookStore.GetAllBooks | bookService.js:13-15 | returns the stored records in order, changing nothing |
| BookService.BookStore.GetBookById | bookService.js:18-20 | returns the first record holding the id, or nothing, changing nothing |
| BookService.BookStore.GetBookByIdFindsStored | bookService.js:18-20 | under the invariant, looking up a stored record's id returns that very record |
| BookService.BookStore.CreateBook | bookService.js:23-34 | returns the record for the old `nextId`; `nextId` grows by one; it is appended with earlier records unchanged; its id was never issued and exceeds every stored id; it can be looked up by id; every search now returns its earlier result plus the new record when it matches; the invariant holds |
| BookService.BookStore.UpdateBook | bookService.js:37-53 | returns nothing iff the id was absent; otherwise returns the merged record, which is what the id now finds; the records become `Updated`, `nextId` is unchanged, the invariant holds |
| BookService.BookStore.DeleteBook | bookService.js:56-65 | returns what the id found before (nothing if absent); the records become `Removed`; the id is no longer found; `nextId` is unchanged; the invariant holds |
| BookService.BookStore.SearchBooks | bookService.js:68-75 | returns a subsequence of the records, in stored order, holding each record that matches the lowercased query as often as it is stored and no other |
| BookService.BookStore.SearchIgnoresQueryCase | bookService.js:69 | a query and its lower-case form find the same records |

## Left out

- HTTP plumbing is not part of this model: routing, CORS, status codes, JSON envelopes, the 405/404 fallbacks and the welcome responses (`server.js`, `books.js`, `index.js`, `bookController.js`). Of the controller, only the title/author check at `bookController.js:52` and `:81` is modelled, as `PassesRequiredCheck`; the `!query` check at `bookController.js:141` is not.
- `parseInt` of path and query ids, which may give `NaN`, is not modelled. Ids are unbounded integers.
- The try/catch blocks that answer 500, and `console.error`, are not modelled. The store operations cannot throw on the inputs modelled here.
- Non-string titles, authors or queries, and non-integer years are not modelled: a JSON body could carry any value. `Field<int>` and `Field<string>` are the types the model admits. Two consequences in the source are therefore not captured:
  - A truthy non-string title passes the controller's check and makes `bookData.title.trim()` throw (bookService.js:26). That happens after `nextId++` has run (bookService.js:25), so a failed create still uses up an id.
  - A truthy non-string genre is stored by create (bookService.js:29) or update (bookService.js:49). Every later search whose term is not found in that record's lowercased title or author then throws at `book.genre.toLowerCase()` (bookService.js:73); the `||` at bookService.js:71-72 skips the genre when the title or author already matches.
- JavaScript numbers are IEEE doubles. The model's `nextId` is an unbounded integer, so it never loses precision past 2^53.
- BookService.BookStore.GetAllBooks: returns the records as a value. The source returns the live array, which a caller could mutate; that aliasing is not modelled.
- Text.Lower: lowercases ASCII letters only. JavaScript's `toLowerCase` applies full Unicode case mapping.
- The inline list handlers in `server.js` and `books.js` are not modelled. They repeat get, create, update and delete, without year and genre, and have no search. `books.js` numbers new records `books.length + 1`, which could repeat an id after a delete if its list outlived one request; it does not, because the list is rebuilt on every call.
- No concrete search over the seed records (for example, "gatsby" finding the first seed) is proved. Search is proved for all inputs through `FilterCounts`, `Matches` and `Includes`.
