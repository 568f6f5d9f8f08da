/** The in-memory book store of bookService.js: an ordered list of book
    records and the counter that hands out their ids. */
module BookService {
  import opened Text

  datatype Option<T> = None | Some(value: T)

  /** One property of a request body: left out (`undefined`), sent as an
      explicit `null`, or sent with a value. */
  datatype Field<T> = Omitted | Null | Given(value: T)

  /** A stored record; a null year or genre is `None`. */
  datatype Book = Book(id: int, title: string, author: string, year: Option<int>, genre: Option<string>)

  /** The body the controller hands to createBook and updateBook. */
  datatype BookData = BookData(title: string, author: string, year: Field<int>, genre: Field<string>)

  /** The records the store starts with. */
  function SeedBooks(): seq<Book>
  {
    [ Book(1, "The Great Gatsby", "F. Scott Fitzgerald", Some(1925), Some("Classic")),
      Book(2, "To Kill a Mockingbird", "Harper Lee", Some(1960), Some("Fiction")),
      Book(3, "1984", "George Orwell", Some(1949), Some("Dystopian")) ]
  }

  /** The first id the store hands out. */
  const SeedNextId := 4

  // ----- The id invariant -----

  ghost predicate DistinctIds(s: seq<Book>)
  {
    forall i, j :: 0 <= i < j < |s| ==> s[i].id != s[j].id
  }

  /** Ids are positive, pairwise distinct and all below the next id to hand
      out, which is itself positive. */
  ghost predicate IdsValid(s: seq<Book>, nextId: int)
  {
    && 0 < nextId
    && DistinctIds(s)
    && (forall i :: 0 <= i < |s| ==> 0 < s[i].id < nextId)
  }

  lemma SeedIdsValid()
    ensures IdsValid(SeedBooks(), SeedNextId)
  {
  }

  // ----- Lookup -----

  /** `books.findIndex(book => book.id === id)`: the first position holding
      `id`, or -1 when no record has it. */
  function FindIndex(s: seq<Book>, id: int): (r: int)
    ensures -1 <= r < |s|
    ensures r == -1 <==> forall j :: 0 <= j < |s| ==> s[j].id != id
    ensures r != -1 ==> s[r].id == id && forall j :: 0 <= j < r ==> s[j].id != id
  {
    if s == [] then -1
    else if s[0].id == id then 0
    else
      var k := FindIndex(s[1..], id);
      if k == -1 then -1 else k + 1
  }

  /** `books.find(book => book.id === id)`: the first record holding `id`,
      or nothing when no record has it. */
  function Find(s: seq<Book>, id: int): (r: Option<Book>)
    ensures r == None <==> forall j :: 0 <= j < |s| ==> s[j].id != id
    ensures r != None ==> r.value.id == id && r.value in s
    ensures r != None ==> FindIndex(s, id) != -1 && r == Some(s[FindIndex(s, id)])
  {
    if s == [] then None
    else if s[0].id == id then Some(s[0])
    else Find(s[1..], id)
  }

  /** With distinct ids, looking an id up finds exactly the record that carries it. */
  lemma FindDistinct(s: seq<Book>, i: int)
    requires DistinctIds(s) && 0 <= i < |s|
    ensures Find(s, s[i].id) == Some(s[i])
  {
  }

  // ----- Create -----

  /** `year || null`: a year that is left out, null or 0 is falsy and becomes null. */
  function YearOrNull(f: Field<int>): (r: Option<int>)
    ensures r == None <==> f in {Omitted, Null, Given(0)}
    ensures r != None ==> f == Given(r.value)
  {
    if f.Given? && f.value != 0 then Some(f.value) else None
  }

  /** `genre || null`: a genre that is left out, null or "" becomes null. */
  function GenreOrNull(f: Field<string>): (r: Option<string>)
    ensures r == None <==> f in {Omitted, Null, Given("")}
    ensures r != None ==> f == Given(r.value)
  {
    if f.Given? && f.value != "" then Some(f.value) else None
  }

  /** The record createBook builds: the given id, title and author trimmed,
      year and genre as given unless falsy, in which case null. */
  function NewBook(id: int, data: BookData): (b: Book)
    ensures b.id == id
    ensures b.title == Trim(data.title) && b.author == Trim(data.author)
    ensures b.year == None <==> data.year in {Omitted, Null, Given(0)}
    ensures b.year != None ==> data.year == Given(b.year.value)
    ensures b.genre == None <==> data.genre in {Omitted, Null, Given("")}
    ensures b.genre != None ==> data.genre == Given(b.genre.value)
  {
    Book(id, Trim(data.title), Trim(data.author), YearOrNull(data.year), GenreOrNull(data.genre))
  }

  /** Appending a record whose id is new makes that id find that record. */
  lemma {:induction false} FindAppendedFresh(s: seq<Book>, b: Book)
    requires forall j :: 0 <= j < |s| ==> s[j].id != b.id
    ensures Find(s + [b], b.id) == Some(b)
  {
    if s != [] {
      assert (s + [b])[1..] == s[1..] + [b];
      FindAppendedFresh(s[1..], b);
    }
  }

  lemma IdsValidAppend(s: seq<Book>, nextId: int, b: Book)
    requires IdsValid(s, nextId) && b.id == nextId
    ensures IdsValid(s + [b], nextId + 1)
  {
  }

  // ----- Update -----

  /** `value !== undefined ? value : current`: a field that is left out keeps
      the stored value; an explicit null clears it; a value replaces it. */
  function Supplied<T>(f: Field<T>, current: Option<T>): (r: Option<T>)
    ensures f == Omitted ==> r == current
    ensures f == Null ==> r == None
    ensures f.Given? ==> r == Some(f.value)
  {
    match f
    case Omitted => current
    case Null => None
    case Given(v) => Some(v)
  }

  /** The record updateBook writes over the stored record `b`. */
  function Merged(b: Book, data: BookData): (r: Book)
    ensures r.id == b.id
    ensures r.title == Trim(data.title) && r.author == Trim(data.author)
    ensures data.year == Omitted ==> r.year == b.year
    ensures data.year == Null ==> r.year == None
    ensures data.year.Given? ==> r.year == Some(data.year.value)
    ensures data.genre == Omitted ==> r.genre == b.genre
    ensures data.genre == Null ==> r.genre == None
    ensures data.genre.Given? ==> r.genre == Some(data.genre.value)
  {
    b.(title := Trim(data.title), author := Trim(data.author),
       year := Supplied(data.year, b.year), genre := Supplied(data.genre, b.genre))
  }

  /** The records after `updateBook(id, data)`: the first record holding `id`
      is replaced by its merge with `data`; nothing else changes. */
  function Updated(s: seq<Book>, id: int, data: BookData): (r: seq<Book>)
    ensures |r| == |s|
    ensures FindIndex(s, id) == -1 ==> r == s
    ensures FindIndex(s, id) != -1 ==> r[FindIndex(s, id)] == Merged(s[FindIndex(s, id)], data)
    ensures forall j :: 0 <= j < |s| && j != FindIndex(s, id) ==> r[j] == s[j]
    ensures forall j :: 0 <= j < |s| ==> r[j].id == s[j].id
  {
    var i := FindIndex(s, id);
    if i == -1 then s else s[i := Merged(s[i], data)]
  }

  lemma IdsValidUpdated(s: seq<Book>, nextId: int, id: int, data: BookData)
    requires IdsValid(s, nextId)
    ensures IdsValid(Updated(s, id, data), nextId)
  {
  }

  /** After an update the id finds the merged record. */
  lemma FindUpdated(s: seq<Book>, id: int, data: BookData)
    requires FindIndex(s, id) != -1
    ensures Find(Updated(s, id, data), id) == Some(Merged(s[FindIndex(s, id)], data))
  {
  }

  /** Sending the same update twice leaves the records as sending it once. */
  lemma UpdateIdempotent(s: seq<Book>, id: int, data: BookData)
    ensures Updated(Updated(s, id, data), id, data) == Updated(s, id, data)
  {
    var u := Updated(s, id, data);
    assert FindIndex(u, id) == FindIndex(s, id);
  }

  // ----- Delete -----

  /** `r` is `s` with some records taken out, the rest in their order. */
  ghost predicate IsSubsequence<T>(r: seq<T>, s: seq<T>)
    decreases |s|
  {
    r == [] || (s != [] && ((r[0] == s[0] && IsSubsequence(r[1..], s[1..])) || IsSubsequence(r, s[1..])))
  }

  lemma {:induction false} SubsequenceRefl<T>(s: seq<T>)
    ensures IsSubsequence(s, s)
    decreases |s|
  {
    if s != [] {
      SubsequenceRefl(s[1..]);
    }
  }

  lemma {:induction false} SubsequenceRemoveAt<T>(s: seq<T>, i: int)
    requires 0 <= i < |s|
    ensures IsSubsequence(s[..i] + s[i + 1..], s)
    decreases i
  {
    var r := s[..i] + s[i + 1..];
    if i == 0 {
      assert r == s[1..];
      SubsequenceRefl(s[1..]);
    } else {
      SubsequenceRemoveAt(s[1..], i - 1);
      assert r[1..] == s[1..][..i - 1] + s[1..][i..];
    }
  }

  /** The records after `deleteBook(id)`: `books.splice(index, 1)` on the
      first record holding `id`, or no change when none does. */
  function Removed(s: seq<Book>, id: int): (r: seq<Book>)
    ensures FindIndex(s, id) == -1 ==> r == s
    ensures FindIndex(s, id) != -1 ==>
      |r| == |s| - 1 && multiset(r) + multiset{s[FindIndex(s, id)]} == multiset(s)
    ensures IsSubsequence(r, s)
  {
    var i := FindIndex(s, id);
    if i == -1 then
      SubsequenceRefl(s);
      s
    else
      SubsequenceRemoveAt(s, i);
      assert s == s[..i] + [s[i]] + s[i + 1..];
      s[..i] + s[i + 1..]
  }

  /** With distinct ids, a deleted id is no longer found. */
  lemma RemovedNotFound(s: seq<Book>, id: int)
    requires DistinctIds(s)
    ensures Find(Removed(s, id), id) == None
  {
    var i := FindIndex(s, id);
    if i != -1 {
      var r := Removed(s, id);
      forall j | 0 <= j < |r|
        ensures r[j].id != id
      {
        if j < i {
          assert r[j] == s[j];
        } else {
          assert r[j] == s[j + 1];
        }
      }
    }
  }

  /** Where each record of `s[..i] + s[i + 1..]` came from. */
  lemma RemovedAt(s: seq<Book>, i: int, j: int)
    requires 0 <= i < |s| && 0 <= j < |s| - 1
    ensures (s[..i] + s[i + 1..])[j] == s[if j < i then j else j + 1]
  {
  }

  lemma IdsValidRemoved(s: seq<Book>, nextId: int, id: int)
    requires IdsValid(s, nextId)
    ensures IdsValid(Removed(s, id), nextId)
  {
    var i := FindIndex(s, id);
    if i != -1 {
      var r := Removed(s, id);
      forall j | 0 <= j < |r|
        ensures 0 < r[j].id < nextId
      {
        RemovedAt(s, i, j);
      }
      forall j, k | 0 <= j < k < |r|
        ensures r[j].id != r[k].id
      {
        RemovedAt(s, i, j);
        RemovedAt(s, i, k);
      }
    }
  }

  /** A delete that finds the id is the splice of that one position. */
  lemma RemovedSplice(s: seq<Book>, id: int)
    requires FindIndex(s, id) != -1
    ensures Removed(s, id) == s[..FindIndex(s, id)] + s[FindIndex(s, id) + 1..]
  {
  }

  /** Deleting keeps every remaining id within any set that held the old ones. */
  lemma IdsWithinRemoved(s: seq<Book>, id: int, ids: set<int>)
    requires forall i :: 0 <= i < |s| ==> s[i].id in ids
    ensures forall j :: 0 <= j < |Removed(s, id)| ==> Removed(s, id)[j].id in ids
  {
    var i := FindIndex(s, id);
    if i != -1 {
      var r := Removed(s, id);
      forall j | 0 <= j < |r|
        ensures r[j].id in ids
      {
        RemovedAt(s, i, j);
      }
    }
  }

  /** Deleting the same id twice: the second delete finds nothing and changes nothing. */
  lemma RemoveTwice(s: seq<Book>, id: int)
    requires DistinctIds(s)
    ensures FindIndex(Removed(s, id), id) == -1
    ensures Removed(Removed(s, id), id) == Removed(s, id)
  {
    RemovedNotFound(s, id);
  }

  // ----- The store invariant -----

  /** What the store keeps true between calls: the ids in use are valid, and
      every id in use or handed out before (deleted ones included) is in
      `issued`, which holds only ids below the next one to hand out. */
  ghost predicate StoreInvariant(s: seq<Book>, nextId: int, issued: set<int>)
  {
    && IdsValid(s, nextId)
    && (forall i :: 0 <= i < |s| ==> s[i].id in issued)
    && (forall id :: id in issued ==> 0 < id < nextId)
  }

  lemma SeedInvariant()
    ensures StoreInvariant(SeedBooks(), SeedNextId, {1, 2, 3})
  {
    SeedIdsValid();
  }

  /** Create hands out an id never issued before and keeps the invariant. */
  lemma InvariantAfterCreate(s: seq<Book>, nextId: int, issued: set<int>, b: Book)
    requires StoreInvariant(s, nextId, issued) && b.id == nextId
    ensures b.id !in issued
    ensures StoreInvariant(s + [b], nextId + 1, issued + {b.id})
  {
    IdsValidAppend(s, nextId, b);
  }

  lemma InvariantAfterUpdate(s: seq<Book>, nextId: int, issued: set<int>, id: int, data: BookData)
    requires StoreInvariant(s, nextId, issued)
    ensures StoreInvariant(Updated(s, id, data), nextId, issued)
  {
    IdsValidUpdated(s, nextId, id, data);
  }

  lemma InvariantAfterDelete(s: seq<Book>, nextId: int, issued: set<int>, id: int)
    requires StoreInvariant(s, nextId, issued)
    ensures StoreInvariant(Removed(s, id), nextId, issued)
  {
    IdsValidRemoved(s, nextId, id);
    IdsWithinRemoved(s, id, issued);
  }

  // ----- Search -----

  /** The test `searchBooks` filters with, for the lower-cased query `term`:
      it occurs in the lower-cased title or author, or in the genre when the
      genre is truthy. */
  function Matches(b: Book, term: string): (r: bool)
    ensures r <==>
      || (exists i :: OccursAt(Lower(b.title), term, i))
      || (exists i :: OccursAt(Lower(b.author), term, i))
      || (b.genre != None && b.genre.value != "" && exists i :: OccursAt(Lower(b.genre.value), term, i))
  {
    || Includes(Lower(b.title), term)
    || Includes(Lower(b.author), term)
    || (b.genre != None && b.genre.value != "" && Includes(Lower(b.genre.value), term))
  }

  /** `books.filter(...)`: the matching records in stored order. The contract
      gives order and that every kept record matches; `FilterCounts` adds that
      every matching record is kept as often as it is stored, and no other. */
  function Filter(s: seq<Book>, term: string): (r: seq<Book>)
    ensures IsSubsequence(r, s)
    ensures forall i :: 0 <= i < |r| ==> Matches(r[i], term)
  {
    if s == [] then []
    else if Matches(s[0], term) then [s[0]] + Filter(s[1..], term)
    else Filter(s[1..], term)
  }

  /** Each record occurs in the filtered list as often as in the input when
      it matches, and not at all otherwise. */
  lemma {:induction false} FilterCounts(s: seq<Book>, term: string)
    ensures forall b :: multiset(Filter(s, term))[b] == if Matches(b, term) then multiset(s)[b] else 0
  {
    if s != [] {
      FilterCounts(s[1..], term);
      assert s == [s[0]] + s[1..];
      assert multiset(s) == multiset{s[0]} + multiset(s[1..]);
      var r, t := Filter(s, term), Filter(s[1..], term);
      if Matches(s[0], term) {
        assert r == [s[0]] + t;
        assert multiset(r) == multiset{s[0]} + multiset(t);
      } else {
        assert r == t;
      }
      forall b
        ensures multiset(r)[b] == if Matches(b, term) then multiset(s)[b] else 0
      {
        assert multiset(t)[b] == if Matches(b, term) then multiset(s[1..])[b] else 0;
      }
    }
  }

  /** Filtering distributes over concatenation. */
  lemma {:induction false} FilterAppend(s: seq<Book>, t: seq<Book>, term: string)
    ensures Filter(s + t, term) == Filter(s, term) + Filter(t, term)
  {
    if s != [] {
      var st := s + t;
      assert st[0] == s[0] && st[1..] == s[1..] + t;
      FilterAppend(s[1..], t, term);
      if Matches(s[0], term) {
        calc {
          Filter(st, term);
          [s[0]] + Filter(s[1..] + t, term);
          [s[0]] + (Filter(s[1..], term) + Filter(t, term));
          ([s[0]] + Filter(s[1..], term)) + Filter(t, term);
        }
      }
    } else {
      assert s + t == t;
    }
  }

  /** Appending one record appends it to every search result it matches,
      and leaves the other results as they were. */
  lemma FilterAppendOne(s: seq<Book>, b: Book)
    ensures forall term :: Filter(s + [b], term) == Filter(s, term) + if Matches(b, term) then [b] else []
  {
    forall term
      ensures Filter(s + [b], term) == Filter(s, term) + if Matches(b, term) then [b] else []
    {
      FilterAppend(s, [b], term);
    }
  }

  /** The empty query occurs in every title, so it selects every record. */
  lemma {:induction false} FilterEmptyTerm(s: seq<Book>)
    ensures Filter(s, Lower("")) == s
  {
    if s != [] {
      assert Lower("") == "" && OccursAt(Lower(s[0].title), "", 0);
      FilterEmptyTerm(s[1..]);
    }
  }

  // ----- The controller's check -----

  /** The controller's `!title || !author` test, made on the untrimmed strings. */
  function PassesRequiredCheck(data: BookData): (r: bool)
    ensures r <==> data.title != "" && data.author != ""
    ensures Trim(data.title) != "" && Trim(data.author) != "" ==> r
  {
    data.title != "" && data.author != ""
  }

  /** Any title made of whitespace alone passes the controller's check and
      is stored as "", so the check does not keep empty titles out. */
  lemma BlankTitleStoredEmpty(id: int, data: BookData)
    requires data.title != "" && data.author != ""
    requires forall i :: 0 <= i < |data.title| ==> IsWhitespace(data.title[i])
    ensures PassesRequiredCheck(data)
    ensures NewBook(id, data).title == ""
  {
    TrimUnique(data.title, "", |data.title|);
  }

  /** Creating a record titled "  Dune  " stores the title "Dune". */
  lemma CreateTrimsTitle(id: int)
    ensures NewBook(id, BookData("  Dune  ", "Frank Herbert", Omitted, Omitted)).title == "Dune"
  {
    assert StripsTo("  Dune  ", "Dune", 2);
    TrimUnique("  Dune  ", "Dune", 2);
  }

  /** A year of 0 is stored as null by create but as 0 by update. */
  lemma ZeroYearCreateVersusUpdate(id: int, b: Book)
    ensures NewBook(id, BookData("T", "A", Given(0), Omitted)).year == None
    ensures Merged(b, BookData("T", "A", Given(0), Omitted)).year == Some(0)
  {
  }

  // ----- The store -----

  class BookStore {
    var books: seq<Book>
    var nextId: int
    /** Every id handed out so far, those of deleted records included. */
    ghost var issued: set<int>

    ghost predicate Valid()
      reads this
    {
      StoreInvariant(books, nextId, issued)
    }

    constructor ()
      ensures Valid()
      ensures books == SeedBooks() && nextId == SeedNextId && issued == {1, 2, 3}
    {
      SeedInvariant();
      books := SeedBooks();
      nextId := SeedNextId;
      issued := {1, 2, 3};
    }

    /** The whole collection in stored order, as a value. */
    function GetAllBooks(): (r: seq<Book>)
      reads this
      ensures r == books
    {
      books
    }

    function GetBookById(id: int): (r: Option<Book>)
      reads this
      ensures r == Find(books, id)
    {
      Find(books, id)
    }

    method CreateBook(data: BookData) returns (b: Book)
      requires Valid()
      modifies this
      ensures Valid()
      ensures b == NewBook(old(nextId), data)
      ensures nextId == old(nextId) + 1
      ensures books == old(books) + [b]
      ensures b.id !in old(issued) && issued == old(issued) + {b.id}
      ensures forall i :: 0 <= i < |old(books)| ==> old(books)[i].id < b.id
      ensures GetBookById(b.id) == Some(b)
      ensures forall q :: SearchBooks(q) == old(SearchBooks(q)) + if Matches(b, Lower(q)) then [b] else []
    {
      b := NewBook(nextId, data);
      FindAppendedFresh(books, b);
      InvariantAfterCreate(books, nextId, issued, b);
      FilterAppendOne(books, b);
      nextId := nextId + 1;
      books := books + [b];
      issued := issued + {b.id};
    }

    method UpdateBook(id: int, data: BookData) returns (r: Option<Book>)
      requires Valid()
      modifies this
      ensures Valid()
      ensures books == Updated(old(books), id, data)
      ensures nextId == old(nextId) && issued == old(issued)
      ensures r == None <==> old(GetBookById(id)) == None
      ensures r != None ==> r == Some(Merged(old(GetBookById(id)).value, data))
      ensures r != None ==> GetBookById(id) == r
    {
      var i := FindIndex(books, id);
      if i == -1 {
        return None;
      }
      FindUpdated(books, id, data);
      InvariantAfterUpdate(books, nextId, issued, id, data);
      books := books[i := Merged(books[i], data)];
      r := Some(books[i]);
    }

    method DeleteBook(id: int) returns (r: Option<Book>)
      requires Valid()
      modifies this
      ensures Valid()
      ensures books == Removed(old(books), id)
      ensures nextId == old(nextId) && issued == old(issued)
      ensures r == old(GetBookById(id))
      ensures GetBookById(id) == None
    {
      RemovedNotFound(books, id);
      InvariantAfterDelete(books, nextId, issued, id);
      var i := FindIndex(books, id);
      if i == -1 {
        return None;
      }
      r := Some(books[i]);
      RemovedSplice(books, id);
      books := books[..i] + books[i + 1..];
    }

    function SearchBooks(query: string): (r: seq<Book>)
      reads this
      ensures IsSubsequence(r, books)
      ensures forall b :: multiset(r)[b] == if Matches(b, Lower(query)) then multiset(books)[b] else 0
    {
      FilterCounts(books, Lower(query));
      Filter(books, Lower(query))
    }

    /** Under the invariant, a stored record's id finds exactly that record. */
    lemma GetBookByIdFindsStored(i: int)
      requires Valid() && 0 <= i < |books|
      ensures GetBookById(books[i].id) == Some(books[i])
    {
      FindDistinct(books, i);
    }

    /** A query and its lower-case form find the same records. */
    lemma SearchIgnoresQueryCase(query: string)
      ensures SearchBooks(Lower(query)) == SearchBooks(query)
    {
      LowerIdempotent(query);
    }
  }
}
