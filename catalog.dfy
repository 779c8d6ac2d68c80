/** The book catalog (class `Library` in library.py): an ordered list of
    books kept in memory and mirrored, after every change, into a JSON store.
    The store is modelled as the list of dictionaries it holds. */
module Catalog {
  import opened Wrappers
  import opened Books
  import opened Text

  // ---------------------------------------------------------------------
  // Filtering: the list comprehensions of delete_book and search_books
  // ---------------------------------------------------------------------

  /** The conditions the catalog's list comprehensions keep a book by. */
  datatype Criterion =
    | TitleHas(title: string)    // the lower-cased title contains the lower-cased text
    | AuthorHas(author: string)  // likewise for the author
    | YearIs(year: int)          // the year is exactly this one
    | IdIsNot(id: int)           // the identifier is a different one

  predicate Holds(c: Criterion, b: Book)
  {
    match c
    case TitleHas(t) => Contains(Lower(b.title), Lower(t))
    case AuthorHas(a) => Contains(Lower(b.author), Lower(a))
    case YearIs(y) => b.year == y
    case IdIsNot(id) => b.bookId != id
  }

  /** `[b for b in s if c]`: the books of `s` that satisfy `c`, in order. */
  function Filter(s: seq<Book>, c: Criterion): (r: seq<Book>)
    ensures |r| <= |s|
    ensures forall b :: b in r <==> b in s && Holds(c, b)
  {
    if s == [] then []
    else (if Holds(c, s[0]) then [s[0]] else []) + Filter(s[1..], c)
  }

  /** `r` is `s` with some elements deleted and the rest in their order. */
  ghost predicate IsSubseq(r: seq<Book>, s: seq<Book>)
    decreases |s|
  {
    if r == [] then true
    else if s == [] then false
    else IsSubseq(r, s[1..]) || (r[0] == s[0] && IsSubseq(r[1..], s[1..]))
  }

  /** Filtering keeps the surviving books in their relative order. */
  lemma {:induction false} FilterIsSubseq(s: seq<Book>, c: Criterion)
    ensures IsSubseq(Filter(s, c), s)
    decreases |s|
  {
    if s != [] {
      FilterIsSubseq(s[1..], c);
      var r := Filter(s, c);
      if Holds(c, s[0]) {
        assert r[0] == s[0] && r[1..] == Filter(s[1..], c);
      } else {
        assert r == Filter(s[1..], c);
      }
    }
  }

  /** Filtering distributes over concatenation. */
  lemma {:induction false} FilterAppend(s: seq<Book>, t: seq<Book>, c: Criterion)
    ensures Filter(s + t, c) == Filter(s, c) + Filter(t, c)
    decreases |s|
  {
    if s == [] {
      assert s + t == t;
    } else {
      assert (s + t)[1..] == s[1..] + t;
      FilterAppend(s[1..], t, c);
    }
  }

  /** Filtering keeps the whole sequence exactly when every book passes. */
  lemma {:induction false} FilterKeepsAll(s: seq<Book>, c: Criterion)
    ensures Filter(s, c) == s <==> forall b :: b in s ==> Holds(c, b)
    decreases |s|
  {
    if s != [] {
      FilterKeepsAll(s[1..], c);
      if !Holds(c, s[0]) {
        assert |Filter(s, c)| < |s|;
      }
    }
  }

  /** Two criteria that agree on every book filter alike. */
  lemma {:induction false} FilterSameCriterion(s: seq<Book>, c: Criterion, d: Criterion)
    requires forall b :: Holds(c, b) == Holds(d, b)
    ensures Filter(s, c) == Filter(s, d)
    decreases |s|
  {
    if s != [] {
      FilterSameCriterion(s[1..], c, d);
    }
  }

  // ---------------------------------------------------------------------
  // Identifiers: add_book, delete_book, change_book_status
  // ---------------------------------------------------------------------

  /** `any(book.book_id == id for book in books)`. */
  predicate HasId(books: seq<Book>, id: int)
  {
    exists i :: 0 <= i < |books| && books[i].bookId == id
  }

  /** The catalog after add_book: a new book at the end whose id is one more
      than the current number of books and whose status is the default. */
  function Added(books: seq<Book>, title: string, author: string, year: int): seq<Book>
  {
    books + [Book(|books| + 1, title, author, year, Available)]
  }

  /** The catalog after a successful delete_book: every book with that id
      removed, the others in their order. */
  function WithoutId(books: seq<Book>, id: int): seq<Book>
  {
    Filter(books, IdIsNot(id))
  }

  /** After a deletion no book has the id, every other book is still there,
      and the survivors keep their relative order. */
  lemma DeleteRemovesId(books: seq<Book>, id: int)
    ensures !HasId(WithoutId(books, id), id)
    ensures forall b :: b in books && b.bookId != id ==> b in WithoutId(books, id)
    ensures IsSubseq(WithoutId(books, id), books)
  {
    var r := WithoutId(books, id);
    forall i | 0 <= i < |r|
      ensures r[i].bookId != id
    {
      assert r[i] in r;
    }
    FilterIsSubseq(books, IdIsNot(id));
  }

  /** A deletion shortens the catalog exactly when some book has the id. */
  lemma {:induction false} WithoutIdShrinks(books: seq<Book>, id: int)
    ensures HasId(books, id) <==> |WithoutId(books, id)| < |books|
  {
    FilterKeepsAll(books, IdIsNot(id));
    if HasId(books, id) {
      var i :| 0 <= i < |books| && books[i].bookId == id;
      assert books[i] in books && !Holds(IdIsNot(id), books[i]);
      assert WithoutId(books, id) != books;
      FilterIsSubseq(books, IdIsNot(id));
      SubseqShorterOrEqual(WithoutId(books, id), books);
    } else {
      forall b | b in books
        ensures Holds(IdIsNot(id), b)
      {
        var i :| 0 <= i < |books| && books[i] == b;
      }
    }
  }

  /** A subsequence of the same length is the whole sequence. */
  lemma {:induction false} SubseqShorterOrEqual(r: seq<Book>, s: seq<Book>)
    requires IsSubseq(r, s)
    ensures |r| <= |s|
    ensures |r| == |s| ==> r == s
    decreases |s|
  {
    if r != [] {
      if IsSubseq(r, s[1..]) {
        SubseqShorterOrEqual(r, s[1..]);
      } else {
        SubseqShorterOrEqual(r[1..], s[1..]);
        if |r| == |s| {
          assert r == [r[0]] + r[1..];
        }
      }
    }
  }

  /** Position of the first book with the id: the one change_book_status
      updates before it stops. */
  function FirstWithId(books: seq<Book>, id: int): (r: Option<nat>)
    ensures r.None? <==> !HasId(books, id)
    ensures r.Some? ==> r.value < |books| && books[r.value].bookId == id
    ensures r.Some? ==> forall j :: 0 <= j < r.value ==> books[j].bookId != id
  {
    if books == [] then None
    else if books[0].bookId == id then Some(0)
    else
      match FirstWithId(books[1..], id)
      case None =>
        assert forall i :: 1 <= i < |books| ==> books[i] == books[1..][i - 1];
        None
      case Some(k) => Some(k + 1)
  }

  /** The catalog after change_book_status: the first book with the id gets
      the new status; all other books, and its other fields, stay as they
      were; with no such book nothing changes. */
  function WithStatus(books: seq<Book>, id: int, status: string): (r: seq<Book>)
    ensures |r| == |books|
    ensures forall j :: 0 <= j < |r| ==>
      && r[j].bookId == books[j].bookId && r[j].title == books[j].title
      && r[j].author == books[j].author && r[j].year == books[j].year
    ensures forall j :: 0 <= j < |r| ==>
      r[j].status == if FirstWithId(books, id) == Some(j) then status else books[j].status
  {
    match FirstWithId(books, id)
    case None => books
    case Some(k) => books[k := books[k].(status := status)]
  }

  /** Every book has a different identifier (what the source's doc comment
      promises and the code does not keep). */
  ghost predicate UniqueIds(books: seq<Book>)
  {
    forall i, j :: 0 <= i < j < |books| ==> books[i].bookId != books[j].bookId
  }

  /** Each book's identifier is its 1-based position: what adds alone give. */
  ghost predicate IdsArePositions(books: seq<Book>)
  {
    forall i :: 0 <= i < |books| ==> books[i].bookId == i + 1
  }

  /** As long as books are only added, ids are positions and so unique. */
  lemma AddKeepsPositions(books: seq<Book>, title: string, author: string, year: int)
    requires IdsArePositions(books)
    ensures IdsArePositions(Added(books, title, author, year))
    ensures UniqueIds(Added(books, title, author, year))
  {
  }

  /** A loaded store need not have ids equal to positions: then even a
      single addition can repeat an id. */
  lemma AddToLoadedStoreCanRepeatId(b: Book, title: string, author: string, year: int)
    requires b.bookId == 2
    ensures !UniqueIds(Added([b], title, author, year))
  {
    var added := Added([b], title, author, year);
    assert added[0] == b && added[1].bookId == |[b]| + 1 == 2;
  }

  /** When exactly the book at position `k` has the id, deleting the id
      removes just that position. */
  lemma {:induction false} WithoutOnlyPosition(books: seq<Book>, id: int, k: nat)
    requires k < |books| && books[k].bookId == id
    requires forall j :: 0 <= j < |books| && j != k ==> books[j].bookId != id
    ensures WithoutId(books, id) == books[..k] + books[k + 1..]
    decreases k
  {
    var tail := books[1..];
    if k == 0 {
      forall b | b in tail
        ensures Holds(IdIsNot(id), b)
      {
        var i :| 0 <= i < |tail| && tail[i] == b;
        assert tail[i] == books[i + 1];
      }
      FilterKeepsAll(tail, IdIsNot(id));
    } else {
      forall j | 0 <= j < |tail| && j != k - 1
        ensures tail[j].bookId != id
      {
        assert tail[j] == books[j + 1];
      }
      WithoutOnlyPosition(tail, id, k - 1);
      assert books[..k] == [books[0]] + tail[..k - 1];
      assert books[k + 1..] == tail[k..];
    }
  }

  /** Deleting any book but the last and then adding one gives the new book
      the id of the last book: identifiers collide. */
  lemma AddAfterDeleteReusesId(books: seq<Book>, id: int, title: string, author: string, year: int)
    requires IdsArePositions(books)
    requires 1 <= id < |books|
    ensures !UniqueIds(Added(WithoutId(books, id), title, author, year))
  {
    var n := |books|;
    WithoutOnlyPosition(books, id, id - 1);
    var rest := WithoutId(books, id);
    assert |rest| == n - 1 && rest[n - 2] == books[n - 1];
    var added := Added(rest, title, author, year);
    assert added[n - 2].bookId == n == added[n - 1].bookId;
  }

  // ---------------------------------------------------------------------
  // search_books
  // ---------------------------------------------------------------------

  /** The three optional arguments of search_books. */
  datatype Query = Query(title: Option<string>, author: Option<string>, year: Option<int>)

  /** A text filter takes part when it is given and not empty (truthy). */
  predicate TextSet(o: Option<string>)
  {
    o.Some? && o.value != ""
  }

  /** A year filter takes part when it is given and not 0 (truthy). */
  predicate YearSet(o: Option<int>)
  {
    o.Some? && o.value != 0
  }

  /** The book satisfies every filter that takes part. */
  predicate Matches(q: Query, b: Book)
  {
    && (TextSet(q.title) ==> Holds(TitleHas(q.title.value), b))
    && (TextSet(q.author) ==> Holds(AuthorHas(q.author.value), b))
    && (YearSet(q.year) ==> Holds(YearIs(q.year.value), b))
  }

  /** search_books as written: title, then author, then year narrow the list
      one after the other. */
  function Search(books: seq<Book>, q: Query): seq<Book>
  {
    var byTitle := if TextSet(q.title) then Filter(books, TitleHas(q.title.value)) else books;
    var byAuthor := if TextSet(q.author) then Filter(byTitle, AuthorHas(q.author.value)) else byTitle;
    if YearSet(q.year) then Filter(byAuthor, YearIs(q.year.value)) else byAuthor
  }

  /** Reference definition of a search: one pass keeping each book that
      satisfies all filters at once. */
  function Select(books: seq<Book>, q: Query): (r: seq<Book>)
    ensures forall b :: b in r <==> b in books && Matches(q, b)
  {
    if books == [] then []
    else (if Matches(q, books[0]) then [books[0]] else []) + Select(books[1..], q)
  }

  /** The reference search keeps the books in catalog order. */
  lemma {:induction false} SelectIsSubseq(books: seq<Book>, q: Query)
    ensures IsSubseq(Select(books, q), books)
    decreases |books|
  {
    if books != [] {
      SelectIsSubseq(books[1..], q);
      var r := Select(books, q);
      if Matches(q, books[0]) {
        assert r[0] == books[0] && r[1..] == Select(books[1..], q);
      } else {
        assert r == Select(books[1..], q);
      }
    }
  }

  /** Narrowing by the filters one after the other gives exactly the
      one-pass result: same books, same order, same repetitions. */
  lemma {:induction false} SearchIsSelect(books: seq<Book>, q: Query)
    ensures Search(books, q) == Select(books, q)
    decreases |books|
  {
    if books != [] {
      SearchIsSelect(books[1..], q);
      var x, rest := books[0], books[1..];
      assert books == [x] + rest;
      var byTitle := if TextSet(q.title) then Filter(books, TitleHas(q.title.value)) else books;
      var t0 := if TextSet(q.title) then Filter([x], TitleHas(q.title.value)) else [x];
      var t1 := if TextSet(q.title) then Filter(rest, TitleHas(q.title.value)) else rest;
      if TextSet(q.title) { FilterAppend([x], rest, TitleHas(q.title.value)); }
      assert byTitle == t0 + t1;
      var byAuthor := if TextSet(q.author) then Filter(byTitle, AuthorHas(q.author.value)) else byTitle;
      var a0 := if TextSet(q.author) then Filter(t0, AuthorHas(q.author.value)) else t0;
      var a1 := if TextSet(q.author) then Filter(t1, AuthorHas(q.author.value)) else t1;
      if TextSet(q.author) { FilterAppend(t0, t1, AuthorHas(q.author.value)); }
      assert byAuthor == a0 + a1;
      var y0 := if YearSet(q.year) then Filter(a0, YearIs(q.year.value)) else a0;
      var y1 := if YearSet(q.year) then Filter(a1, YearIs(q.year.value)) else a1;
      if YearSet(q.year) { FilterAppend(a0, a1, YearIs(q.year.value)); }
      assert Search(books, q) == y0 + y1;
      assert y1 == Search(rest, q);
      assert y0 == if Matches(q, x) then [x] else [];
    }
  }

  /** The same query with its title and author texts lower-cased. */
  function LoweredQuery(q: Query): Query
  {
    Query(if q.title.Some? then Some(Lower(q.title.value)) else None,
          if q.author.Some? then Some(Lower(q.author.value)) else None,
          q.year)
  }

  /** The search ignores the case of the texts it is given. */
  lemma SearchIgnoresCase(books: seq<Book>, q: Query)
    ensures Search(books, LoweredQuery(q)) == Search(books, q)
  {
    var lq := LoweredQuery(q);
    if TextSet(q.title) {
      LowerIdempotent(q.title.value);
      FilterSameCriterion(books, TitleHas(lq.title.value), TitleHas(q.title.value));
    }
    var byTitle := if TextSet(q.title) then Filter(books, TitleHas(q.title.value)) else books;
    if TextSet(q.author) {
      LowerIdempotent(q.author.value);
      FilterSameCriterion(byTitle, AuthorHas(lq.author.value), AuthorHas(q.author.value));
    }
  }

  // ---------------------------------------------------------------------
  // The catalog object
  // ---------------------------------------------------------------------

  /** Result of delete_book: the success message or the not-found message,
      each naming the identifier. */
  datatype DeleteResult = Deleted(id: int) | NotFound(id: int)

  class Library {
    /** The books, in insertion order. */
    var books: seq<Book>
    /** What the JSON store holds: `None` while no file exists. */
    var stored: Option<seq<Dict>>

    /** The store holds exactly the in-memory books. */
    predicate Synced()
      reads this
    {
      stored == Some(EncodeAll(books))
    }

    /** Field set-up of `__init__`, before loading. */
    constructor (file: Option<seq<Dict>>)
      ensures books == [] && stored == file
    {
      books := [];
      stored := file;
    }

    /** `__init__`: set up, then load the store. `None` where loading would
        raise because an entry lacks a field. */
    static method Open(file: Option<seq<Dict>>) returns (r: Option<Library>)
      ensures r.None? <==> file.Some? && DecodeAll(file.value).None?
      ensures r.Some? ==> fresh(r.value) && r.value.stored == file
      ensures r.Some? ==> r.value.books == if file.None? then [] else DecodeAll(file.value).value
    {
      var lib := new Library(file);
      var ok := lib.LoadBooks();
      r := if ok then Some(lib) else None;
    }

    /** load_books: with no store nothing changes; otherwise the books are
        replaced by the store's entries, unless one of them is malformed,
        in which case the failure is reported and nothing changes. */
    method LoadBooks() returns (ok: bool)
      modifies this`books
      ensures ok <==> stored.None? || DecodeAll(stored.value).Some?
      ensures books == if stored.Some? && ok then DecodeAll(stored.value).value else old(books)
    {
      ok := true;
      if stored.Some? {
        var decoded := DecodeAll(stored.value);
        if decoded.Some? {
          books := decoded.value;
        } else {
          ok := false;
        }
      }
    }

    /** save_books: the store is overwritten with every book, in order. */
    method SaveBooks()
      modifies this`stored
      ensures Synced()
      ensures DecodeAll(stored.value) == Some(books)
    {
      stored := Some(EncodeAll(books));
      DecodeEncode(books);
    }

    /** add_book: one new book at the end, id one more than the old count,
        default status; earlier books untouched; then saved. */
    method AddBook(title: string, author: string, year: int)
      modifies this
      ensures books == Added(old(books), title, author, year)
      ensures |books| == |old(books)| + 1 && books[..|old(books)|] == old(books)
      ensures books[|books| - 1] == Book(|old(books)| + 1, title, author, year, Available)
      ensures Synced()
    {
      var bookId := |books| + 1;
      var newBook := Book(bookId, title, author, year, Available);
      books := books + [newBook];
      SaveBooks();
    }

    /** delete_book: not found leaves everything as it was; otherwise every
        book with the id goes, the rest keep their order, and the store is
        rewritten. */
    method DeleteBook(bookId: int) returns (r: DeleteResult)
      modifies this
      ensures r == if HasId(old(books), bookId) then Deleted(bookId) else NotFound(bookId)
      ensures r.NotFound? ==> books == old(books) && stored == old(stored)
      ensures r.Deleted? ==> books == WithoutId(old(books), bookId) && Synced()
      ensures r.Deleted? ==> !HasId(books, bookId) && |books| < |old(books)|
    {
      if !HasId(books, bookId) {
        return NotFound(bookId);
      }
      DeleteRemovesId(books, bookId);
      WithoutIdShrinks(books, bookId);
      books := WithoutId(books, bookId);
      SaveBooks();
      return Deleted(bookId);
    }

    /** search_books: the books that satisfy every filter given, in catalog
        order; with no filter, the whole catalog. */
    function SearchBooks(title: Option<string>, author: Option<string>, year: Option<int>): (r: seq<Book>)
      reads this
      ensures forall b :: b in r <==> b in books && Matches(Query(title, author, year), b)
      ensures IsSubseq(r, books)
      ensures r == Select(books, Query(title, author, year))
      ensures !TextSet(title) && !TextSet(author) && !YearSet(year) ==> r == books
    {
      var q := Query(title, author, year);
      SearchIsSelect(books, q);
      SelectIsSubseq(books, q);
      Search(books, q)
    }

    /** change_book_status: walks the books and, at the first with the id,
        sets its status, saves and stops; with no such book nothing changes
        and nothing is saved. */
    method ChangeBookStatus(bookId: int, newStatus: string)
      modifies this
      ensures books == WithStatus(old(books), bookId, newStatus)
      ensures HasId(old(books), bookId) ==> Synced()
      ensures !HasId(old(books), bookId) ==> stored == old(stored)
    {
      var i := 0;
      while i < |books|
        invariant 0 <= i <= |books|
        invariant books == old(books) && stored == old(stored)
        invariant forall j :: 0 <= j < i ==> books[j].bookId != bookId
      {
        if books[i].bookId == bookId {
          assert FirstWithId(books, bookId) == Some(i);
          books := books[i := books[i].(status := newStatus)];
          SaveBooks();
          return;
        }
        i := i + 1;
      }
    }
  }

  // The catalog's unit tests, replayed against the contracts above; each
  // starts, as they do, from a store that does not exist yet.

  method TestAddBook()
  {
    var lib := new Library(None);
    lib.AddBook("Тестовое название", "Тестовый автор", 2023);
    assert lib.books == [Book(1, "Тестовое название", "Тестовый автор", 2023, Available)];
  }

  method TestDeleteBook()
  {
    var lib := new Library(None);
    lib.AddBook("Тестовое название", "Тестовый автор", 2023);
    var id := lib.books[0].bookId;
    var r := lib.DeleteBook(id);
    assert r == Deleted(1);
    assert lib.books == [];
  }

  method TestDeleteMissingBook()
  {
    var lib := new Library(None);
    var r := lib.DeleteBook(999);
    assert r == NotFound(999) && lib.books == [] && lib.stored == None;
  }

  method TestSearchByYear()
  {
    var lib := new Library(None);
    lib.AddBook("Тестовое название", "Тестовый автор", 2023);
    lib.AddBook("Другое название", "Другой автор", 2022);
    var first, second := lib.books[0], lib.books[1];
    var q := Query(None, None, Some(2023));
    var found := lib.SearchBooks(q.title, q.author, q.year);
    assert [second][1..] == [] && Select([second], q) == [];
    assert lib.books[1..] == [second];
    assert found == [first] && found[0].year == 2023;
  }

  method TestChangeBookStatus()
  {
    var lib := new Library(None);
    lib.AddBook("Тестовое название", "Тестовый автор", 2023);
    lib.ChangeBookStatus(1, Issued);
    assert lib.books[0].status == Issued;
  }

  method TestSearchByTitle()
  {
    var lib := new Library(None);
    lib.AddBook("Тестовое название", "Тестовый автор", 2023);
    lib.AddBook("Другое название", "Другой автор", 2022);
    var first, second := lib.books[0], lib.books[1];
    var q := Query(Some("Тестовое название"), None, None);
    ContainsSelf(Lower(first.title));
    assert Matches(q, first);
    assert !Matches(q, second);
    var found := lib.SearchBooks(q.title, q.author, q.year);
    assert [second][1..] == [] && Select([second], q) == [];
    assert lib.books[1..] == [second];
    assert found == [first] && found[0].title == "Тестовое название";
  }

  method TestSearchByAuthor()
  {
    var lib := new Library(None);
    lib.AddBook("Тестовое название", "Тестовый автор", 2023);
    lib.AddBook("Другое название", "Другой автор", 2022);
    var first, second := lib.books[0], lib.books[1];
    var q := Query(None, Some("Другой автор"), None);
    ContainsSelf(Lower(second.author));
    assert Matches(q, second);
    var s, p := Lower(first.author), Lower("Другой автор");
    assert s[0] != p[0] && s[1] != p[0] && s[2] != p[0];
    assert !Contains(s[3..], p);
    assert !Matches(q, first);
    var found := lib.SearchBooks(q.title, q.author, q.year);
    assert [second][1..] == [] && Select([second], q) == [second];
    assert lib.books[1..] == [second];
    assert found == [second] && found[0].author == "Другой автор";
  }
}
