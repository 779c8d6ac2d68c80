# Book catalog — a Dafny model

This project models the in-memory book catalog of `library.py`: the `Book`
record with its conversion to and from a dictionary, and the `Library`
object that keeps an ordered list of books, rewrites its JSON store after
every change, and supports adding, deleting, searching and changing a
book's status.

- `wrappers.dfy` — module `Wrappers`: the `Option` type.
- `books.dfy` — module `Books`: the `Book` datatype, the default status
  `"в наличии"` ("in stock"), the JSON values a field can hold, `ToDict` /
  `FromDict` (`Book.to_dict` / `Book.from_dict`), and `EncodeAll` /
  `DecodeAll` for the whole store, with the round-trip lemmas.
- `text.dfy` — module `Text`: character-wise lower-casing (`str.lower`) and
  substring containment (Python's `p in s`), with `Contains` proved equal
  to "`p` occurs at some offset of `s`".
- `catalog.dfy` — module `Catalog`: the criteria the list comprehensions
  filter by, the specification functions of each operation, the lemmas
  about them, the class `Library`, and the unit tests of `test_library.py`
  replayed as client methods (`TestAddBook`, `TestDeleteBook`, ...).

The JSON file is modelled as a field `stored: Option<seq<Dict>>` of the
`Library` object: `None` while no file exists, otherwise the list of
dictionaries it holds. `save_books` becomes `stored := Some(EncodeAll(books))`,
so "the store mirrors memory after every change" is the predicate `Synced()`,
and `DecodeEncode` shows that loading that store gives the same books back.

Where the code and the catalog's documentation disagree, the model follows
the code:

- The doc comment at `library.py:11` calls `book_id` a unique identifier.
  New ids are `len(books) + 1` (`library.py:104`), so ids can repeat. The
  model claims no uniqueness invariant. Consider a catalog whose ids are
  their 1-based positions, for example one built by additions from an
  empty store. `AddKeepsPositions` shows that such a catalog keeps unique
  ids while books are only added. `AddAfterDeleteReusesId` shows that in
  such a catalog, deleting any book but the last and then adding one
  produces two books with the same id. A loaded store need not have ids
  equal to positions. `AddToLoadedStoreCanRepeatId` shows that a single
  addition to a store holding one book with id 2 repeats that id.
- `delete_book` removes every book with the id, not just one
  (`library.py:122`). With duplicate ids that is more than one book.
- `change_book_status` with an unknown id does nothing and reports nothing
  (`library.py:173-177`); only the first book with the id is changed.
- `load_books` raises on an entry that lacks a field (`library.py:86`);
  the model reports this as `None` from `Open` and `false` from `LoadBooks`,
  with the books left as they were.

## Model

| member | source | states |
|---|---|---|
| `Books.ToDict` | library.py:38-44 | the dictionary has exactly the keys id, title, author, year, status, each holding the book's attribute |
| `Books.FromDict` | library.py:57-63 | a book is read exactly when all five keys are present with values of the field's type; other keys are ignored |
| `Books.FromDictToDict` | library.py:38-63 | reading back a book's dictionary gives the same book (all five fields) |
| `Books.ToDictFromDict` | library.py:57-63 | a dictionary that reads as a book agrees with that book's dictionary on all five keys |
| `Books.EncodeAll` | library.py:93 | the saved list has one entry per book, in order, each reading back as the book at that position |
| `Books.DecodeAll` | library.py:86 | loading succeeds exactly when every entry is well formed, and then yields one book per entry, in order |
| `Books.DecodeEncode` | library.py:86-93 | loading what was saved gives back the same books in the same order |
| `Text.LowerChar` | library.py:147 | a lower-cased character is never a capital; a capital is changed; any other character is kept |
| `Text.Lower` | library.py:147 | lower-casing keeps the length, leaves no capital, replaces every capital and keeps every other character in place |
| `Text.LowerIdempotent` | library.py:147 | lower-casing an already lower-cased string changes nothing |
| `Text.ContainsIff` | library.py:147 | `p in s` holds exactly when `p` occurs in `s` at some offset |
| `Text.ContainsSelf` | library.py:147 | a string contains itself and the empty string |
| `Catalog.Filter` | library.py:122 | a book is in the filtered list exactly when it is in the input and meets the condition; the result is no longer than the input |
| `Catalog.FilterIsSubseq` | library.py:122 | filtering keeps the surviving books in their relative order |
| `Catalog.FilterKeepsAll` | library.py:122 | filtering returns the whole list exactly when every book meets the condition |
| `Catalog.DeleteRemovesId` | library.py:122 | after a deletion no book has the id, every book with another id is still there, in the same relative order |
| `Catalog.WithoutIdShrinks` | library.py:120-122 | the list gets shorter exactly when some book has the id |
| `Catalog.FirstWithId` | library.py:173-175 | the position found holds the id and no earlier book has it; there is none exactly when no book has the id |
| `Catalog.WithStatus` | library.py:173-177 | only the status of the first book with the id changes, to the new one; every other book and every other field stays the same |
| `Catalog.AddKeepsPositions` | library.py:104-106 | in a catalog whose ids are their 1-based positions (for example one built by additions from an empty store), an addition keeps ids equal to positions, so ids stay unique |
| `Catalog.WithoutOnlyPosition` | library.py:122 | when only the book at one position has the id, deleting it removes just that position |
| `Catalog.AddAfterDeleteReusesId` | library.py:104-122 | in a catalog whose ids are their 1-based positions (for example one built by additions from an empty store), deleting any book but the last and then adding one gives two books the same id |
| `Catalog.AddToLoadedStoreCanRepeatId` | library.py:104-106 | in a loaded catalog holding one book with id 2, a single addition gives a second book with id 2 |
| `Catalog.Select` | library.py:145-154 | reference search: a book is in the result exactly when it is in the catalog and meets every filter that is given and not empty |
| `Catalog.SelectIsSubseq` | library.py:145-154 | the reference search keeps catalog order |
| `Catalog.SearchIsSelect` | library.py:145-154 | narrowing by title, then author, then year gives exactly the one-pass reference result, repetitions and order included |
| `Catalog.SearchIgnoresCase` | library.py:147-151 | the result does not change when the title and author texts are lower-cased first |
| `Catalog.Library.constructor` | library.py:74-76 | a new catalog has no books and the given store |
| `Catalog.Library.Open` | library.py:74-86 | opening fails exactly when the store exists and has a malformed entry; otherwise the books are the store's, or none without a store |
| `Catalog.Library.LoadBooks` | library.py:79-86 | without a store nothing changes; with one, the books become its entries unless one is malformed, which is reported and changes nothing |
| `Catalog.Library.SaveBooks` | library.py:88-93 | the store is overwritten with every book, in order, and loads back as the same books |
| `Catalog.Library.AddBook` | library.py:95-107 | exactly one book is appended, with id one more than the old count and the default status; earlier books are unchanged; the store is rewritten |
| `Catalog.Library.DeleteBook` | library.py:109-124 | with no book of that id: not-found result, books and store unchanged; otherwise deleted result, all books of that id removed, others kept in order, store rewritten |
| `Catalog.Library.SearchBooks` | library.py:128-154 | a book is in the result exactly when it is in the catalog and meets every filter given; catalog order is kept; without filters the result is the whole catalog |
| `Catalog.Library.ChangeBookStatus` | library.py:165-177 | only the first book with the id gets the new status and the store is rewritten; with no such book neither books nor store change |

## Left out

- File I/O: `open`, `os.path.exists`, `json.load` / `json.dump` and the UTF-8 encoding (`library.py:83-93`). The file is the `stored` field; a missing file is `None`.
- The `try` / `except Exception` of `delete_book` (`library.py:119`, `library.py:125-126`): it only catches failures of the file write, which is not modelled.
- `display_books` and `main` (`library.py:156-238`): console output and the interactive loop, including parsing the year with `int(input(...))`.
- The exact Russian text of `delete_book`'s messages: the result is `Deleted(id)` or `NotFound(id)`.
- `Text.LowerChar`: maps only Latin A-Z and the Cyrillic capitals U+0400..U+042F; the rest of Unicode's case mapping (other scripts, characters that lower-case to several characters) is not modelled.
- `Books.FromDict`: rejects an entry whose id or year is not an integer, or whose title, author or status is not text. The source does not check value types and would build a `Book` holding whatever value is there. JSON floats, lists and objects are not modelled.
- Aliasing: books are values. In the source, `search_books` returns the catalog's own `Book` objects (with no filter, the very list `self.books`), so a caller changing a result changes the catalog; the model does not capture this.
- Only the `None`, `""` and `0` falsy forms of the search arguments are modelled; other Python types passed as filters are not.
