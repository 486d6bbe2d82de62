# Personal Library Manager — catalog model in Dafny

This project models the catalog behind a personal book-library dashboard.
`LibraryManager` keeps an ordered list of book records. Each record has a
title, author, year, genre, read flag and the date it was added. Besides
`LoadLibrary`, which replaces the whole list with the stored records (the
constructor calls it), the list changes in two ways only: a new record is
appended, or the record at a given position is removed. A removal at an index outside the list is refused with
`(false, "")`. The queries are views of the list:

- case-insensitive title and author search;
- a genre filter with an "All Genres" entry that stands for every genre;
- the sorted list of distinct genres;
- read and unread totals with the read percentage.

Two loops from the dashboard are modelled beside the catalog: the read-status
filter on the Library tab and the per-genre tally on the Statistics tab.

Files (one module each):

- `text.dfy` (`Text`): ASCII case folding. `Contains` is Python's `in` on
  strings, proved equal to "occurs at some position". `Below` is Python's `<`
  on strings, proved a strict total order. `SortDistinct` is
  `sorted(set(...))`, and a strictly ascending list is proved to be fixed by
  its elements.
- `seqs.dfy` (`Seqs`): `IsSubsequence`, the "same order, some elements
  dropped" relation.
- `books.dfy` (`Books`): the `Book` record and `Select`, the one list
  comprehension that every search and filter uses. Its contract is exact: the
  result is a subsequence of the input, and it holds every matching book as
  often as the input does and no other book. `SelectUnique` proves that these
  two facts together determine the result. `Count` is the `sum(1 for ...)`
  count; it is proved equal to the number of matching positions and to the
  length of the selection.
- `library.dfy` (`Library`): the `LibraryManager` class. Its field
  `library: seq<Book>` is reassigned by `AddBook`, `RemoveBook` and
  `LoadLibrary`. The queries are functions that read the object. The file
  also holds lemmas about the queries and small example methods.
- `dashboard.dfy` (`Dashboard`): the read-status filter, and the genre tally
  as a loop over a `map<string, nat>`. The tally is proved to hold each
  genre's count, and its values are proved to sum to the number of books.

Inputs from outside are parameters:

- The date stamped on a new record is passed to `AddBook` as text.
- The outcome of reading the persisted file is passed to the constructor and
  to `LoadLibrary` as a `StoredFile` value: `Missing`, `Unreadable` or
  `Stored(books)`.

`load_library` returns `False` for a missing file (app.py:79) as for one that
cannot be read (app.py:78), and `LoadLibrary` reports `false` in both cases;
the catalog stays empty at construction either way.

## Model

| member | source | states |
|---|---|---|
| `Library.LibraryManager.constructor` | app.py:8-11 | the catalog starts empty and holds the stored records only when the persisted file loaded |
| `Library.LibraryManager.LoadLibrary` | app.py:69-79 | reports true exactly when the file exists and parses, and then the catalog is the stored list. A missing or unreadable file reports false and leaves the catalog unchanged |
| `Library.LibraryManager.AddBook` | app.py:13-24 | returns the record built from its arguments. The catalog grows by exactly one, the new record is last, and every earlier record is unchanged |
| `Library.LibraryManager.RemoveBook` | app.py:26-31 | succeeds exactly when `0 <= index < len`. On success it returns the removed record's title, the catalog is `old[..index] + old[index+1..]` (one shorter, later records shifted down). Otherwise it returns `(false, "")` and the catalog is unchanged |
| `Library.LibraryManager.SearchByTitle` | app.py:33-36 | a subsequence of the catalog holding every record whose lower-cased title contains the lower-cased query, as often as it occurs, and no other record |
| `Library.LibraryManager.SearchByAuthor` | app.py:38-41 | the same for the author field |
| `Library.LibraryManager.GetStatistics` | app.py:43-57 | total is the catalog length. read is the number of positions holding a read record, and read <= total. unread = total - read >= 0. The percentage is the zero value exactly when the catalog is empty, and otherwise the exact fraction read/total |
| `Library.LibraryManager.GetAllGenres` | app.py:81-83 | strictly ascending in Python's string order (so no duplicates). A string is in it iff some record has that genre |
| `Library.LibraryManager.FilterByGenre` | app.py:85-89 | the argument "All Genres" gives back the catalog itself. Any other genre gives a subsequence holding exactly the records of that genre (case-sensitive), each as often as it occurs. The result is never longer than the catalog |
| `Library.EmptyQueryMatchesEverything` | app.py:33-41 | searching title or author for the empty string returns the whole catalog in order |
| `Library.SearchIgnoresQueryCase` | app.py:33-41 | two queries with the same lower-cased text (upper-cased, lower-cased or mixed-case spellings of one query) find the same records, for title and for author |
| `Library.GenresAreTheSortedSet` | app.py:83 | any strictly ascending list of exactly the catalog's genres equals `GetAllGenres`, so it is `sorted(set(...))` and nothing else |
| `Library.StatisticsAfterAdd` | app.py:23 | on the manager whose catalog is an earlier catalog plus one appended record: the total is one more than the earlier length, the read count is the earlier read count plus one iff the record is read, and its genre is among the genres |
| `Library.AddCountsOnceExample` | app.py:13-57 | on a manager loaded from any stored file, adding a read book raises the total and the read count by one each |
| `Library.DuneExample` | app.py:43-57 | adding one read book to an empty catalog gives total 1, read 1, unread 0 and the fraction 1/1 (100%) |
| `Library.GenresExample` | app.py:81-83 | records added with genres "Sci-Fi" then "Drama" give the genre list `["Drama", "Sci-Fi"]` |
| `Library.MissingFileExample` | app.py:69-79 | a missing file leaves an empty catalog and loading reports false |
| `Library.RemoveOutOfRangeExample` | app.py:26-31 | removing at index 1 of a one-record catalog is refused with `(false, "")`, removing at -1 is refused with `(false, "")` too, and the catalog keeps its record |
| `Dashboard.FilterByStatus` | app.py:121-125 | "All Books" keeps every book. "Read" keeps exactly the read books and "Unread" exactly the unread ones, in order and with their multiplicities. Any other text keeps none |
| `Dashboard.StatisticsMatchStatusFilter` | app.py:121-125 | the read and unread statistics equal the number of rows the "Read" and "Unread" filters list |
| `Dashboard.CountGenres` | app.py:229-235 | the tally has a key exactly for each genre that occurs. Each key's value is the number of books of that genre, and the values sum to the number of books |
| `Dashboard.TotalUpdate` | app.py:232-235 | raising one tally entry, or adding a new entry, changes the sum of the tally by exactly the change in that entry |
| `Books.Select` | app.py:89 | a list comprehension keeps, in order, every matching book as often as it occurs and no other book |
| `Books.SelectUnique` | app.py:89 | those two properties determine the comprehension's result uniquely |
| `Books.SelectLength` | app.py:46 | the comprehension's length is the `sum(1 for ...)` count of matching books |
| `Books.CountIsMatchingPositions` | app.py:46 | the count is the number of positions whose book matches |
| `Books.ReadUnreadPartition` | app.py:55 | the read count plus the unread count is the number of books |
| `Text.ContainsIffOccurs` | app.py:35 | `needle in hay` holds exactly when the needle occurs at some position of the hay |
| `Text.ToLowerForgetsCase` | app.py:35 | lower-casing an upper-cased string gives the lower-cased original |
| `Text.SortDistinct` | app.py:83 | the result is strictly ascending and holds exactly the elements of the input |
| `Text.AscendingUnique` | app.py:83 | two strictly ascending lists with the same elements are equal |
| `Text.BelowIrreflexive` | app.py:83 | no string sorts before itself |
| `Text.BelowTransitive` | app.py:83 | the string order is transitive |
| `Text.BelowTotal` | app.py:83 | any two distinct strings are ordered one way or the other |

## Left out

- `save_library` (app.py:59-67) is not modelled. It writes the whole list as JSON through the file system and reports errors through the UI, so it is I/O only.
- `LibraryManager.LoadLibrary`: the JSON parsing and the existence test on the file are not modelled. Their outcome is the `StoredFile` parameter. `Stored(books)` can only carry well-formed `Book` records; whatever else `json.load` could assign to the catalog at app.py:74 (a dict, a list of non-records) is outside the model. The error message a failed load shows through `st.error` (app.py:77) is not modelled either.
- The `filename` attribute ("library.txt", app.py:10) is not modelled, because it is used only by the file I/O.
- `datetime.now()` (app.py:21, app.py:160) reads the clock. The date text is a parameter of `AddBook`.
- `LibraryManager.GetStatistics`: the floating-point percentage `(read / total) * 100` (app.py:50) is kept as the exact pair (read, total). Rounding is not modelled.
- `Text.ToLower`: only ASCII letters are folded. Python's full Unicode `str.lower()` is not modelled.
- `FilterByGenre` returns the live list for "All Genres" (app.py:88). With a value-typed `seq` there is no aliasing to model.
- The Streamlit and pandas presentation in `main` is not modelled: tabs, forms, form validation, dataframes, progress bar, bar chart, `st.rerun`. Neither is the ordering of the tally by count before charting (app.py:238-243).
- The remove button maps the selected title back to a catalog index with `list.index` (app.py:138-145). This is UI glue and is not modelled. `RemoveBook` takes the index itself.
- `Dashboard.CountGenres`: the insertion order of the dictionary keys is not modelled, because a Dafny `map` is unordered.
