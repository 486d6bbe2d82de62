/** The catalog store: `LibraryManager` holds the ordered list of book records.
    Besides `LoadLibrary`, which replaces the whole list with the stored records
    (the constructor calls it), the list changes in two ways only: appending
    (add) and removing by position (remove). The searches, filters and
    statistics are views of that list. */
module Library {
  import opened Text
  import opened Seqs
  import opened Books

  /** The genre selector's entry that stands for every genre. */
  const AllGenres := "All Genres"

  /** What reading the persisted file gave: no file, a file that could not be
      read or parsed, or the list of records it held. */
  datatype StoredFile = Missing | Unreadable | Stored(books: seq<Book>)

  /** The read percentage, kept exact: `Zero` when the library is empty
      (`get_statistics` sets 0 and does not divide), otherwise
      `100 * read / total`. */
  datatype Percentage = Zero | Fraction(read: nat, total: nat)

  datatype Statistics = Statistics(total: nat, read: nat, unread: int, percentage: Percentage)

  class LibraryManager {
    /** The catalog, in insertion order; duplicates are allowed. */
    var library: seq<Book>

    /** Starts empty and then loads from the persisted file, if that works. */
    constructor (file: StoredFile)
      ensures library == if file.Stored? then file.books else []
    {
      library := [];
      new;
      var loaded := LoadLibrary(file);
    }

    /** Replaces the catalog with the stored records when the file exists and
        parses; reports false, leaving the catalog as it was, when the file is
        missing or cannot be read. */
    method LoadLibrary(file: StoredFile) returns (loaded: bool)
      modifies this
      ensures loaded <==> file.Stored?
      ensures library == if file.Stored? then file.books else old(library)
    {
      match file
      case Stored(books) =>
        library := books;
        loaded := true;
      case Missing =>
        loaded := false;
      case Unreadable =>
        loaded := false;
    }

    /** Appends a new record; `dateAdded` is today's date, formatted by the
        caller. */
    method AddBook(title: string, author: string, year: int, genre: string,
                   readStatus: bool, dateAdded: string) returns (book: Book)
      modifies this
      ensures book == Book(title, author, year, genre, readStatus, dateAdded)
      ensures library == old(library) + [book]
      ensures |library| == |old(library)| + 1 && library[|library| - 1] == book
      ensures forall i :: 0 <= i < |old(library)| ==> library[i] == old(library)[i]
    {
      book := Book(title, author, year, genre, readStatus, dateAdded);
      library := library + [book];
    }

    /** Removes the record at `index`, shifting the later ones down, and gives
        back its title; an index outside the catalog changes nothing and gives
        back `(false, "")`. */
    method RemoveBook(index: int) returns (success: bool, title: string)
      modifies this
      ensures success <==> 0 <= index < |old(library)|
      ensures success ==> title == old(library)[index].title
      ensures success ==> library == old(library)[..index] + old(library)[index + 1..]
      ensures success ==> |library| == |old(library)| - 1
      ensures success ==> forall i :: 0 <= i < |library| ==>
                            library[i] == old(library)[if i < index then i else i + 1]
      ensures !success ==> title == "" && library == old(library)
    {
      if 0 <= index < |library| {
        var removed := library[index];
        library := library[..index] + library[index + 1..];
        success, title := true, removed.title;
      } else {
        success, title := false, "";
      }
    }

    /** The records whose title contains `query`, ignoring ASCII case, in
        catalog order. */
    function SearchByTitle(query: string): (r: seq<Book>)
      reads this
      ensures IsSubsequence(r, library)
      ensures forall b :: multiset(r)[b] ==
                if Contains(ToLower(b.title), ToLower(query)) then multiset(library)[b] else 0
    {
      Select(library, TitleContains(query))
    }

    /** The records whose author contains `query`, ignoring ASCII case, in
        catalog order. */
    function SearchByAuthor(query: string): (r: seq<Book>)
      reads this
      ensures IsSubsequence(r, library)
      ensures forall b :: multiset(r)[b] ==
                if Contains(ToLower(b.author), ToLower(query)) then multiset(library)[b] else 0
    {
      Select(library, AuthorContains(query))
    }

    /** Totals over the catalog: the number of records, of read records, of
        unread ones, and the read percentage without dividing by zero. */
    function GetStatistics(): (r: Statistics)
      reads this
      ensures r.total == |library|
      ensures r.read == |set i | 0 <= i < |library| && library[i].read|
      ensures r.read <= r.total && r.unread == r.total - r.read && r.unread >= 0
      ensures r.percentage == Zero <==> r.total == 0
      ensures r.percentage.Fraction? ==>
                r.percentage.read == r.read && r.percentage.total == r.total > 0
    {
      var total := |library|;
      var read := Count(library, StatusIs(ReadStatus));
      CountIsMatchingPositions(library, StatusIs(ReadStatus));
      assert MatchingPositions(library, StatusIs(ReadStatus))
          == set i | 0 <= i < |library| && library[i].read;
      ReadUnreadPartition(library);
      Statistics(total, read, total - read, if total > 0 then Fraction(read, total) else Zero)
    }

    /** Every genre that occurs in the catalog, once each, in ascending order. */
    function GetAllGenres(): (r: seq<string>)
      reads this
      ensures StrictlyAscending(r)
      ensures forall g :: g in r <==> exists b :: b in library && b.genre == g
    {
      var books := library;
      var genres := seq(|books|, i requires 0 <= i < |books| => books[i].genre);
      assert forall g :: g in genres <==> exists b :: b in books && b.genre == g by {
        forall g ensures g in genres <==> exists b :: b in books && b.genre == g {
          if g in genres {
            var i :| 0 <= i < |genres| && genres[i] == g;
            assert books[i] in books;
          }
          if exists b :: b in books && b.genre == g {
            var b :| b in books && b.genre == g;
            var i :| 0 <= i < |books| && books[i] == b;
            assert genres[i] == g;
          }
        }
      }
      SortDistinct(genres)
    }

    /** The whole catalog for the "All Genres" entry; otherwise the records of
        exactly that genre, in catalog order. */
    function FilterByGenre(genre: string): (r: seq<Book>)
      reads this
      ensures genre == AllGenres ==> r == library
      ensures genre != AllGenres ==> IsSubsequence(r, library)
      ensures genre != AllGenres ==>
                forall b :: multiset(r)[b] == if b.genre == genre then multiset(library)[b] else 0
      ensures |r| <= |library|
    {
      if genre == AllGenres then
        library
      else
        var r := Select(library, GenreIs(genre));
        SubsequenceMultiset(r, library);
        r
    }
  }

  /** Searching for the empty string returns the whole catalog. */
  lemma EmptyQueryMatchesEverything(m: LibraryManager)
    ensures m.SearchByTitle("") == m.library
    ensures m.SearchByAuthor("") == m.library
  {
    assert ToLower("") == "";
    forall i | 0 <= i < |m.library|
      ensures Matches(TitleContains(""), m.library[i]) && Matches(AuthorContains(""), m.library[i])
    {
      ContainsEmpty(ToLower(m.library[i].title));
      ContainsEmpty(ToLower(m.library[i].author));
    }
    SelectAll(m.library, TitleContains(""));
    SelectAll(m.library, AuthorContains(""));
  }

  /** The searches ignore the case of the query: two queries that lower-case
      to the same text, such as "dune", "DUNE" and "Dune", find the same
      records. */
  lemma SearchIgnoresQueryCase(m: LibraryManager, q1: string, q2: string)
    requires ToLower(q1) == ToLower(q2)
    ensures m.SearchByTitle(q1) == m.SearchByTitle(q2)
    ensures m.SearchByAuthor(q1) == m.SearchByAuthor(q2)
  {
    var lib := m.library;
    SelectUnique(lib, TitleContains(q1), Select(lib, TitleContains(q2)));
    SelectUnique(lib, AuthorContains(q1), Select(lib, AuthorContains(q2)));
  }

  /** The genre list is `sorted(set(...))` exactly: any strictly ascending list
      of the catalog's genres equals it. */
  lemma GenresAreTheSortedSet(m: LibraryManager, gs: seq<string>)
    requires StrictlyAscending(gs)
    requires forall g :: g in gs <==> exists b :: b in m.library && b.genre == g
    ensures gs == m.GetAllGenres()
  {
    AscendingUnique(gs, m.GetAllGenres());
  }

  /** Adding a record counts it once in the total and once among the read
      records if it is marked read; the genre list gains its genre. `before`
      is the catalog as it was before `AddBook` appended `b`. */
  lemma StatisticsAfterAdd(m: LibraryManager, before: seq<Book>, b: Book)
    requires m.library == before + [b]
    ensures m.GetStatistics().total == |before| + 1
    ensures m.GetStatistics().read == Count(before, StatusIs(ReadStatus)) + if b.read then 1 else 0
    ensures b.genre in m.GetAllGenres()
  {
    assert (before + [b])[..|before|] == before;
    assert b in m.library;
  }

  /** Adding a record to a loaded catalog, read through `StatisticsAfterAdd`. */
  method AddCountsOnceExample(file: StoredFile) returns (before: Statistics, after: Statistics)
    ensures after.total == before.total + 1
    ensures after.read == before.read + 1
  {
    var m := new LibraryManager(file);
    before := m.GetStatistics();
    ghost var earlier := m.library;
    var dune := m.AddBook("Dune", "Herbert", 1965, "Sci-Fi", true, "2024-01-01");
    after := m.GetStatistics();
    StatisticsAfterAdd(m, earlier, dune);
  }

  /** Adding "Dune" to an empty catalog gives one record, read, 100% read. */
  method DuneExample() returns (stats: Statistics)
    ensures stats == Statistics(1, 1, 0, Fraction(1, 1))
  {
    var m := new LibraryManager(Missing);
    var dune := m.AddBook("Dune", "Herbert", 1965, "Sci-Fi", true, "2024-01-01");
    assert m.library == [dune];
    stats := m.GetStatistics();
  }

  /** Genres come out sorted, not in insertion order. */
  method GenresExample() returns (genres: seq<string>)
    ensures genres == ["Drama", "Sci-Fi"]
  {
    var m := new LibraryManager(Missing);
    var a := m.AddBook("Dune", "Herbert", 1965, "Sci-Fi", true, "2024-01-01");
    var b := m.AddBook("Hamlet", "Shakespeare", 1603, "Drama", false, "2024-01-02");
    assert Below("Drama", "Sci-Fi");
    GenresAreTheSortedSet(m, ["Drama", "Sci-Fi"]);
    genres := m.GetAllGenres();
  }

  /** A file that is not there leaves an empty catalog, and loading reports
      false. */
  method MissingFileExample() returns (loaded: bool, size: nat)
    ensures !loaded && size == 0
  {
    var m := new LibraryManager(Missing);
    loaded := m.LoadLibrary(Missing);
    size := |m.library|;
  }

  /** Removing at a stale or negative index is refused and changes nothing. */
  method RemoveOutOfRangeExample()
    returns (success: bool, title: string, negSuccess: bool, negTitle: string, size: nat)
    ensures !success && title == ""
    ensures !negSuccess && negTitle == ""
    ensures size == 1
  {
    var m := new LibraryManager(Missing);
    var dune := m.AddBook("Dune", "Herbert", 1965, "Sci-Fi", true, "2024-01-01");
    success, title := m.RemoveBook(1);
    negSuccess, negTitle := m.RemoveBook(-1);
    size := |m.library|;
  }
}
