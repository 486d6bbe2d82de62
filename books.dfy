/** The book record and the selections the catalog makes over a sequence of
    books: the title and author searches, the genre filter and the read-status
    filter all keep, in their original order, exactly the books a criterion
    matches. */
module Books {
  import opened Text
  import opened Seqs

  /** One catalog record. `dateAdded` is the "YYYY-MM-DD" text stamped when the
      record is created. */
  datatype Book = Book(
    title: string,
    author: string,
    year: int,
    genre: string,
    read: bool,
    dateAdded: string)

  /** The three entries of the read-status selector. */
  const AllBooks := "All Books"
  const ReadStatus := "Read"
  const UnreadStatus := "Unread"

  /** What a selection keeps. */
  datatype Criterion =
    | TitleContains(query: string)   // case-insensitive substring of the title
    | AuthorContains(query: string)  // case-insensitive substring of the author
    | GenreIs(genre: string)         // exact, case-sensitive genre
    | StatusIs(status: string)       // one of the read-status selector's entries

  predicate Matches(c: Criterion, b: Book) {
    match c
    case TitleContains(q) => Contains(ToLower(b.title), ToLower(q))
    case AuthorContains(q) => Contains(ToLower(b.author), ToLower(q))
    case GenreIs(g) => b.genre == g
    case StatusIs(s) =>
      s == AllBooks || (s == ReadStatus && b.read) || (s == UnreadStatus && !b.read)
  }

  /** `[b for b in books if <c matches b>]`: keeps the matching books in order,
      each as often as it occurs in `books`, and nothing else. */
  function Select(books: seq<Book>, c: Criterion): (r: seq<Book>)
    ensures IsSubsequence(r, books)
    ensures forall b :: multiset(r)[b] == if Matches(c, b) then multiset(books)[b] else 0
    decreases |books|
  {
    if |books| == 0 then
      []
    else
      var init, last := books[..|books| - 1], books[|books| - 1];
      assert books == init + [last];
      var kept := Select(init, c);
      if Matches(c, last) then
        SubsequenceSnoc(kept, init, last);
        kept + [last]
      else
        SubsequenceExtend(kept, init, last);
        kept
  }

  /** `sum(1 for b in books if <c matches b>)`. */
  function Count(books: seq<Book>, c: Criterion): nat
    decreases |books|
  {
    if |books| == 0 then
      0
    else
      Count(books[..|books| - 1], c) + if Matches(c, books[|books| - 1]) then 1 else 0
  }

  /** Counting one more book of a sequence. */
  lemma CountSnoc(books: seq<Book>, i: nat, c: Criterion)
    requires i < |books|
    ensures Count(books[..i + 1], c) == Count(books[..i], c) + if Matches(c, books[i]) then 1 else 0
  {
    assert books[..i + 1][..i] == books[..i];
  }

  /** The positions of `books` that the criterion matches. */
  ghost function MatchingPositions(books: seq<Book>, c: Criterion): set<int> {
    set i | 0 <= i < |books| && Matches(c, books[i])
  }

  /** `Count` is the number of matching positions. */
  lemma {:induction false} CountIsMatchingPositions(books: seq<Book>, c: Criterion)
    ensures Count(books, c) == |MatchingPositions(books, c)|
    decreases |books|
  {
    if |books| > 0 {
      var n := |books| - 1;
      var init := books[..n];
      CountIsMatchingPositions(init, c);
      var before := MatchingPositions(init, c);
      var now := MatchingPositions(books, c);
      if Matches(c, books[n]) {
        assert now == before + {n};
        assert n !in before;
      } else {
        assert now == before;
      }
    }
  }

  /** A selection has exactly `Count` books. */
  lemma {:induction false} SelectLength(books: seq<Book>, c: Criterion)
    ensures |Select(books, c)| == Count(books, c)
    decreases |books|
  {
    if |books| > 0 {
      SelectLength(books[..|books| - 1], c);
    }
  }

  /** The two properties in `Select`'s contract determine its result: any
      subsequence of `books` that keeps every matching book as often as it
      occurs, and no other book, is `Select(books, c)`. */
  lemma {:induction false} SelectUnique(books: seq<Book>, c: Criterion, r: seq<Book>)
    requires IsSubsequence(r, books)
    requires forall b :: multiset(r)[b] == if Matches(c, b) then multiset(books)[b] else 0
    ensures r == Select(books, c)
    decreases |books|
  {
    if |books| == 0 {
      assert |r| == 0;
    } else {
      var init, last := books[..|books| - 1], books[|books| - 1];
      assert books == init + [last];
      assert multiset(books) == multiset(init) + multiset{last};
      if Matches(c, last) {
        SubsequenceKeepsLast(r, init, last);
        var rest := r[..|r| - 1];
        assert r == rest + [last];
        assert multiset(r) == multiset(rest) + multiset{last};
        SelectUnique(init, c, rest);
      } else {
        SubsequenceDropsLast(r, init, last);
        forall b ensures multiset(r)[b] == if Matches(c, b) then multiset(init)[b] else 0 {
          if Matches(c, b) {
            assert b != last;
          }
        }
        SelectUnique(init, c, r);
      }
    }
  }

  /** When every book matches, the selection is the whole sequence. */
  lemma {:induction false} SelectAll(books: seq<Book>, c: Criterion)
    requires forall i :: 0 <= i < |books| ==> Matches(c, books[i])
    ensures Select(books, c) == books
    decreases |books|
  {
    if |books| > 0 {
      var init, last := books[..|books| - 1], books[|books| - 1];
      SelectAll(init, c);
      assert Matches(c, last);
      assert books == init + [last];
    }
  }

  /** When no book matches, the selection is empty. */
  lemma {:induction false} SelectNone(books: seq<Book>, c: Criterion)
    requires forall i :: 0 <= i < |books| ==> !Matches(c, books[i])
    ensures Select(books, c) == []
    decreases |books|
  {
    if |books| > 0 {
      SelectNone(books[..|books| - 1], c);
    }
  }

  /** Every book is either read or unread: the two status selections split
      the sequence. */
  lemma {:induction false} ReadUnreadPartition(books: seq<Book>)
    ensures Count(books, StatusIs(ReadStatus)) + Count(books, StatusIs(UnreadStatus)) == |books|
    decreases |books|
  {
    if |books| > 0 {
      ReadUnreadPartition(books[..|books| - 1]);
    }
  }
}
