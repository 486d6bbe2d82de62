/** Two pieces of logic from the dashboard that sit beside the catalog: the
    read-status filter applied after the genre filter on the Library tab, and
    the per-genre tally drawn as a bar chart on the Statistics tab. */
module Dashboard {
  import opened Seqs
  import opened Books
  import opened Library

  /** Keeps, in order, the books the read-status selector picks: all of them
      for "All Books", the read ones for "Read", the unread ones for "Unread",
      and none for any other text. */
  function FilterByStatus(books: seq<Book>, status: string): (r: seq<Book>)
    ensures status == AllBooks ==> r == books
    ensures status == ReadStatus ==> IsSubsequence(r, books)
    ensures status == ReadStatus ==>
              forall b :: multiset(r)[b] == if b.read then multiset(books)[b] else 0
    ensures status == UnreadStatus ==> IsSubsequence(r, books)
    ensures status == UnreadStatus ==>
              forall b :: multiset(r)[b] == if !b.read then multiset(books)[b] else 0
    ensures status !in {AllBooks, ReadStatus, UnreadStatus} ==> r == []
  {
    var r := Select(books, StatusIs(status));
    assert (status == AllBooks ==> r == books)
        && (status !in {AllBooks, ReadStatus, UnreadStatus} ==> r == []) by {
      if status == AllBooks {
        SelectAll(books, StatusIs(status));
      } else if status !in {ReadStatus, UnreadStatus} {
        SelectNone(books, StatusIs(status));
      }
    }
    r
  }

  /** The "Books Read" and "Books Unread" metrics are the numbers of rows the
      Library tab lists under the "Read" and "Unread" entries. */
  lemma StatisticsMatchStatusFilter(m: LibraryManager)
    ensures m.GetStatistics().read == |FilterByStatus(m.library, ReadStatus)|
    ensures m.GetStatistics().unread == |FilterByStatus(m.library, UnreadStatus)|
  {
    SelectLength(m.library, StatusIs(ReadStatus));
    SelectLength(m.library, StatusIs(UnreadStatus));
    ReadUnreadPartition(m.library);
  }

  /** The sum of the values of a tally. */
  ghost function Total(counts: map<string, nat>): nat {
    SumOver(counts, counts.Keys)
  }

  /** The sum of `counts[k]` over the keys `ks`. */
  ghost function SumOver(counts: map<string, nat>, ks: set<string>): nat
    requires ks <= counts.Keys
    decreases ks
  {
    if ks == {} then
      0
    else
      var k :| k in ks;
      counts[k] + SumOver(counts, ks - {k})
  }

  /** `SumOver` does not depend on which key it takes first. */
  lemma {:induction false} SumOverWithout(counts: map<string, nat>, ks: set<string>, k: string)
    requires ks <= counts.Keys && k in ks
    ensures SumOver(counts, ks) == counts[k] + SumOver(counts, ks - {k})
    decreases ks
  {
    var j :| j in ks && SumOver(counts, ks) == counts[j] + SumOver(counts, ks - {j});
    if j != k {
      SumOverWithout(counts, ks - {j}, k);
      SumOverWithout(counts, ks - {k}, j);
      assert ks - {j} - {k} == ks - {k} - {j};
    }
  }

  /** Two tallies that agree on `ks` have the same sum over `ks`. */
  lemma {:induction false} SumOverAgree(a: map<string, nat>, b: map<string, nat>, ks: set<string>)
    requires ks <= a.Keys && ks <= b.Keys
    requires forall k :: k in ks ==> a[k] == b[k]
    ensures SumOver(a, ks) == SumOver(b, ks)
    decreases ks
  {
    if ks != {} {
      var k :| k in ks && SumOver(a, ks) == a[k] + SumOver(a, ks - {k});
      SumOverWithout(b, ks, k);
      SumOverAgree(a, b, ks - {k});
    }
  }

  /** Setting one entry to `v` changes the total by the difference. */
  lemma TotalUpdate(counts: map<string, nat>, k: string, v: nat)
    ensures Total(counts[k := v]) == Total(counts) - (if k in counts then counts[k] else 0) + v
  {
    var updated := counts[k := v];
    var rest := counts.Keys - {k};
    assert updated.Keys - {k} == rest;
    SumOverWithout(updated, updated.Keys, k);
    SumOverAgree(updated, counts, rest);
    if k in counts {
      SumOverWithout(counts, counts.Keys, k);
    } else {
      assert counts.Keys == rest;
    }
  }

  /** The genre tally: one entry per genre that occurs, holding the number of
      books of that genre; the entries add up to the number of books. */
  method CountGenres(books: seq<Book>) returns (counts: map<string, nat>)
    ensures forall g :: g in counts <==> exists b :: b in books && b.genre == g
    ensures forall g :: g in counts ==> counts[g] == Count(books, GenreIs(g))
    ensures Total(counts) == |books|
  {
    counts := map[];
    for i := 0 to |books|
      invariant forall g :: g in counts <==> exists j :: 0 <= j < i && books[j].genre == g
      invariant forall g :: Count(books[..i], GenreIs(g)) == if g in counts then counts[g] else 0
      invariant Total(counts) == i
    {
      var genre := books[i].genre;
      var next := if genre in counts then counts[genre := counts[genre] + 1] else counts[genre := 1];
      TotalUpdate(counts, genre, next[genre]);
      forall g ensures Count(books[..i + 1], GenreIs(g)) == if g in next then next[g] else 0 {
        CountSnoc(books, i, GenreIs(g));
      }
      forall g ensures g in next <==> exists j :: 0 <= j < i + 1 && books[j].genre == g {
        if g == genre {
          assert books[i].genre == g;
        }
      }
      counts := next;
    }
    assert books[..|books|] == books;
    forall g ensures g in counts <==> exists b :: b in books && b.genre == g {
      if exists b :: b in books && b.genre == g {
        var b :| b in books && b.genre == g;
        var j :| 0 <= j < |books| && books[j] == b;
      }
    }
  }
}
