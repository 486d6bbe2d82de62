/** Order-preserving selection from a sequence. */
module Seqs {

  /** `r` is obtained from `s` by deleting some elements and keeping the rest
      in their original order. */
  predicate IsSubsequence<T(==)>(r: seq<T>, s: seq<T>)
    decreases |s|
  {
    if |r| == 0 then
      true
    else if |s| == 0 then
      false
    else
      (r[|r| - 1] == s[|s| - 1] && IsSubsequence(r[..|r| - 1], s[..|s| - 1]))
      || IsSubsequence(r, s[..|s| - 1])
  }

  /** Appending the same element to both keeps a subsequence. */
  lemma SubsequenceSnoc<T>(r: seq<T>, s: seq<T>, x: T)
    requires IsSubsequence(r, s)
    ensures IsSubsequence(r + [x], s + [x])
  {
    assert (r + [x])[..|r|] == r;
    assert (s + [x])[..|s|] == s;
  }

  /** Appending to the sequence alone keeps a subsequence. */
  lemma SubsequenceExtend<T>(r: seq<T>, s: seq<T>, x: T)
    requires IsSubsequence(r, s)
    ensures IsSubsequence(r, s + [x])
  {
    assert (s + [x])[..|s|] == s;
  }

  /** A subsequence takes no element more often than the sequence holds it. */
  lemma {:induction false} SubsequenceMultiset<T>(r: seq<T>, s: seq<T>)
    requires IsSubsequence(r, s)
    ensures multiset(r) <= multiset(s)
    ensures |r| <= |s|
    decreases |s|
  {
    if |r| > 0 {
      var init := s[..|s| - 1];
      assert s == init + [s[|s| - 1]];
      if r[|r| - 1] == s[|s| - 1] && IsSubsequence(r[..|r| - 1], init) {
        SubsequenceMultiset(r[..|r| - 1], init);
        assert r == r[..|r| - 1] + [r[|r| - 1]];
      } else {
        SubsequenceMultiset(r, init);
      }
    }
  }

  /** If a subsequence of `s + [x]` holds `x` more often than `s` does, it
      ends with that `x`. */
  lemma SubsequenceKeepsLast<T>(r: seq<T>, s: seq<T>, x: T)
    requires IsSubsequence(r, s + [x])
    requires multiset(r)[x] > multiset(s)[x]
    ensures |r| > 0 && r[|r| - 1] == x && IsSubsequence(r[..|r| - 1], s)
  {
    assert (s + [x])[..|s|] == s;
    if |r| == 0 || r[|r| - 1] != x || !IsSubsequence(r[..|r| - 1], s) {
      if |r| > 0 {
        SubsequenceMultiset(r, s);
      }
      assert false;
    }
  }

  /** A subsequence of `s + [x]` that does not hold `x` is a subsequence of `s`. */
  lemma SubsequenceDropsLast<T>(r: seq<T>, s: seq<T>, x: T)
    requires IsSubsequence(r, s + [x])
    requires x !in multiset(r)
    ensures IsSubsequence(r, s)
  {
    assert (s + [x])[..|s|] == s;
    if |r| > 0 {
      assert r[|r| - 1] in multiset(r);
    }
  }
}
