/**
 * Rust's `Vec::dedup`, as `tile_border` applies it to the raw border
 * points: every run of EQUAL ADJACENT elements collapses to one element.
 * Equal elements that are not adjacent are kept.
 */
module Deduplication {

  /** No two neighbouring elements are equal. */
  predicate NoAdjacentDuplicates<T(==)>(s: seq<T>)
  {
    forall i :: 0 <= i < |s| - 1 ==> s[i] != s[i + 1]
  }

  /** `a` is `b` with some elements removed, the rest in their original order. */
  ghost predicate Subsequence<T>(a: seq<T>, b: seq<T>)
    decreases |b|
  {
    a == [] || (b != [] && ((a[0] == b[0] && Subsequence(a[1..], b[1..])) || Subsequence(a, b[1..])))
  }

  function Dedup<T(==)>(s: seq<T>): (r: seq<T>)
    ensures NoAdjacentDuplicates(r)
    ensures |r| <= |s|
    ensures r == [] <==> s == []
    ensures s != [] ==> r[0] == s[0]
  {
    if |s| <= 1 then s
    else if s[0] == s[1] then Dedup(s[1..])
    else [s[0]] + Dedup(s[1..])
  }

  /** `dedup` keeps every value: the same elements occur before and after. */
  lemma {:induction false} DedupSameElements<T>(s: seq<T>, x: T)
    ensures x in Dedup(s) <==> x in s
  {
    if |s| > 1 {
      DedupSameElements(s[1..], x);
      assert x in s <==> x == s[0] || x in s[1..];
    }
  }

  /** `dedup` only removes elements: the survivors keep their relative order. */
  lemma {:induction false} DedupSubsequence<T>(s: seq<T>)
    ensures Subsequence(Dedup(s), s)
  {
    if |s| == 1 {
      assert Subsequence(s[1..], s[1..]);
    } else if |s| > 1 {
      DedupSubsequence(s[1..]);
      if s[0] == s[1] {
        SubsequenceOfTail(Dedup(s[1..]), s);
      } else {
        assert Dedup(s)[1..] == Dedup(s[1..]);
      }
    }
  }

  lemma SubsequenceOfTail<T>(a: seq<T>, b: seq<T>)
    requires b != [] && Subsequence(a, b[1..])
    ensures Subsequence(a, b)
  {
  }

  /**
   * A sequence without adjacent duplicates is left as it is: in particular
   * duplicates that are not adjacent survive, and `dedup` is idempotent.
   */
  lemma {:induction false} DedupKeepsSeparatedDuplicates<T>(s: seq<T>)
    requires NoAdjacentDuplicates(s)
    ensures Dedup(s) == s
  {
    if |s| > 1 {
      DedupKeepsSeparatedDuplicates(s[1..]);
    }
  }

  /** The number of positions `i` with `s[i] == s[i + 1]`: one per element a run has beyond its first. */
  function AdjacentRepeats<T(==)>(s: seq<T>): (n: nat)
    ensures n < |s| || s == []
    ensures n == 0 <==> NoAdjacentDuplicates(s)
  {
    if |s| <= 1 then 0
    else (if s[0] == s[1] then 1 else 0) + AdjacentRepeats(s[1..])
  }

  /**
   * `dedup` removes exactly one element per adjacent repeat and no more:
   * one element is left per maximal run of equal elements, so equal
   * elements in different runs all survive (`[0, 0, 1, 0]` keeps three).
   */
  lemma {:induction false} DedupLength<T>(s: seq<T>)
    ensures |Dedup(s)| == |s| - AdjacentRepeats(s)
  {
    if |s| > 1 {
      DedupLength(s[1..]);
    }
  }

  /** Two distinct values in the input leave at least two elements in the output. */
  lemma DedupTwoValues<T>(s: seq<T>, x: T, y: T)
    requires x in s && y in s && x != y
    ensures |Dedup(s)| >= 2
  {
    DedupSameElements(s, x);
    DedupSameElements(s, y);
  }
}
