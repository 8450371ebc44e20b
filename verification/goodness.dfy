/** The three scores of decrypt.c: `bigram_goodness` and `trigram_goodness`
    (the L1 distance between two frequency matrices, lower is better) and
    `word_goodness` (how many words of the candidate plaintext are frequent
    words of the sample text, higher is better). */
module Goodness {
  import opened Matrices
  import opened OccList

  function Abs(x: real): real {
    if x < 0.0 then -x else x
  }

  /** `bigram_goodness` / `trigram_goodness` (decrypt.c:200-222): the sum,
      over the cells in row-major order, of the absolute differences. */
  function Distance(m1: seq<real>, m2: seq<real>): (r: real)
    requires |m1| == |m2|
    ensures r >= 0.0
    decreases |m1|
  {
    if m1 == [] then 0.0 else Abs(m1[0] - m2[0]) + Distance(m1[1..], m2[1..])
  }

  lemma {:induction false} DistanceSymmetric(m1: seq<real>, m2: seq<real>)
    requires |m1| == |m2|
    ensures Distance(m1, m2) == Distance(m2, m1)
    decreases |m1|
  {
    if m1 != [] {
      DistanceSymmetric(m1[1..], m2[1..]);
    }
  }

  /** The distance is zero exactly when the matrices are equal. */
  lemma {:induction false} DistanceZero(m1: seq<real>, m2: seq<real>)
    requires |m1| == |m2|
    ensures Distance(m1, m2) == 0.0 <==> m1 == m2
    decreases |m1|
  {
    if m1 != [] {
      DistanceZero(m1[1..], m2[1..]);
      assert m1 == [m1[0]] + m1[1..] && m2 == [m2[0]] + m2[1..];
    }
  }

  lemma {:induction false} DistanceTriangle(m1: seq<real>, m2: seq<real>, m3: seq<real>)
    requires |m1| == |m2| == |m3|
    ensures Distance(m1, m3) <= Distance(m1, m2) + Distance(m2, m3)
    decreases |m1|
  {
    if m1 != [] {
      DistanceTriangle(m1[1..], m2[1..], m3[1..]);
    }
  }

  /** The distance between two matrices is the sum of their cell-wise
      distances, so it does not depend on the order of the cells. */
  function Gaps(m1: seq<real>, m2: seq<real>): (g: seq<real>)
    requires |m1| == |m2|
    ensures |g| == |m1| && forall i :: 0 <= i < |m1| ==> g[i] == Abs(m1[i] - m2[i])
  {
    seq(|m1|, i requires 0 <= i < |m1| => Abs(m1[i] - m2[i]))
  }

  lemma {:induction false} DistanceIsSum(m1: seq<real>, m2: seq<real>)
    requires |m1| == |m2|
    ensures Distance(m1, m2) == RealSum(Gaps(m1, m2))
    decreases |m1|
  {
    if m1 != [] {
      DistanceIsSum(m1[1..], m2[1..]);
      assert Gaps(m1, m2)[1..] == Gaps(m1[1..], m2[1..]);
    }
  }

  /** Applying the same exchanges of cells to both matrices keeps their
      distance. */
  lemma DistanceApplySwaps(m1: seq<real>, m2: seq<real>, ps: seq<(int, int)>)
    requires |m1| == |m2| && PairsIn(|m1|, ps)
    ensures Distance(ApplySwaps(m1, ps), ApplySwaps(m2, ps)) == Distance(m1, m2)
  {
    GapsApplySwaps(m1, m2, ps);
    DistanceIsSum(m1, m2);
    DistanceIsSum(ApplySwaps(m1, ps), ApplySwaps(m2, ps));
    ApplySwapsSum(Gaps(m1, m2), ps);
  }

  lemma {:induction false} GapsApplySwaps(m1: seq<real>, m2: seq<real>, ps: seq<(int, int)>)
    requires |m1| == |m2| && PairsIn(|m1|, ps)
    ensures Gaps(ApplySwaps(m1, ps), ApplySwaps(m2, ps)) == ApplySwaps(Gaps(m1, m2), ps)
    decreases |ps|
  {
    if ps != [] {
      var p, q := ps[0].0, ps[0].1;
      assert Gaps(SwapCells(m1, p, q), SwapCells(m2, p, q)) == SwapCells(Gaps(m1, m2), p, q);
      GapsApplySwaps(SwapCells(m1, p, q), SwapCells(m2, p, q), ps[1..]);
    }
  }

  /** Exchanging two letters in both bigram matrices keeps their distance. */
  lemma DistanceSwapBigram(m1: seq<real>, m2: seq<real>, a: int, b: int)
    requires |m1| == Cells2 && |m2| == Cells2 && InAlphabet(a) && InAlphabet(b)
    ensures Distance(SwapBigram(m1, a, b), SwapBigram(m2, a, b)) == Distance(m1, m2)
  {
    DistanceApplySwaps(m1, m2, BigramSwaps(a, b));
  }

  // ---------------------------------------------------------------------
  // word_goodness

  /** Length of the leading run of entries seen more than once: the part of
      the sample list the inner scan of `word_goodness` looks at. */
  function FrequentPrefix<T>(l: seq<Entry<T>>): (n: nat)
    ensures n <= |l|
    ensures forall k :: 0 <= k < n ==> l[k].occ > 1
    ensures n < |l| ==> l[n].occ <= 1
  {
    if l == [] || l[0].occ <= 1 then 0 else 1 + FrequentPrefix(l[1..])
  }

  /** The inner scan of `word_goodness` (decrypt.c:232-239): walk the sample
      list while entries occur more than once, stopping at the first equal
      word. */
  function Matches(w: seq<char>, l2: seq<Entry<seq<char>>>): bool {
    if l2 == [] || l2[0].occ <= 1 then false
    else if l2[0].item == w then true
    else Matches(w, l2[1..])
  }

  /** `word_goodness` (decrypt.c:224-244): one point for every entry of the
      candidate list whose word the scan finds. */
  function WordGoodness(l1: seq<Entry<seq<char>>>, l2: seq<Entry<seq<char>>>): (t: nat)
    ensures t <= |l1|
  {
    if l1 == [] then 0 else (if Matches(l1[0].item, l2) then 1 else 0) + WordGoodness(l1[1..], l2)
  }

  /** The scan finds `w` exactly when `w` is listed in the leading run of
      entries seen more than once; entries after the first count of 1 are
      never looked at. */
  lemma {:induction false} MatchesPrefix(w: seq<char>, l2: seq<Entry<seq<char>>>)
    ensures Matches(w, l2) <==> exists k :: 0 <= k < FrequentPrefix(l2) && l2[k].item == w
  {
    if l2 != [] && l2[0].occ > 1 && l2[0].item != w {
      MatchesPrefix(w, l2[1..]);
      if Matches(w, l2) {
        var k :| 0 <= k < FrequentPrefix(l2[1..]) && l2[1..][k].item == w;
        assert l2[k + 1].item == w;
      } else {
        forall k | 0 <= k < FrequentPrefix(l2)
          ensures l2[k].item != w
        {
          if k > 0 {
            assert l2[k] == l2[1..][k - 1];
          }
        }
      }
    }
  }

  /** On a sorted list of distinct words (what `count_words` builds), the
      scan finds a word exactly when the sample contains it more than once. */
  lemma {:induction false} MatchesSorted(w: seq<char>, l2: seq<Entry<seq<char>>>)
    requires Distinct(l2) && SortedDesc(l2)
    ensures Matches(w, l2) <==> OccOf(l2, w) > 1
    decreases |l2|
  {
    if l2 != [] {
      if l2[0].occ <= 1 {
        OccOfAtMostOne(w, l2);
      } else if l2[0].item == w {
        OccOfDistinct(l2, 0);
      } else {
        MatchesSorted(w, l2[1..]);
      }
    }
  }

  lemma OccOfAtMostOne(w: seq<char>, l2: seq<Entry<seq<char>>>)
    requires Distinct(l2) && SortedDesc(l2)
    requires l2 != [] && l2[0].occ <= 1
    ensures OccOf(l2, w) <= 1
  {
    if k :| 0 <= k < |l2| && l2[k].item == w {
      OccOfDistinct(l2, k);
    } else {
      OccOfAbsent(l2, w);
    }
  }

  /** Number of entries of `l1` whose word the sample holds more than once. */
  function KnownWords(l1: seq<Entry<seq<char>>>, l2: seq<Entry<seq<char>>>): nat {
    if l1 == [] then 0 else (if OccOf(l2, l1[0].item) > 1 then 1 else 0) + KnownWords(l1[1..], l2)
  }

  /** With a sample list built by `count_words`, `word_goodness` counts the
      candidate's entries whose word occurs more than once in the sample. */
  lemma {:induction false} WordGoodnessCountsKnown(l1: seq<Entry<seq<char>>>, l2: seq<Entry<seq<char>>>)
    requires Distinct(l2) && SortedDesc(l2)
    ensures WordGoodness(l1, l2) == KnownWords(l1, l2)
    decreases |l1|
  {
    if l1 != [] {
      MatchesSorted(l1[0].item, l2);
      WordGoodnessCountsKnown(l1[1..], l2);
    }
  }
}
