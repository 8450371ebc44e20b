/** What the key search relies on when it updates matrices instead of
    recomputing them: exchanging two letters throughout a text exchanges the
    corresponding rows and columns of its bigram profile, which is exactly
    what `swap_in_bigram_matrix` does (decrypt.c:139-157). The trigram
    profile is relabelled the same way on all three axes, which
    `swap_in_trigram_matrix` (decrypt.c:159-179) does not do. */
module Relabel {
  import opened Text
  import opened Matrices
  import opened OccList
  import opened Counting
  import opened Profile

  /** The transposition of the letters `p` and `q`. */
  function SwapLetter(c: char, p: char, q: char): char {
    if c == p then q else if c == q then p else c
  }

  /** A character of a text whose letters `p` and `q` are exchanged (the
      text is read case-folded, as the profiler reads it). */
  function RelabelChar(c: char, p: char, q: char): char {
    if IsAlpha(c) then SwapLetter(Lower(c), p, q) else c
  }

  function RelabelText(s: seq<char>, p: char, q: char): (r: seq<char>)
    ensures |r| == |s|
    ensures forall i :: 0 <= i < |s| ==> r[i] == RelabelChar(s[i], p, q)
  {
    seq(|s|, i requires 0 <= i < |s| => RelabelChar(s[i], p, q))
  }

  function SwapPairs(xs: seq<(char, char)>, p: char, q: char): (r: seq<(char, char)>)
    ensures |r| == |xs|
  {
    if xs == [] then [] else [(SwapLetter(xs[0].0, p, q), SwapLetter(xs[0].1, p, q))] + SwapPairs(xs[1..], p, q)
  }

  function SwapTriples(xs: seq<(char, char, char)>, p: char, q: char): (r: seq<(char, char, char)>)
    ensures |r| == |xs|
  {
    if xs == [] then []
    else [(SwapLetter(xs[0].0, p, q), SwapLetter(xs[0].1, p, q), SwapLetter(xs[0].2, p, q))] + SwapTriples(xs[1..], p, q)
  }

  lemma RelabelCharLetter(c: char, p: char, q: char)
    requires IsLower(p) && IsLower(q)
    ensures IsAlpha(RelabelChar(c, p, q)) <==> IsAlpha(c)
    ensures IsAlpha(c) ==> Lower(RelabelChar(c, p, q)) == SwapLetter(Lower(c), p, q)
  {
  }

  /** The windows of the relabelled text are the relabelled windows. */
  lemma {:induction false} PairsRelabel(s: seq<char>, p: char, q: char)
    requires IsLower(p) && IsLower(q)
    ensures Pairs(RelabelText(s, p, q)) == SwapPairs(Pairs(s), p, q)
    decreases |s|
  {
    if |s| >= 2 {
      var r := RelabelText(s, p, q);
      RelabelCharLetter(s[0], p, q);
      RelabelCharLetter(s[1], p, q);
      assert r[1..] == RelabelText(s[1..], p, q);
      PairsRelabel(s[1..], p, q);
      var rest := Pairs(s[1..]);
      assert Pairs(r) == (if IsAlpha(s[0]) && IsAlpha(s[1]) then [(SwapLetter(Lower(s[0]), p, q), SwapLetter(Lower(s[1]), p, q))] else [])
                         + SwapPairs(rest, p, q);
      if IsAlpha(s[0]) && IsAlpha(s[1]) {
        var h := (Lower(s[0]), Lower(s[1]));
        assert Pairs(s) == [h] + rest;
        assert ([h] + rest)[1..] == rest;
      } else {
        assert Pairs(s) == rest;
      }
    }
  }

  lemma {:induction false} TriplesRelabel(s: seq<char>, p: char, q: char)
    requires IsLower(p) && IsLower(q)
    ensures Triples(RelabelText(s, p, q)) == SwapTriples(Triples(s), p, q)
    decreases |s|
  {
    if |s| >= 3 {
      var r := RelabelText(s, p, q);
      RelabelCharLetter(s[0], p, q);
      RelabelCharLetter(s[1], p, q);
      RelabelCharLetter(s[2], p, q);
      assert r[1..] == RelabelText(s[1..], p, q);
      TriplesRelabel(s[1..], p, q);
      var rest := Triples(s[1..]);
      assert Triples(r) == (if IsAlpha(s[0]) && IsAlpha(s[1]) && IsAlpha(s[2])
                            then [(SwapLetter(Lower(s[0]), p, q), SwapLetter(Lower(s[1]), p, q), SwapLetter(Lower(s[2]), p, q))] else [])
                           + SwapTriples(rest, p, q);
      if IsAlpha(s[0]) && IsAlpha(s[1]) && IsAlpha(s[2]) {
        var h := (Lower(s[0]), Lower(s[1]), Lower(s[2]));
        assert Triples(s) == [h] + rest;
        assert ([h] + rest)[1..] == rest;
      } else {
        assert Triples(s) == rest;
      }
    }
  }

  lemma {:induction false} CountInSwapPairs(xs: seq<(char, char)>, p: char, q: char, u: char, v: char)
    ensures CountIn(SwapPairs(xs, p, q), (u, v)) == CountIn(xs, (SwapLetter(u, p, q), SwapLetter(v, p, q)))
    decreases |xs|
  {
    if xs != [] {
      CountInSwapPairs(xs[1..], p, q, u, v);
    }
  }

  lemma {:induction false} CountInSwapTriples(xs: seq<(char, char, char)>, p: char, q: char, u: char, v: char, w: char)
    ensures CountIn(SwapTriples(xs, p, q), (u, v, w))
            == CountIn(xs, (SwapLetter(u, p, q), SwapLetter(v, p, q), SwapLetter(w, p, q)))
    decreases |xs|
  {
    if xs != [] {
      CountInSwapTriples(xs[1..], p, q, u, v, w);
    }
  }

  /** On letters, `SwapLetter` is `Transpose` on alphabet positions. */
  lemma SwapLetterIsTranspose(a: int, b: int, x: int)
    requires InAlphabet(a) && InAlphabet(b) && InAlphabet(x)
    ensures SwapLetter(Letter(x), Letter(a), Letter(b)) == Letter(Transpose(a, b, x))
  {
  }

  lemma NormalizeRelabel2(cnt: seq<nat>, n: nat, a: int, b: int)
    requires |cnt| == Cells2 && InAlphabet(a) && InAlphabet(b)
    ensures Normalize(Relabel2(cnt, a, b), n) == Relabel2(Normalize(cnt, n), a, b)
  {
  }

  lemma NormalizeRelabel3(cnt: seq<nat>, n: nat, a: int, b: int)
    requires |cnt| == Cells3 && InAlphabet(a) && InAlphabet(b)
    ensures Normalize(Relabel3(cnt, a, b), n) == Relabel3(Normalize(cnt, n), a, b)
  {
    forall k | 0 <= k < Cells3
      ensures Normalize(Relabel3(cnt, a, b), n)[k] == Relabel3(Normalize(cnt, n), a, b)[k]
    {
    }
  }

  /** Exchanging letters `a` and `b` of a text relabels its bigram counts. */
  lemma BigramCountsRelabel(s: seq<char>, a: int, b: int)
    requires InAlphabet(a) && InAlphabet(b)
    ensures BigramCounts(RelabelText(s, Letter(a), Letter(b))) == Relabel2(BigramCounts(s), a, b)
    ensures |Pairs(RelabelText(s, Letter(a), Letter(b)))| == |Pairs(s)|
  {
    var p, q := Letter(a), Letter(b);
    PairsRelabel(s, p, q);
    forall k | 0 <= k < Cells2
      ensures BigramCounts(RelabelText(s, p, q))[k] == Relabel2(BigramCounts(s), a, b)[k]
    {
      Idx2Cell(k);
      var x, y := k / 26, k % 26;
      CountInSwapPairs(Pairs(s), p, q, Letter(x), Letter(y));
      SwapLetterIsTranspose(a, b, x);
      SwapLetterIsTranspose(a, b, y);
      PairOfIdx(Transpose(a, b, x), Transpose(a, b, y));
    }
  }

  lemma TrigramCountsRelabel(s: seq<char>, a: int, b: int)
    requires InAlphabet(a) && InAlphabet(b)
    ensures TrigramCounts(RelabelText(s, Letter(a), Letter(b))) == Relabel3(TrigramCounts(s), a, b)
    ensures |Triples(RelabelText(s, Letter(a), Letter(b)))| == |Triples(s)|
  {
    var p, q := Letter(a), Letter(b);
    TriplesRelabel(s, p, q);
    forall k | 0 <= k < Cells3
      ensures TrigramCounts(RelabelText(s, p, q))[k] == Relabel3(TrigramCounts(s), a, b)[k]
    {
      Idx3Cell(k);
      var x, y, z := k / 676, k % 676 / 26, k % 26;
      CountInSwapTriples(Triples(s), p, q, Letter(x), Letter(y), Letter(z));
      SwapLetterIsTranspose(a, b, x);
      SwapLetterIsTranspose(a, b, y);
      SwapLetterIsTranspose(a, b, z);
      TripleOfIdx(Transpose(a, b, x), Transpose(a, b, y), Transpose(a, b, z));
    }
  }

  /** `swap_in_bigram_matrix(m, a, b)` turns the bigram profile of a text
      into the profile of the text with letters `a` and `b` exchanged: the
      update equals recomputing. */
  lemma SwapBigramTracksText(s: seq<char>, a: int, b: int)
    requires InAlphabet(a) && InAlphabet(b)
    ensures SwapBigram(BigramMatrix(s), a, b) == BigramMatrix(RelabelText(s, Letter(a), Letter(b)))
  {
    BigramCountsRelabel(s, a, b);
    NormalizeRelabel2(BigramCounts(s), |Pairs(s)|, a, b);
    SwapBigramRelabels(BigramMatrix(s), a, b);
  }

  /** Relabelling the trigram profile on all three axes, the update the
      trigram matrix needs, equals recomputing it. */
  lemma RelabelTrigramTracksText(s: seq<char>, a: int, b: int)
    requires InAlphabet(a) && InAlphabet(b)
    ensures Relabel3(TrigramMatrix(s), a, b) == TrigramMatrix(RelabelText(s, Letter(a), Letter(b)))
  {
    TrigramCountsRelabel(s, a, b);
    NormalizeRelabel3(TrigramCounts(s), |Triples(s)|, a, b);
  }

  /** `swap_in_trigram_matrix` as written does not track the text: when the
      trigrams `a x x` and `b x x` have different frequencies, the updated
      matrix differs from the profile of the relabelled text. */
  lemma SwapTrigramMissesText(s: seq<char>, a: int, b: int, x: int)
    requires InAlphabet(a) && InAlphabet(b) && InAlphabet(x)
    requires a != b && x != a && x != b
    requires TrigramMatrix(s)[Idx3(a, x, x)] != TrigramMatrix(s)[Idx3(b, x, x)]
    ensures SwapTrigram(TrigramMatrix(s), a, b) != TrigramMatrix(RelabelText(s, Letter(a), Letter(b)))
  {
    SwapTrigramIsNotRelabelling(TrigramMatrix(s), a, b, x);
    RelabelTrigramTracksText(s, a, b);
  }

  /** A concrete instance: the text "acc" has the trigram `acc` and not
      `bcc`; exchanging `a` and `b` gives "bcc", whose profile the C update
      of the profile of "acc" does not produce. */
  lemma SwapTrigramMissesAcc()
    ensures RelabelText("acc", 'a', 'b') == "bcc"
    ensures SwapTrigram(TrigramMatrix("acc"), 0, 1) != TrigramMatrix("bcc")
  {
    var s := "acc";
    assert RelabelText(s, 'a', 'b') == "bcc";
    assert Triples(s) == [('a', 'c', 'c')];
    TripleOfIdx(0, 2, 2);
    TripleOfIdx(1, 2, 2);
    assert TrigramCounts(s)[Idx3(0, 2, 2)] == 1;
    assert TrigramCounts(s)[Idx3(1, 2, 2)] == 0;
    SwapTrigramMissesText(s, 0, 1, 2);
  }
}
