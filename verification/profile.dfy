/** The n-gram profiler of decrypt.c: `populate_bigram_matrix` and
    `populate_trigram_matrix` (decrypt.c:61-137). A window of two or three
    adjacent characters is counted, case-folded, when all of its characters
    are letters; the counts are then divided by the number of counted
    windows. The counted windows are exactly those `count_bigrams` and
    `count_trigrams` record with `alpha_only` set and case folding on. */
module Profile {
  import opened Text
  import opened Matrices
  import opened OccList
  import opened Counting

  /** The windows the profiler counts, in reading order. */
  function Pairs(s: seq<char>): seq<(char, char)> {
    BigramItems(s, false, true)
  }

  function Triples(s: seq<char>): seq<(char, char, char)> {
    TrigramItems(s, false, true)
  }

  /** The letters of bigram cell `c`. */
  function PairOf(c: int): (char, char)
    requires 0 <= c < Cells2
  {
    (Letter(c / 26), Letter(c % 26))
  }

  /** The letters of trigram cell `c`. */
  function TripleOf(c: int): (char, char, char)
    requires 0 <= c < Cells3
  {
    (Letter(c / 676), Letter(c % 676 / 26), Letter(c % 26))
  }

  /** Cell `[x][y]` holds the number of counted windows reading `x y`. */
  function BigramCounts(s: seq<char>): (m: seq<nat>)
    ensures |m| == Cells2
  {
    seq(Cells2, c requires 0 <= c < Cells2 => CountIn(Pairs(s), PairOf(c)))
  }

  function TrigramCounts(s: seq<char>): (m: seq<nat>)
    ensures |m| == Cells3
  {
    seq(Cells3, c requires 0 <= c < Cells3 => CountIn(Triples(s), TripleOf(c)))
  }

  function NatSum(m: seq<nat>): nat {
    if m == [] then 0 else m[0] + NatSum(m[1..])
  }

  /** Divide every count by `n`. With no counted window C divides 0 by 0;
      the model keeps the zeros. */
  function Normalize(cnt: seq<nat>, n: nat): (m: seq<real>)
    ensures |m| == |cnt|
    ensures forall i :: 0 <= i < |cnt| ==> m[i] == if n == 0 then 0.0 else cnt[i] as real / n as real
  {
    seq(|cnt|, i requires 0 <= i < |cnt| => if n == 0 then 0.0 else cnt[i] as real / n as real)
  }

  /** The normalised profiles the key search compares. */
  function BigramMatrix(s: seq<char>): (m: seq<real>)
    ensures |m| == Cells2
  {
    Normalize(BigramCounts(s), |Pairs(s)|)
  }

  function TrigramMatrix(s: seq<char>): (m: seq<real>)
    ensures |m| == Cells3
  {
    Normalize(TrigramCounts(s), |Triples(s)|)
  }

  // ---------------------------------------------------------------------
  // Sums

  lemma {:induction false} NatSumUpdate(m: seq<nat>, i: int, v: nat)
    requires 0 <= i < |m|
    ensures NatSum(m[i := v]) == NatSum(m) - m[i] + v
  {
    if i > 0 {
      assert m[i := v][1..] == m[1..][i - 1 := v];
      NatSumUpdate(m[1..], i - 1, v);
    }
  }

  lemma {:induction false} NatSumZero(k: nat)
    ensures NatSum(seq(k, _ => 0)) == 0
  {
    if k > 0 {
      assert seq(k, _ => 0)[1..] == seq(k - 1, _ => 0);
      NatSumZero(k - 1);
    }
  }

  /** The normalised counts sum to the counts' sum divided by `n`. */
  lemma {:induction false} NormalizeSum(cnt: seq<nat>, n: nat)
    requires n > 0
    ensures RealSum(Normalize(cnt, n)) * (n as real) == NatSum(cnt) as real
  {
    if cnt != [] {
      NormalizeSum(cnt[1..], n);
      assert Normalize(cnt, n)[1..] == Normalize(cnt[1..], n);
      assert Normalize(cnt, n)[0] * (n as real) == cnt[0] as real;
    }
  }

  // ---------------------------------------------------------------------
  // Reading one more character

  lemma {:induction false} PairsSnoc(t: seq<char>, c: char)
    ensures Pairs(t + [c]) == Pairs(t)
      + (if |t| >= 1 && IsAlpha(t[|t| - 1]) && IsAlpha(c) then [(Lower(t[|t| - 1]), Lower(c))] else [])
    decreases |t|
  {
    if |t| >= 1 {
      assert (t + [c])[1..] == t[1..] + [c];
      PairsSnoc(t[1..], c);
    }
  }

  lemma {:induction false} TriplesSnoc(t: seq<char>, c: char)
    ensures Triples(t + [c]) == Triples(t)
      + (if |t| >= 2 && IsAlpha(t[|t| - 2]) && IsAlpha(t[|t| - 1]) && IsAlpha(c)
         then [(Lower(t[|t| - 2]), Lower(t[|t| - 1]), Lower(c))] else [])
    decreases |t|
  {
    if |t| >= 1 {
      assert (t + [c])[1..] == t[1..] + [c];
      TriplesSnoc(t[1..], c);
    }
  }

  /** Cell `c` is the cell of the letters `x y` exactly when `c == [x][y]`. */
  lemma PairOfIdx(x: int, y: int)
    requires InAlphabet(x) && InAlphabet(y)
    ensures 0 <= Idx2(x, y) < Cells2 && PairOf(Idx2(x, y)) == (Letter(x), Letter(y))
    ensures forall c :: 0 <= c < Cells2 && c != Idx2(x, y) ==> PairOf(c) != (Letter(x), Letter(y))
  {
    forall c | 0 <= c < Cells2 && c != Idx2(x, y)
      ensures PairOf(c) != (Letter(x), Letter(y))
    {
      Idx2Cell(c);
    }
  }

  lemma TripleOfIdx(x: int, y: int, z: int)
    requires InAlphabet(x) && InAlphabet(y) && InAlphabet(z)
    ensures 0 <= Idx3(x, y, z) < Cells3 && TripleOf(Idx3(x, y, z)) == (Letter(x), Letter(y), Letter(z))
    ensures forall c :: 0 <= c < Cells3 && c != Idx3(x, y, z) ==> TripleOf(c) != (Letter(x), Letter(y), Letter(z))
  {
    forall c | 0 <= c < Cells3 && c != Idx3(x, y, z)
      ensures TripleOf(c) != (Letter(x), Letter(y), Letter(z))
    {
      Idx3Cell(c);
    }
  }

  /** Cell of the window `c0 c1`. */
  function Cell2(c0: char, c1: char): (k: int)
    requires IsAlpha(c0) && IsAlpha(c1)
    ensures 0 <= k < Cells2
  {
    Idx2(Code(Lower(c0)), Code(Lower(c1)))
  }

  function Cell3(c0: char, c1: char, c2: char): (k: int)
    requires IsAlpha(c0) && IsAlpha(c1) && IsAlpha(c2)
    ensures 0 <= k < Cells3
  {
    Idx3(Code(Lower(c0)), Code(Lower(c1)), Code(Lower(c2)))
  }

  /** Reading one more character adds one to the cell of the window it
      completes, if that window consists of letters, and changes nothing
      else. */
  lemma BigramCountsSnoc(t: seq<char>, c: char)
    ensures |t| >= 1 && IsAlpha(t[|t| - 1]) && IsAlpha(c) ==>
      BigramCounts(t + [c]) == BigramCounts(t)[Cell2(t[|t| - 1], c) := BigramCounts(t)[Cell2(t[|t| - 1], c)] + 1]
      && |Pairs(t + [c])| == |Pairs(t)| + 1
    ensures !(|t| >= 1 && IsAlpha(t[|t| - 1]) && IsAlpha(c)) ==>
      BigramCounts(t + [c]) == BigramCounts(t) && |Pairs(t + [c])| == |Pairs(t)|
  {
    PairsSnoc(t, c);
    if |t| >= 1 && IsAlpha(t[|t| - 1]) && IsAlpha(c) {
      var d := t[|t| - 1];
      LetterCode(Lower(d));
      LetterCode(Lower(c));
      PairOfIdx(Code(Lower(d)), Code(Lower(c)));
      var w := (Lower(d), Lower(c));
      var u := BigramCounts(t)[Cell2(d, c) := BigramCounts(t)[Cell2(d, c)] + 1];
      forall k | 0 <= k < Cells2
        ensures BigramCounts(t + [c])[k] == u[k]
      {
        CountInAppend(Pairs(t), [w], PairOf(k));
      }
      assert BigramCounts(t + [c]) == u;
    } else {
      assert Pairs(t + [c]) == Pairs(t);
      forall k | 0 <= k < Cells2
        ensures BigramCounts(t + [c])[k] == BigramCounts(t)[k]
      {
      }
    }
  }

  lemma TrigramCountsSnoc(t: seq<char>, c: char)
    ensures |t| >= 2 && IsAlpha(t[|t| - 2]) && IsAlpha(t[|t| - 1]) && IsAlpha(c) ==>
      TrigramCounts(t + [c]) == TrigramCounts(t)[Cell3(t[|t| - 2], t[|t| - 1], c) := TrigramCounts(t)[Cell3(t[|t| - 2], t[|t| - 1], c)] + 1]
      && |Triples(t + [c])| == |Triples(t)| + 1
    ensures !(|t| >= 2 && IsAlpha(t[|t| - 2]) && IsAlpha(t[|t| - 1]) && IsAlpha(c)) ==>
      TrigramCounts(t + [c]) == TrigramCounts(t) && |Triples(t + [c])| == |Triples(t)|
  {
    TriplesSnoc(t, c);
    if |t| >= 2 && IsAlpha(t[|t| - 2]) && IsAlpha(t[|t| - 1]) && IsAlpha(c) {
      var d0, d1 := t[|t| - 2], t[|t| - 1];
      LetterCode(Lower(d0));
      LetterCode(Lower(d1));
      LetterCode(Lower(c));
      TripleOfIdx(Code(Lower(d0)), Code(Lower(d1)), Code(Lower(c)));
      var w := (Lower(d0), Lower(d1), Lower(c));
      var u := TrigramCounts(t)[Cell3(d0, d1, c) := TrigramCounts(t)[Cell3(d0, d1, c)] + 1];
      forall k | 0 <= k < Cells3
        ensures TrigramCounts(t + [c])[k] == u[k]
      {
        CountInAppend(Triples(t), [w], TripleOf(k));
      }
      assert TrigramCounts(t + [c]) == u;
    } else {
      assert Triples(t + [c]) == Triples(t);
      forall k | 0 <= k < Cells3
        ensures TrigramCounts(t + [c])[k] == TrigramCounts(t)[k]
      {
      }
    }
  }

  /** The empty text has only zero counts. */
  lemma CountsOfEmpty()
    ensures BigramCounts([]) == seq(Cells2, _ => 0)
    ensures TrigramCounts([]) == seq(Cells3, _ => 0)
  {
  }

  /** Every counted window lands in exactly one cell, so the cells add up to
      the number of counted windows. */
  lemma {:induction false} BigramCountsSum(s: seq<char>)
    ensures NatSum(BigramCounts(s)) == |Pairs(s)|
    decreases |s|
  {
    if s == [] {
      CountsOfEmpty();
      NatSumZero(Cells2);
    } else {
      var t, c := s[..|s| - 1], s[|s| - 1];
      assert s == t + [c];
      BigramCountsSum(t);
      BigramCountsSnoc(t, c);
      if |t| >= 1 && IsAlpha(t[|t| - 1]) && IsAlpha(c) {
        NatSumUpdate(BigramCounts(t), Cell2(t[|t| - 1], c), BigramCounts(t)[Cell2(t[|t| - 1], c)] + 1);
      }
    }
  }

  lemma {:induction false} TrigramCountsSum(s: seq<char>)
    ensures NatSum(TrigramCounts(s)) == |Triples(s)|
    decreases |s|
  {
    if s == [] {
      CountsOfEmpty();
      NatSumZero(Cells3);
    } else {
      var t, c := s[..|s| - 1], s[|s| - 1];
      assert s == t + [c];
      TrigramCountsSum(t);
      TrigramCountsSnoc(t, c);
      if |t| >= 2 && IsAlpha(t[|t| - 2]) && IsAlpha(t[|t| - 1]) && IsAlpha(c) {
        NatSumUpdate(TrigramCounts(t), Cell3(t[|t| - 2], t[|t| - 1], c), TrigramCounts(t)[Cell3(t[|t| - 2], t[|t| - 1], c)] + 1);
      }
    }
  }

  /** A normalised profile is a probability distribution over the cells as
      soon as one window was counted. */
  lemma BigramMatrixSum(s: seq<char>)
    requires |Pairs(s)| > 0
    ensures RealSum(BigramMatrix(s)) == 1.0
  {
    BigramCountsSum(s);
    NormalizeToUnit(BigramCounts(s), |Pairs(s)|);
  }

  lemma TrigramMatrixSum(s: seq<char>)
    requires |Triples(s)| > 0
    ensures RealSum(TrigramMatrix(s)) == 1.0
  {
    TrigramCountsSum(s);
    NormalizeToUnit(TrigramCounts(s), |Triples(s)|);
  }

  lemma UnitFactor(r: real, n: nat, total: nat)
    requires n > 0 && total == n && r * (n as real) == total as real
    ensures r == 1.0
  {
    var d := n as real;
    assert r == (r * d) / d;
  }

  /** Counts divided by their own positive total sum to 1. */
  lemma NormalizeToUnit(cnt: seq<nat>, n: nat)
    requires n > 0 && NatSum(cnt) == n
    ensures RealSum(Normalize(cnt, n)) == 1.0
  {
    NormalizeSum(cnt, n);
    UnitFactor(RealSum(Normalize(cnt, n)), n, NatSum(cnt));
  }

  // ---------------------------------------------------------------------
  // populate_bigram_matrix / populate_trigram_matrix

  /** `populate_bigram_matrix`: count every window of two letters into its
      cell, then divide by the number `n` of such windows. The cells sum to 1
      whenever a window was counted. */
  method PopulateBigram(s: seq<char>) returns (m: seq<real>, n: nat)
    ensures n == |Pairs(s)|
    ensures |m| == Cells2
    ensures forall x, y :: InAlphabet(x) && InAlphabet(y) ==>
      m[Idx2(x, y)] == if n == 0 then 0.0 else CountIn(Pairs(s), (Letter(x), Letter(y))) as real / n as real
    ensures n > 0 ==> RealSum(m) == 1.0
    ensures m == BigramMatrix(s)
  {
    var cnt: seq<nat> := seq(Cells2, _ => 0);
    CountsOfEmpty();
    n := 0;
    var i := 0;
    while i < |s|
      invariant 0 <= i <= |s|
      invariant cnt == BigramCounts(s[..i])
      invariant n == |Pairs(s[..i])|
    {
      assert s[..i + 1] == s[..i] + [s[i]];
      BigramCountsSnoc(s[..i], s[i]);
      if i >= 1 && IsAlpha(s[i - 1]) && IsAlpha(s[i]) {
        var k := Cell2(s[i - 1], s[i]);
        cnt := cnt[k := cnt[k] + 1];
        n := n + 1;
      }
      i := i + 1;
    }
    assert s[..i] == s;
    m := Normalize(cnt, n);
    forall x, y | InAlphabet(x) && InAlphabet(y)
      ensures m[Idx2(x, y)] == if n == 0 then 0.0 else CountIn(Pairs(s), (Letter(x), Letter(y))) as real / n as real
    {
      PairOfIdx(x, y);
    }
    if n > 0 {
      BigramMatrixSum(s);
    }
  }

  /** `populate_trigram_matrix`: the same for windows of three letters. */
  method PopulateTrigram(s: seq<char>) returns (m: seq<real>, n: nat)
    ensures n == |Triples(s)|
    ensures |m| == Cells3
    ensures forall x, y, z :: InAlphabet(x) && InAlphabet(y) && InAlphabet(z) ==>
      m[Idx3(x, y, z)] == if n == 0 then 0.0 else CountIn(Triples(s), (Letter(x), Letter(y), Letter(z))) as real / n as real
    ensures n > 0 ==> RealSum(m) == 1.0
    ensures m == TrigramMatrix(s)
  {
    var cnt: seq<nat> := seq(Cells3, _ => 0);
    CountsOfEmpty();
    n := 0;
    var i := 0;
    while i < |s|
      invariant 0 <= i <= |s|
      invariant cnt == TrigramCounts(s[..i])
      invariant n == |Triples(s[..i])|
    {
      assert s[..i + 1] == s[..i] + [s[i]];
      TrigramCountsSnoc(s[..i], s[i]);
      if i >= 2 && IsAlpha(s[i - 2]) && IsAlpha(s[i - 1]) && IsAlpha(s[i]) {
        var k := Cell3(s[i - 2], s[i - 1], s[i]);
        cnt := cnt[k := cnt[k] + 1];
        n := n + 1;
      }
      i := i + 1;
    }
    assert s[..i] == s;
    m := Normalize(cnt, n);
    forall x, y, z | InAlphabet(x) && InAlphabet(y) && InAlphabet(z)
      ensures m[Idx3(x, y, z)] == if n == 0 then 0.0 else CountIn(Triples(s), (Letter(x), Letter(y), Letter(z))) as real / n as real
    {
      TripleOfIdx(x, y, z);
    }
    if n > 0 {
      TrigramMatrixSum(s);
    }
  }
}
