/** The frequency ranker `guess_key` (decrypt.c:19-50): the 26 letters
    ordered by descending number of case-folded occurrences in a text. */
module Ranking {
  import opened Text
  import opened Keys

  /** Number of characters of `s` that are letters folding to `c`. */
  function LetterCount(s: seq<char>, c: char): nat {
    if s == [] then 0
    else LetterCount(s[..|s| - 1], c) + (if IsAlpha(s[|s| - 1]) && Lower(s[|s| - 1]) == c then 1 else 0)
  }

  /** The order `guess_key` ranks letters in: more occurrences first, and on
      equal counts the letter later in the alphabet first (the scan keeps the
      last maximum it meets because it compares with `>=`). */
  predicate RanksBefore(s: seq<char>, x: char, y: char) {
    LetterCount(s, x) > LetterCount(s, y)
    || (LetterCount(s, x) == LetterCount(s, y) && x > y)
  }

  /** `k` lists the alphabet in `RanksBefore` order. */
  predicate RankedBy(s: seq<char>, k: seq<char>) {
    forall i, j :: 0 <= i < j < |k| ==> RanksBefore(s, k[i], k[j])
  }

  /** Number of positions below `n` marked as already chosen (-1). */
  function UsedCount(occ: seq<int>, n: int): nat
    requires 0 <= n <= |occ|
  {
    if n == 0 then 0 else UsedCount(occ, n - 1) + (if occ[n - 1] == -1 then 1 else 0)
  }

  lemma {:induction false} UsedCountMark(occ: seq<int>, n: int, x: int)
    requires 0 <= x < |occ| && occ[x] != -1
    requires 0 <= n <= |occ|
    ensures UsedCount(occ[x := -1], n) == UsedCount(occ, n) + (if x < n then 1 else 0)
  {
    if n > 0 {
      UsedCountMark(occ, n - 1, x);
    }
  }

  lemma {:induction false} UsedCountBelow(occ: seq<int>, n: int)
    requires 0 <= n <= |occ|
    requires UsedCount(occ, n) < n
    ensures exists x :: 0 <= x < n && occ[x] != -1
  {
    if occ[n - 1] == -1 {
      UsedCountBelow(occ, n - 1);
      var x :| 0 <= x < n - 1 && occ[x] != -1;
      assert 0 <= x < n && occ[x] != -1;
    }
  }

  lemma {:induction false} UsedCountAll(occ: seq<int>, n: int)
    requires 0 <= n <= |occ|
    requires UsedCount(occ, n) == n
    ensures forall x :: 0 <= x < n ==> occ[x] == -1
  {
    if n > 0 {
      UsedCountLe(occ, n - 1);
      UsedCountAll(occ, n - 1);
    }
  }

  lemma {:induction false} UsedCountNone(occ: seq<int>, n: int)
    requires 0 <= n <= |occ|
    requires forall x :: 0 <= x < |occ| ==> occ[x] >= 0
    ensures UsedCount(occ, n) == 0
  {
    if n > 0 {
      UsedCountNone(occ, n - 1);
    }
  }

  lemma {:induction false} UsedCountLe(occ: seq<int>, n: int)
    requires 0 <= n <= |occ|
    ensures UsedCount(occ, n) <= n
  {
    if n > 0 {
      UsedCountLe(occ, n - 1);
    }
  }

  /** The counting loop of `guess_key` (decrypt.c:27-38): one counter per
      letter, incremented for every letter of the text, case folded. */
  method CountLetters(s: seq<char>) returns (occ: seq<int>)
    ensures |occ| == KeySize
    ensures forall x :: 0 <= x < KeySize ==> occ[x] == LetterCount(s, Letter(x))
  {
    occ := seq(KeySize, _ => 0);
    var p := 0;
    while p < |s|
      invariant 0 <= p <= |s|
      invariant |occ| == KeySize
      invariant forall x :: 0 <= x < KeySize ==> occ[x] == LetterCount(s[..p], Letter(x))
    {
      assert s[..p + 1][..p] == s[..p];
      if IsAlpha(s[p]) {
        var c := Code(Lower(s[p]));
        occ := occ[c := occ[c] + 1];
      }
      p := p + 1;
    }
    assert s[..p] == s;
  }

  /** The inner scan of `guess_key` (decrypt.c:40-47): the position of the
      largest counter, the last one among equal largest counters. Used
      letters hold -1 and so are never picked while a letter is left. */
  method PickMax(occ: seq<int>) returns (tmp: int)
    requires |occ| == KeySize
    requires forall x :: 0 <= x < KeySize ==> occ[x] >= -1
    requires exists x :: 0 <= x < KeySize && occ[x] >= 0
    ensures 0 <= tmp < KeySize && occ[tmp] != -1
    ensures forall y :: 0 <= y < KeySize ==> occ[y] <= occ[tmp] && (occ[y] == occ[tmp] ==> y <= tmp)
  {
    var max := -1;
    tmp := 0;
    var j := 0;
    while j < KeySize
      invariant 0 <= j <= KeySize && 0 <= tmp < KeySize
      invariant j == 0 ==> max == -1
      invariant j > 0 ==> tmp < j && max == occ[tmp]
      invariant forall y :: 0 <= y < j ==> occ[y] <= max && (occ[y] == max ==> y <= tmp)
    {
      if occ[j] >= max {
        max := occ[j];
        tmp := j;
      }
      j := j + 1;
    }
  }

  /** `guess_key` (decrypt.c:19-50): count the letters, then pick 26 times
      the unused letter with the largest count (the last one on ties) and
      mark it used with -1. The result is a permutation of the alphabet in
      `RanksBefore` order. */
  method GuessKey(s: seq<char>) returns (k: seq<char>)
    ensures IsKey(k)
    ensures RankedBy(s, k)
  {
    var occ := CountLetters(s);
    UsedCountNone(occ, KeySize);
    k := [];
    var i := 0;
    while i < KeySize
      invariant 0 <= i <= KeySize
      invariant |occ| == KeySize && |k| == i
      invariant UsedCount(occ, KeySize) == i
      invariant forall x :: 0 <= x < KeySize ==> (occ[x] == -1 <==> Letter(x) in k)
      invariant forall x :: 0 <= x < KeySize && occ[x] != -1 ==> occ[x] == LetterCount(s, Letter(x))
      invariant forall q :: 0 <= q < i ==> IsLower(k[q])
      invariant forall q, q' :: 0 <= q < q' < i ==> k[q] != k[q']
      invariant RankedBy(s, k)
      invariant forall q, x :: 0 <= q < i && 0 <= x < KeySize && occ[x] != -1 ==> RanksBefore(s, k[q], Letter(x))
    {
      UsedCountBelow(occ, KeySize);
      var tmp := PickMax(occ);
      forall y | 0 <= y < KeySize && occ[y] != -1 && y != tmp
        ensures RanksBefore(s, Letter(tmp), Letter(y))
      {
        assert Letter(tmp) > Letter(y) <== y < tmp;
      }
      UsedCountMark(occ, KeySize, tmp);
      k := k + [Letter(tmp)];
      occ := occ[tmp := -1];
      i := i + 1;
    }
    UsedCountAll(occ, KeySize);
    forall c | IsLower(c)
      ensures c in k
    {
      LetterCode(c);
      assert occ[Code(c)] == -1;
    }
  }

  /** There is only one permutation of the alphabet in `RanksBefore` order,
      so `GuessKey` is fully determined by the letter counts. */
  lemma RankedKeyUnique(s: seq<char>, k1: seq<char>, k2: seq<char>)
    requires IsKey(k1) && IsKey(k2)
    requires RankedBy(s, k1) && RankedBy(s, k2)
    ensures k1 == k2
  {
    RankedPrefixAgree(s, k1, k2, KeySize);
  }

  lemma {:induction false} RankedPrefixAgree(s: seq<char>, k1: seq<char>, k2: seq<char>, n: int)
    requires IsKey(k1) && IsKey(k2)
    requires RankedBy(s, k1) && RankedBy(s, k2)
    requires 0 <= n <= KeySize
    ensures forall q :: 0 <= q < n ==> k1[q] == k2[q]
  {
    if n > 0 {
      RankedPrefixAgree(s, k1, k2, n - 1);
      FirstMismatchRanks(s, k1, k2, n - 1);
      FirstMismatchRanks(s, k2, k1, n - 1);
    }
  }

  /** Where two keys first differ, the letter `k2` puts there ranks before
      the one `k1` puts there. */
  lemma FirstMismatchRanks(s: seq<char>, k1: seq<char>, k2: seq<char>, i: int)
    requires IsKey(k1) && IsKey(k2) && RankedBy(s, k2)
    requires 0 <= i < KeySize
    requires forall q :: 0 <= q < i ==> k1[q] == k2[q]
    ensures k1[i] == k2[i] || RanksBefore(s, k2[i], k1[i])
  {
    var j := IndexOf(k2, k1[i]);
    forall q | 0 <= q < i
      ensures k2[q] != k1[i]
    {
      assert k1[q] == k2[q];
    }
    if i < j {
      assert RanksBefore(s, k2[i], k2[j]);
    }
  }

  /** Letters that never occur come after every letter that does, and among
      themselves in descending alphabetical order. */
  lemma AbsentLettersLast(s: seq<char>, k: seq<char>, i: int, j: int)
    requires IsKey(k) && RankedBy(s, k)
    requires 0 <= i < j < KeySize
    requires LetterCount(s, k[i]) == 0
    ensures LetterCount(s, k[j]) == 0 && k[i] > k[j]
  {
    assert RanksBefore(s, k[i], k[j]);
  }
}
