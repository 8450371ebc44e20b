/** The two-phase key search of `decrypt` (decrypt.c:297-448).

    Both phases sweep the pairs of key positions `(a, a + b)` in the order
    b = 1, 2, ... and, for each b, a = 0, 1, ...: the pair is exchanged in a
    trial key, the trial is scored, and it is committed (restarting the sweep
    at (0, 1)) when it scores strictly better, or reverted otherwise. After a
    trial the cursor advances; when `a + b` passes 25 it moves to the next
    distance, and when the distance reaches 25 the search stops before
    scoring that trial. The sweep therefore scores every pair of distance up
    to 23, and of distance 24 only (0, 24); the pairs (1, 24) and (0, 25) are
    never scored.

    Phase A minimises the n-gram distance of the candidate plaintext to the
    sample, updating the candidate's profiles in place instead of
    recomputing them; phase B maximises `word_goodness`. */
module Search {
  import opened Text
  import opened Keys
  import opened Ranking
  import opened Matrices
  import opened OccList
  import opened Counting
  import opened Goodness
  import opened Profile
  import opened Relabel
  import opened Projector

  /** A pair of key positions the sweep can visit: `(i, i + d)`. */
  predicate SweepPair(i: int, d: int) {
    1 <= d && 0 <= i && i + d < KeySize
  }

  /** `(i, d)` comes before the cursor `(a, b)` in sweep order. */
  predicate Before(i: int, d: int, a: int, b: int) {
    d < b || (d == b && i < a)
  }

  /** The pairs a full sweep scores: those before the cursor (1, 24). */
  predicate Scored(i: int, d: int) {
    SweepPair(i, d) && Before(i, d, 1, KeySize - 2)
  }

  /** Phase A objective: bigram plus trigram distance between the candidate
      plaintext and the sample. */
  function NgramScore(cipher: seq<char>, ks: seq<char>, k: seq<char>, eb: seq<real>, et: seq<real>): real
    requires IsKey(ks) && |k| == KeySize && |eb| == Cells2 && |et| == Cells3
  {
    Distance(BigramMatrix(Project(cipher, ks, k)), eb) + Distance(TrigramMatrix(Project(cipher, ks, k)), et)
  }

  /** Phase B objective: `word_goodness` of the candidate plaintext's words
      against the sample's word list. */
  function WordScore(cipher: seq<char>, ks: seq<char>, k: seq<char>, slist: seq<Entry<seq<char>>>): nat
    requires IsKey(ks) && |k| == KeySize
  {
    WordGoodness(CountWords(Project(cipher, ks, k), [], false), slist)
  }

  lemma RelabelTextSymmetric(s: seq<char>, p: char, q: char)
    ensures RelabelText(s, p, q) == RelabelText(s, q, p)
  {
  }

  /** After exchanging positions `i` and `j` of the candidate key, exchanging
      letters `k1[i]` and `k1[j]` in the candidate's bigram profile (as
      `decrypt` does) gives the bigram profile of the new candidate
      plaintext. */
  lemma TrialTracks(cipher: seq<char>, ks: seq<char>, key: seq<char>, i: int, j: int)
    requires IsKey(ks) && IsKey(key) && 0 <= i < KeySize && 0 <= j < KeySize
    ensures IsKey(SwapInKey(key, i, j))
    ensures SwapBigram(BigramMatrix(Project(cipher, ks, key)), Code(SwapInKey(key, i, j)[i]), Code(SwapInKey(key, i, j)[j]))
            == BigramMatrix(Project(cipher, ks, SwapInKey(key, i, j)))
  {
    SwapKeepsKey(key, i, j);
    var t := Project(cipher, ks, key);
    ProjectSwapKey(cipher, ks, key, i, j);
    RelabelTextSymmetric(t, key[i], key[j]);
    LetterCode(key[i]);
    LetterCode(key[j]);
    SwapBigramTracksText(t, Code(key[j]), Code(key[i]));
  }

  /** The trigram half of the same fact holds only when the trigram profile
      is relabelled on all three axes (`Relabel3`), which
      `swap_in_trigram_matrix` does not do (see `Relabel.SwapTrigramMissesText`). */
  lemma TrialTracksRelabel(cipher: seq<char>, ks: seq<char>, key: seq<char>, i: int, j: int)
    requires IsKey(ks) && IsKey(key) && 0 <= i < KeySize && 0 <= j < KeySize
    ensures IsKey(SwapInKey(key, i, j))
    ensures Relabel3(TrigramMatrix(Project(cipher, ks, key)), Code(SwapInKey(key, i, j)[i]), Code(SwapInKey(key, i, j)[j]))
            == TrigramMatrix(Project(cipher, ks, SwapInKey(key, i, j)))
  {
    SwapKeepsKey(key, i, j);
    var t := Project(cipher, ks, key);
    ProjectSwapKey(cipher, ks, key, i, j);
    RelabelTextSymmetric(t, key[i], key[j]);
    LetterCode(key[i]);
    LetterCode(key[j]);
    RelabelTrigramTracksText(t, Code(key[j]), Code(key[i]));
  }

  /** Advancing the cursor past `(a, b)` adds exactly that pair to the ones
      already visited. */
  lemma Advance(a: int, b: int, a': int, b': int)
    requires 1 <= b <= KeySize - 2 && 0 <= a && a + b < KeySize
    requires (a + 1 + b < KeySize && a' == a + 1 && b' == b) || (a + 1 + b >= KeySize && a' == 0 && b' == b + 1)
    ensures forall i, d :: SweepPair(i, d) && Before(i, d, a', b') ==> Before(i, d, a, b) || (i == a && d == b)
  {
  }

  /** The cursor step of both sweeps: the next position at the same
      distance, or the first position at the next distance. */
  method NextPair(a: int, b: int) returns (a': int, b': int)
    requires 1 <= b <= KeySize - 2 && 0 <= a && a + b < KeySize
    ensures (a + 1 + b < KeySize && a' == a + 1 && b' == b) || (a + 1 + b >= KeySize && a' == 0 && b' == b + 1)
  {
    a', b' := a + 1, b;
    if a' + b' > KeySize - 1 {
      a', b' := 0, b' + 1;
    }
  }

  /** No exchange before the cursor `(a, b)` lowers the n-gram score below
      `score`. */
  ghost predicate NgramCovered(cipher: seq<char>, ks: seq<char>, key: seq<char>, eb: seq<real>, et: seq<real>, a: int, b: int, score: real)
    requires IsKey(ks) && |key| == KeySize && |eb| == Cells2 && |et| == Cells3
  {
    forall i, d :: SweepPair(i, d) && Before(i, d, a, b) ==> NgramScore(cipher, ks, SwapInKey(key, i, i + d), eb, et) >= score
  }

  lemma NgramCoverStep(cipher: seq<char>, ks: seq<char>, key: seq<char>, eb: seq<real>, et: seq<real>, a: int, b: int, a': int, b': int, score: real)
    requires IsKey(ks) && |key| == KeySize && |eb| == Cells2 && |et| == Cells3
    requires 1 <= b <= KeySize - 2 && 0 <= a && a + b < KeySize
    requires (a + 1 + b < KeySize && a' == a + 1 && b' == b) || (a + 1 + b >= KeySize && a' == 0 && b' == b + 1)
    requires NgramCovered(cipher, ks, key, eb, et, a, b, score)
    requires NgramScore(cipher, ks, SwapInKey(key, a, a + b), eb, et) >= score
    ensures NgramCovered(cipher, ks, key, eb, et, a', b', score)
  {
    Advance(a, b, a', b');
  }

  /** The sweep stops when the cursor wraps past `(ta, tb)` onto distance
      25; by then every scored pair has been tried. */
  lemma NgramSweepDone(cipher: seq<char>, ks: seq<char>, key: seq<char>, eb: seq<real>, et: seq<real>, ta: int, tb: int, score: real)
    requires IsKey(ks) && |key| == KeySize && |eb| == Cells2 && |et| == Cells3
    requires 0 <= ta && ta + 1 + tb > KeySize - 1 && tb + 1 == KeySize - 1
    requires NgramCovered(cipher, ks, key, eb, et, ta, tb, score)
    ensures forall i, d :: Scored(i, d) ==> NgramScore(cipher, ks, SwapInKey(key, i, i + d), eb, et) >= score
  {
    forall i, d | Scored(i, d)
      ensures NgramScore(cipher, ks, SwapInKey(key, i, i + d), eb, et) >= score
    {
      assert Before(i, d, ta, tb);
    }
  }

  /** The score `decrypt` gives the trial that exchanges key positions `i`
      and `i + d` (decrypt.c:340-342, 364-365): the letters `k1[i]` and
      `k1[i + d]` of the trial key `k1` are exchanged in the candidate's
      profiles `db` and `dt` by `swap_in_bigram_matrix` and
      `swap_in_trigram_matrix`, and the results are compared with the
      sample's. */
  function TrialScore(key: seq<char>, db: seq<real>, dt: seq<real>, eb: seq<real>, et: seq<real>, i: int, d: int): real
    requires IsKey(key) && SweepPair(i, d)
    requires |db| == Cells2 && |dt| == Cells3 && |eb| == Cells2 && |et| == Cells3
  {
    var k1 := SwapInKey(key, i, i + d);
    Distance(SwapBigram(db, Code(k1[i]), Code(k1[i + d])), eb)
      + Distance(SwapTrigram(dt, Code(k1[i]), Code(k1[i + d])), et)
  }

  /** No trial before the cursor `(a, b)` scores below `score`. */
  ghost predicate TrialCovered(key: seq<char>, db: seq<real>, dt: seq<real>, eb: seq<real>, et: seq<real>, a: int, b: int, score: real)
    requires IsKey(key) && |db| == Cells2 && |dt| == Cells3 && |eb| == Cells2 && |et| == Cells3
  {
    forall i, d :: SweepPair(i, d) && Before(i, d, a, b) ==> TrialScore(key, db, dt, eb, et, i, d) >= score
  }

  /** Nothing comes before the first trial (0, 1). */
  lemma TrialCoverStart(key: seq<char>, db: seq<real>, dt: seq<real>, eb: seq<real>, et: seq<real>, score: real)
    requires IsKey(key) && |db| == Cells2 && |dt| == Cells3 && |eb| == Cells2 && |et| == Cells3
    ensures TrialCovered(key, db, dt, eb, et, 0, 1, score)
  {
  }

  lemma TrialCoverStep(key: seq<char>, db: seq<real>, dt: seq<real>, eb: seq<real>, et: seq<real>, a: int, b: int, a': int, b': int, score: real)
    requires IsKey(key) && |db| == Cells2 && |dt| == Cells3 && |eb| == Cells2 && |et| == Cells3
    requires 1 <= b <= KeySize - 2 && 0 <= a && a + b < KeySize
    requires (a + 1 + b < KeySize && a' == a + 1 && b' == b) || (a + 1 + b >= KeySize && a' == 0 && b' == b + 1)
    requires TrialCovered(key, db, dt, eb, et, a, b, score)
    requires TrialScore(key, db, dt, eb, et, a, b) >= score
    ensures TrialCovered(key, db, dt, eb, et, a', b', score)
  {
    Advance(a, b, a', b');
  }

  lemma TrialSweepDone(key: seq<char>, db: seq<real>, dt: seq<real>, eb: seq<real>, et: seq<real>, ta: int, tb: int, score: real)
    requires IsKey(key) && |db| == Cells2 && |dt| == Cells3 && |eb| == Cells2 && |et| == Cells3
    requires 0 <= ta && ta + 1 + tb > KeySize - 1 && tb + 1 == KeySize - 1
    requires TrialCovered(key, db, dt, eb, et, ta, tb, score)
    ensures forall i, d :: Scored(i, d) ==> TrialScore(key, db, dt, eb, et, i, d) >= score
  {
    forall i, d | Scored(i, d)
      ensures TrialScore(key, db, dt, eb, et, i, d) >= score
    {
      assert Before(i, d, ta, tb);
    }
  }

  /** One trial of phase A: exchange key positions `a` and `a + b` and the
      matching letters in both profiles. */
  method TrialA(key: seq<char>, db: seq<real>, dt: seq<real>, a: int, b: int)
    returns (k1: seq<char>, db1: seq<real>, dt1: seq<real>)
    requires IsKey(key) && |db| == Cells2 && |dt| == Cells3
    requires 1 <= b && 0 <= a && a + b < KeySize
    ensures IsKey(k1) && k1 == SwapInKey(key, a, a + b)
    ensures db1 == SwapBigram(db, Code(k1[a]), Code(k1[a + b]))
    ensures dt1 == SwapTrigram(dt, Code(k1[a]), Code(k1[a + b]))
    ensures multiset(dt1) == multiset(dt)
  {
    SwapKeepsKey(key, a, a + b);
    k1 := SwapInKey(key, a, a + b);
    db1 := SwapBigram(db, Code(k1[a]), Code(k1[a + b]));
    dt1 := SwapTrigram(dt, Code(k1[a]), Code(k1[a + b]));
    SwapTrigramPreserves(dt, Code(k1[a]), Code(k1[a + b]));
  }

  /** Phase A (decrypt.c:319-381), with the candidate's profiles updated in
      place as written. The bigram profile always is that of the candidate
      plaintext; the trigram profile `dt` is the starting one with its cells
      rearranged. `fuel` bounds the number of trials; when the sweep
      completes within it, `converged` is set and no scored trial, scored
      as `decrypt` scores it, improves the result. */
  method PhaseA(cipher: seq<char>, ks: seq<char>, key0: seq<char>, eb: seq<real>, et: seq<real>, fuel0: nat)
    returns (key: seq<char>, dt: seq<real>, v: real, vt: real, converged: bool)
    requires IsKey(ks) && IsKey(key0) && |eb| == Cells2 && |et| == Cells3
    ensures IsKey(key) && |dt| == Cells3
    ensures v == Distance(BigramMatrix(Project(cipher, ks, key)), eb)
    ensures vt == Distance(dt, et)
    ensures multiset(dt) == multiset(TrigramMatrix(Project(cipher, ks, key0)))
    ensures v + vt <= NgramScore(cipher, ks, key0, eb, et)
    ensures converged ==> forall i, d :: Scored(i, d) ==>
      TrialScore(key, BigramMatrix(Project(cipher, ks, key)), dt, eb, et, i, d) >= v + vt
  {
    key := key0;
    var db, _ := PopulateBigram(Project(cipher, ks, key));
    var dt0, _ := PopulateTrigram(Project(cipher, ks, key));
    dt := dt0;
    v := Distance(db, eb);
    vt := Distance(dt, et);
    var a, b := 0, 1;
    var fuel := fuel0;
    converged := false;
    while fuel > 0
      invariant IsKey(key) && |dt| == Cells3
      invariant db == BigramMatrix(Project(cipher, ks, key))
      invariant multiset(dt) == multiset(dt0)
      invariant v == Distance(db, eb) && vt == Distance(dt, et)
      invariant v + vt <= NgramScore(cipher, ks, key0, eb, et)
      invariant 1 <= b <= KeySize - 2 && 0 <= a && a + b < KeySize
      invariant TrialCovered(key, db, dt, eb, et, a, b, v + vt)
      decreases fuel
    {
      fuel := fuel - 1;
      var k1, db1, dt1 := TrialA(key, db, dt, a, b);
      TrialTracks(cipher, ks, key, a, a + b);
      var ta, tb := a, b;
      a, b := NextPair(a, b);
      if b == KeySize - 1 {
        TrialSweepDone(key, db, dt, eb, et, ta, tb, v + vt);
        converged := true;
        break;
      }
      var v1 := Distance(db1, eb);
      var vt1 := Distance(dt1, et);
      if v1 + vt1 < v + vt {
        TrialCoverStart(k1, db1, dt1, eb, et, v1 + vt1);
        a, b := 0, 1;
        v, vt := v1, vt1;
        key, db, dt := k1, db1, dt1;
      } else {
        TrialCoverStep(key, db, dt, eb, et, ta, tb, a, b, v + vt);
      }
    }
  }

  /** Nothing comes before the first exchange (0, 1). */
  lemma NgramCoverStart(cipher: seq<char>, ks: seq<char>, key: seq<char>, eb: seq<real>, et: seq<real>, score: real)
    requires IsKey(ks) && |key| == KeySize && |eb| == Cells2 && |et| == Cells3
    ensures NgramCovered(cipher, ks, key, eb, et, 0, 1, score)
  {
  }

  /** One trial of the corrected phase A: exchange key positions `a` and
      `a + b`, and the matching letters in the bigram profile and, on all
      three axes, in the trigram profile. The profiles stay those of the
      candidate plaintext. */
  method TrialRelabel(cipher: seq<char>, ks: seq<char>, key: seq<char>, db: seq<real>, dt: seq<real>, a: int, b: int)
    returns (k1: seq<char>, db1: seq<real>, dt1: seq<real>)
    requires IsKey(ks) && IsKey(key)
    requires db == BigramMatrix(Project(cipher, ks, key)) && dt == TrigramMatrix(Project(cipher, ks, key))
    requires 1 <= b && 0 <= a && a + b < KeySize
    ensures IsKey(k1) && k1 == SwapInKey(key, a, a + b)
    ensures db1 == BigramMatrix(Project(cipher, ks, k1)) && dt1 == TrigramMatrix(Project(cipher, ks, k1))
  {
    TrialTracks(cipher, ks, key, a, a + b);
    TrialTracksRelabel(cipher, ks, key, a, a + b);
    k1 := SwapInKey(key, a, a + b);
    db1 := SwapBigram(db, Code(k1[a]), Code(k1[a + b]));
    dt1 := Relabel3(dt, Code(k1[a]), Code(k1[a + b]));
  }

  /** Phase A as evidently intended: the trigram profile is relabelled on
      all three axes, so both profiles always are those of the candidate
      plaintext and the trial score is the true n-gram score of the trial
      key. `fuel` bounds the number of trials; when the sweep completes
      within it, `converged` is set and no scored exchange improves the
      result. */
  method PhaseACorrected(cipher: seq<char>, ks: seq<char>, key0: seq<char>, eb: seq<real>, et: seq<real>, fuel0: nat)
    returns (key: seq<char>, v: real, vt: real, converged: bool)
    requires IsKey(ks) && IsKey(key0) && |eb| == Cells2 && |et| == Cells3
    ensures IsKey(key)
    ensures v == Distance(BigramMatrix(Project(cipher, ks, key)), eb)
    ensures vt == Distance(TrigramMatrix(Project(cipher, ks, key)), et)
    ensures v + vt <= NgramScore(cipher, ks, key0, eb, et)
    ensures converged ==> forall i, d :: Scored(i, d) ==> NgramScore(cipher, ks, SwapInKey(key, i, i + d), eb, et) >= v + vt
  {
    key := key0;
    var db, _ := PopulateBigram(Project(cipher, ks, key));
    var dt, _ := PopulateTrigram(Project(cipher, ks, key));
    v := Distance(db, eb);
    vt := Distance(dt, et);
    var a, b := 0, 1;
    var fuel := fuel0;
    converged := false;
    while fuel > 0
      invariant IsKey(key)
      invariant db == BigramMatrix(Project(cipher, ks, key)) && dt == TrigramMatrix(Project(cipher, ks, key))
      invariant v == Distance(db, eb) && vt == Distance(dt, et)
      invariant v + vt <= NgramScore(cipher, ks, key0, eb, et)
      invariant 1 <= b <= KeySize - 2 && 0 <= a && a + b < KeySize
      invariant NgramCovered(cipher, ks, key, eb, et, a, b, v + vt)
      decreases fuel
    {
      fuel := fuel - 1;
      var k1, db1, dt1 := TrialRelabel(cipher, ks, key, db, dt, a, b);
      var ta, tb := a, b;
      a, b := NextPair(a, b);
      if b == KeySize - 1 {
        NgramSweepDone(cipher, ks, key, eb, et, ta, tb, v + vt);
        converged := true;
        break;
      }
      var v1 := Distance(db1, eb);
      var vt1 := Distance(dt1, et);
      if v1 + vt1 < v + vt {
        NgramCoverStart(cipher, ks, k1, eb, et, v1 + vt1);
        a, b := 0, 1;
        v, vt := v1, vt1;
        key, db, dt := k1, db1, dt1;
      } else {
        NgramCoverStep(cipher, ks, key, eb, et, ta, tb, a, b, v + vt);
      }
    }
  }

  /** Phase B never scores more than the text has characters. */
  lemma WordScoreBound(cipher: seq<char>, ks: seq<char>, k: seq<char>, slist: seq<Entry<seq<char>>>)
    requires IsKey(ks) && |k| == KeySize
    ensures WordScore(cipher, ks, k, slist) <= |cipher|
  {
    ProjectKey(cipher, ks, k);
    CountWordsSpec(Project(cipher, ks, k), [], false);
  }

  /** No exchange before the cursor `(a, b)` raises the word score above
      `score`. */
  ghost predicate WordCovered(cipher: seq<char>, ks: seq<char>, key: seq<char>, slist: seq<Entry<seq<char>>>, a: int, b: int, score: int)
    requires IsKey(ks) && |key| == KeySize
  {
    forall i, d :: SweepPair(i, d) && Before(i, d, a, b) ==> WordScore(cipher, ks, SwapInKey(key, i, i + d), slist) <= score
  }

  lemma WordCoverStep(cipher: seq<char>, ks: seq<char>, key: seq<char>, slist: seq<Entry<seq<char>>>, a: int, b: int, a': int, b': int, score: int)
    requires IsKey(ks) && |key| == KeySize
    requires 1 <= b <= KeySize - 2 && 0 <= a && a + b < KeySize
    requires (a + 1 + b < KeySize && a' == a + 1 && b' == b) || (a + 1 + b >= KeySize && a' == 0 && b' == b + 1)
    requires WordCovered(cipher, ks, key, slist, a, b, score)
    requires WordScore(cipher, ks, SwapInKey(key, a, a + b), slist) <= score
    ensures WordCovered(cipher, ks, key, slist, a', b', score)
  {
    forall i, d | SweepPair(i, d) && Before(i, d, a', b')
      ensures WordScore(cipher, ks, SwapInKey(key, i, i + d), slist) <= score
    {
      Advance(a, b, a', b');
      if !Before(i, d, a, b) {
        assert i == a && d == b;
      }
    }
  }

  /** Nothing comes before the first exchange (0, 1). */
  lemma WordCoverStart(cipher: seq<char>, ks: seq<char>, key: seq<char>, slist: seq<Entry<seq<char>>>, score: int)
    requires IsKey(ks) && |key| == KeySize
    ensures WordCovered(cipher, ks, key, slist, 0, 1, score)
  {
  }

  lemma WordSweepDone(cipher: seq<char>, ks: seq<char>, key: seq<char>, slist: seq<Entry<seq<char>>>, ta: int, tb: int, score: int)
    requires IsKey(ks) && |key| == KeySize
    requires 0 <= ta && ta + 1 + tb > KeySize - 1 && tb + 1 == KeySize - 1
    requires WordCovered(cipher, ks, key, slist, ta, tb, score)
    ensures forall i, d :: Scored(i, d) ==> WordScore(cipher, ks, SwapInKey(key, i, i + d), slist) <= score
  {
    forall i, d | Scored(i, d)
      ensures WordScore(cipher, ks, SwapInKey(key, i, i + d), slist) <= score
    {
      assert Before(i, d, ta, tb);
    }
  }

  /** One trial exchange of the sweep: positions `a` and `a + b` of a key. */
  method TrialSwap(key: seq<char>, a: int, b: int) returns (k1: seq<char>)
    requires IsKey(key)
    requires 1 <= b && 0 <= a && a + b < KeySize
    ensures IsKey(k1) && k1 == SwapInKey(key, a, a + b)
  {
    SwapKeepsKey(key, a, a + b);
    k1 := SwapInKey(key, a, a + b);
  }

  /** Phase B (decrypt.c:382-443). The score only ever grows and is bounded
      by the length of the text, so the search terminates; at the end no
      scored exchange improves the word score. */
  method PhaseB(cipher: seq<char>, ks: seq<char>, key0: seq<char>, slist: seq<Entry<seq<char>>>)
    returns (key: seq<char>, w: nat)
    requires IsKey(ks) && IsKey(key0)
    ensures IsKey(key)
    ensures w == WordScore(cipher, ks, key, slist)
    ensures w >= WordScore(cipher, ks, key0, slist)
    ensures forall i, d :: Scored(i, d) ==> WordScore(cipher, ks, SwapInKey(key, i, i + d), slist) <= w
  {
    key := key0;
    w := WordScore(cipher, ks, key, slist);
    WordScoreBound(cipher, ks, key, slist);
    var a, b := 0, 1;
    while true
      invariant IsKey(key)
      invariant w == WordScore(cipher, ks, key, slist) && w <= |cipher|
      invariant w >= WordScore(cipher, ks, key0, slist)
      invariant 1 <= b <= KeySize - 2 && 0 <= a && a + b < KeySize
      invariant WordCovered(cipher, ks, key, slist, a, b, w)
      decreases |cipher| - w, KeySize - b, KeySize - a
    {
      var k1 := TrialSwap(key, a, b);
      var ta, tb := a, b;
      a, b := NextPair(a, b);
      if b == KeySize - 1 {
        WordSweepDone(cipher, ks, key, slist, ta, tb, w);
        break;
      }
      var w1 := WordScore(cipher, ks, k1, slist);
      if w1 > w {
        WordScoreBound(cipher, ks, k1, slist);
        WordCoverStart(cipher, ks, k1, slist, w1);
        a, b := 0, 1;
        w := w1;
        key := k1;
      } else {
        WordCoverStep(cipher, ks, key, slist, ta, tb, a, b, w);
      }
    }
  }

  /** `decrypt` end to end: rank the letters of the sample and of the
      cipher text, run phase A from the cipher's frequency ranking and phase
      B from its result, and project the cipher text with the final key.
      Phase A's key never scores a worse bigram distance than the starting
      n-gram score; the final key scores at least as many words as phase A's
      and no scored exchange beats it. Projecting the result back with the
      keys exchanged restores the cipher text, folded. */
  method BreakCipher(cipher: seq<char>, sample: seq<char>, fuel: nat)
    returns (ks: seq<char>, key0: seq<char>, keyA: seq<char>, key: seq<char>, plain: seq<char>)
    ensures IsKey(ks) && RankedBy(sample, ks)
    ensures IsKey(key0) && RankedBy(cipher, key0)
    ensures IsKey(keyA)
    ensures Distance(BigramMatrix(Project(cipher, ks, keyA)), BigramMatrix(sample))
            <= NgramScore(cipher, ks, key0, BigramMatrix(sample), TrigramMatrix(sample))
    ensures IsKey(key)
    ensures WordScore(cipher, ks, key, CountWords(sample, [], false)) >= WordScore(cipher, ks, keyA, CountWords(sample, [], false))
    ensures forall i, d :: Scored(i, d) ==>
      WordScore(cipher, ks, SwapInKey(key, i, i + d), CountWords(sample, [], false)) <= WordScore(cipher, ks, key, CountWords(sample, [], false))
    ensures plain == Project(cipher, ks, key) && |plain| == |cipher|
    ensures Project(plain, key, ks) == LowerString(cipher)
  {
    ks := GuessKey(sample);
    key0 := GuessKey(cipher);
    var eb, _ := PopulateBigram(sample);
    var et, _ := PopulateTrigram(sample);
    var dt, v, vt, converged;
    keyA, dt, v, vt, converged := PhaseA(cipher, ks, key0, eb, et, fuel);
    var slist := CountWords(sample, [], false);
    var w;
    key, w := PhaseB(cipher, ks, keyA, slist);
    plain := Project(cipher, ks, key);
    ProjectKey(cipher, ks, key);
    ProjectRoundTrip(cipher, ks, key);
  }
}
