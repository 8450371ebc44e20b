/** The three counters of utils.c: `count_words` (maximal alphabetic runs of
    at most N-1 = 255 letters), `count_bigrams` and `count_trigrams` (sliding
    windows of two and three characters). Each produces the items of the text
    in reading order and records them into an occurrence list. */
module Counting {
  import opened Text
  import opened OccList

  /** `buf[N]` with N = 256 holds at most 255 letters before the '\0'. */
  const WordMax: int := 255

  function FoldString(w: seq<char>, caseSensitive: bool): (r: seq<char>)
    ensures |r| == |w|
    ensures forall i :: 0 <= i < |w| ==> r[i] == Fold(w[i], caseSensitive)
  {
    if w == [] then [] else [Fold(w[0], caseSensitive)] + FoldString(w[1..], caseSensitive)
  }

  predicate AllAlpha(w: seq<char>) {
    forall i :: 0 <= i < |w| ==> IsAlpha(w[i])
  }

  function Flush(buf: seq<char>): seq<seq<char>> {
    if buf == [] then [] else [buf]
  }

  /** The tokeniser of `count_words` (utils.c:149-161), reading `rest` with
      the letters of the current token already in `buf`. A letter is folded
      and appended; when the buffer already holds 255 letters the token ends
      and that letter is dropped; any other character ends the token. */
  function WordsFrom(rest: seq<char>, buf: seq<char>, caseSensitive: bool): seq<seq<char>>
    decreases |rest|
  {
    if rest == [] then Flush(buf)
    else if IsAlpha(rest[0]) then
      if |buf| >= WordMax then [buf] + WordsFrom(rest[1..], [], caseSensitive)
      else WordsFrom(rest[1..], buf + [Fold(rest[0], caseSensitive)], caseSensitive)
    else Flush(buf) + WordsFrom(rest[1..], [], caseSensitive)
  }

  /** The tokens `count_words` records, in reading order. */
  function Words(s: seq<char>, caseSensitive: bool): seq<seq<char>> {
    WordsFrom(s, [], caseSensitive)
  }

  /** A token as `count_words` stores it: 1 to 255 letters, lower case unless
      case sensitive. */
  predicate WellFormedWord(w: seq<char>, caseSensitive: bool) {
    && 1 <= |w| <= WordMax
    && AllAlpha(w)
    && (!caseSensitive ==> forall i :: 0 <= i < |w| ==> IsLower(w[i]))
  }

  lemma {:induction false} WordsFromWellFormed(rest: seq<char>, buf: seq<char>, caseSensitive: bool)
    requires |buf| <= WordMax && AllAlpha(buf)
    requires !caseSensitive ==> forall i :: 0 <= i < |buf| ==> IsLower(buf[i])
    ensures forall t :: t in WordsFrom(rest, buf, caseSensitive) ==> WellFormedWord(t, caseSensitive)
    ensures |WordsFrom(rest, buf, caseSensitive)| <= |rest| + (if buf == [] then 0 else 1)
    decreases |rest|
  {
    if rest != [] {
      if IsAlpha(rest[0]) && |buf| < WordMax {
        WordsFromWellFormed(rest[1..], buf + [Fold(rest[0], caseSensitive)], caseSensitive);
      } else {
        WordsFromWellFormed(rest[1..], [], caseSensitive);
      }
    }
  }

  /** Every token is a well-formed word, and there are at most as many tokens
      as characters. */
  lemma WordsWellFormed(s: seq<char>, caseSensitive: bool)
    ensures forall t :: t in Words(s, caseSensitive) ==> WellFormedWord(t, caseSensitive)
    ensures |Words(s, caseSensitive)| <= |s|
  {
    WordsFromWellFormed(s, [], caseSensitive);
  }

  /** One letter joins the current token while it has room. */
  lemma WordsFromLetter(c: char, rest: seq<char>, buf: seq<char>, caseSensitive: bool)
    requires IsAlpha(c) && |buf| < WordMax
    ensures WordsFrom([c] + rest, buf, caseSensitive) == WordsFrom(rest, buf + [Fold(c, caseSensitive)], caseSensitive)
  {
    assert ([c] + rest)[1..] == rest;
  }

  /** Letters are accumulated into the current token while it has room. */
  lemma {:induction false} WordsFromRun(w: seq<char>, rest: seq<char>, buf: seq<char>, caseSensitive: bool)
    requires AllAlpha(w) && |buf| + |w| <= WordMax
    ensures WordsFrom(w + rest, buf, caseSensitive) == WordsFrom(rest, buf + FoldString(w, caseSensitive), caseSensitive)
    decreases |w|
  {
    if w == [] {
      assert w + rest == rest;
      assert buf + FoldString(w, caseSensitive) == buf;
    } else {
      var buf' := buf + [Fold(w[0], caseSensitive)];
      assert w + rest == [w[0]] + (w[1..] + rest);
      WordsFromLetter(w[0], w[1..] + rest, buf, caseSensitive);
      WordsFromRun(w[1..], rest, buf', caseSensitive);
      FoldConsAssoc(buf, w, caseSensitive);
    }
  }

  lemma FoldConsAssoc(buf: seq<char>, w: seq<char>, caseSensitive: bool)
    requires w != []
    ensures buf + [Fold(w[0], caseSensitive)] + FoldString(w[1..], caseSensitive) == buf + FoldString(w, caseSensitive)
  {
  }

  /** A non-letter ends the current token, if any. */
  lemma WordsFromSeparator(sep: char, rest: seq<char>, buf: seq<char>, caseSensitive: bool)
    requires !IsAlpha(sep)
    ensures WordsFrom([sep] + rest, buf, caseSensitive) == Flush(buf) + WordsFrom(rest, [], caseSensitive)
  {
    assert ([sep] + rest)[1..] == rest;
  }

  /** A letter met with 255 letters buffered ends the token and is dropped. */
  lemma WordsFromFull(c: char, rest: seq<char>, buf: seq<char>, caseSensitive: bool)
    requires IsAlpha(c) && |buf| == WordMax
    ensures WordsFrom([c] + rest, buf, caseSensitive) == [buf] + WordsFrom(rest, [], caseSensitive)
  {
    assert ([c] + rest)[1..] == rest;
  }

  /** A run of 1 to 255 letters ended by a non-letter is one token, folded;
      the separator itself is not part of any token. */
  lemma WordsOfRun(w: seq<char>, sep: char, rest: seq<char>, caseSensitive: bool)
    requires AllAlpha(w) && 1 <= |w| <= WordMax && !IsAlpha(sep)
    ensures Words(w + [sep] + rest, caseSensitive) == [FoldString(w, caseSensitive)] + Words(rest, caseSensitive)
  {
    assert w + [sep] + rest == w + ([sep] + rest);
    WordsFromRun(w, [sep] + rest, [], caseSensitive);
    assert [] + FoldString(w, caseSensitive) == FoldString(w, caseSensitive);
    WordsFromSeparator(sep, rest, FoldString(w, caseSensitive), caseSensitive);
  }

  /** A text that is one run of 1 to 255 letters is one token. */
  lemma WordsOfWholeRun(w: seq<char>, caseSensitive: bool)
    requires AllAlpha(w) && 1 <= |w| <= WordMax
    ensures Words(w, caseSensitive) == [FoldString(w, caseSensitive)]
  {
    assert w + [] == w;
    WordsFromRun(w, [], [], caseSensitive);
    assert [] + FoldString(w, caseSensitive) == FoldString(w, caseSensitive);
  }

  /** In a run longer than 255 letters the first 255 form a token, the 256th
      letter is dropped, and the remainder starts a new token. */
  lemma WordsOfLongRun(w: seq<char>, rest: seq<char>, caseSensitive: bool)
    requires AllAlpha(w) && |w| == WordMax + 1
    ensures Words(w + rest, caseSensitive) == [FoldString(w[..WordMax], caseSensitive)] + Words(rest, caseSensitive)
  {
    assert w + rest == w[..WordMax] + ([w[WordMax]] + rest);
    WordsFromRun(w[..WordMax], [w[WordMax]] + rest, [], caseSensitive);
    assert [] + FoldString(w[..WordMax], caseSensitive) == FoldString(w[..WordMax], caseSensitive);
    WordsFromFull(w[WordMax], rest, FoldString(w[..WordMax], caseSensitive), caseSensitive);
  }

  /** Non-letters between tokens produce nothing. */
  lemma WordsSkipSeparator(sep: char, rest: seq<char>, caseSensitive: bool)
    requires !IsAlpha(sep)
    ensures Words([sep] + rest, caseSensitive) == Words(rest, caseSensitive)
  {
    assert ([sep] + rest)[1..] == rest;
  }

  /** `count_words(fi, l, case_sensitive)`. */
  function CountWords(s: seq<char>, l: seq<Entry<seq<char>>>, caseSensitive: bool): seq<Entry<seq<char>>> {
    RecordAll(l, Words(s, caseSensitive))
  }

  /** After `count_words` every word is listed once, the list is in
      non-increasing order of occurrences, each word's count grew by its
      number of tokens and the counts grew in total by the number of tokens. */
  lemma CountWordsSpec(s: seq<char>, l: seq<Entry<seq<char>>>, caseSensitive: bool)
    requires Distinct(l) && SortedDesc(l) && Positive(l)
    ensures Distinct(CountWords(s, l, caseSensitive))
    ensures SortedDesc(CountWords(s, l, caseSensitive))
    ensures Positive(CountWords(s, l, caseSensitive))
    ensures forall w :: OccOf(CountWords(s, l, caseSensitive), w) == OccOf(l, w) + CountIn(Words(s, caseSensitive), w)
    ensures Total(CountWords(s, l, caseSensitive)) == Total(l) + |Words(s, caseSensitive)|
    ensures |CountWords(s, l, caseSensitive)| <= |l| + |s|
  {
    RecordAllSpec(l, Words(s, caseSensitive));
    WordsWellFormed(s, caseSensitive);
  }

  /** The window of `count_bigrams` at the start of `s` is counted: always,
      or with `alpha_only` only when both characters are letters. */
  predicate PairCounted(c0: char, c1: char, alphaOnly: bool) {
    !alphaOnly || (IsAlpha(c0) && IsAlpha(c1))
  }

  /** The bigrams `count_bigrams` records, in reading order (utils.c:45-82). */
  function BigramItems(s: seq<char>, caseSensitive: bool, alphaOnly: bool): seq<(char, char)>
    decreases |s|
  {
    if |s| < 2 then []
    else (if PairCounted(s[0], s[1], alphaOnly) then [(Fold(s[0], caseSensitive), Fold(s[1], caseSensitive))] else [])
         + BigramItems(s[1..], caseSensitive, alphaOnly)
  }

  predicate TripleCounted(c0: char, c1: char, c2: char, alphaOnly: bool) {
    !alphaOnly || (IsAlpha(c0) && IsAlpha(c1) && IsAlpha(c2))
  }

  /** The trigrams `count_trigrams` records, in reading order (utils.c:93-136). */
  function TrigramItems(s: seq<char>, caseSensitive: bool, alphaOnly: bool): seq<(char, char, char)>
    decreases |s|
  {
    if |s| < 3 then []
    else (if TripleCounted(s[0], s[1], s[2], alphaOnly)
          then [(Fold(s[0], caseSensitive), Fold(s[1], caseSensitive), Fold(s[2], caseSensitive))] else [])
         + TrigramItems(s[1..], caseSensitive, alphaOnly)
  }

  /** Without `alpha_only` every adjacent pair is a window, in reading
      order; with it, every recorded pair consists of letters (lower case
      unless case sensitive). */
  lemma {:induction false} BigramItemsSpec(s: seq<char>, caseSensitive: bool, alphaOnly: bool)
    ensures !alphaOnly ==> |BigramItems(s, caseSensitive, alphaOnly)| == (if |s| < 2 then 0 else |s| - 1)
    ensures !alphaOnly ==> forall k :: 0 <= k < |s| - 1 ==>
      BigramItems(s, caseSensitive, alphaOnly)[k] == (Fold(s[k], caseSensitive), Fold(s[k + 1], caseSensitive))
    ensures alphaOnly ==> forall k :: 0 <= k < |BigramItems(s, caseSensitive, alphaOnly)| ==>
      IsAlpha(BigramItems(s, caseSensitive, alphaOnly)[k].0) && IsAlpha(BigramItems(s, caseSensitive, alphaOnly)[k].1)
    ensures !caseSensitive ==> forall k :: 0 <= k < |BigramItems(s, caseSensitive, alphaOnly)| ==>
      !('A' <= BigramItems(s, caseSensitive, alphaOnly)[k].0 <= 'Z') && !('A' <= BigramItems(s, caseSensitive, alphaOnly)[k].1 <= 'Z')
    decreases |s|
  {
    if |s| >= 2 {
      BigramItemsSpec(s[1..], caseSensitive, alphaOnly);
      if !alphaOnly {
        forall k | 1 <= k < |s| - 1
          ensures BigramItems(s, caseSensitive, alphaOnly)[k] == (Fold(s[k], caseSensitive), Fold(s[k + 1], caseSensitive))
        {
          assert s[1..][k - 1] == s[k] && s[1..][k] == s[k + 1];
        }
      }
    }
  }

  /** Every window `count_bigrams` does not skip is recorded: with
      `alpha_only`, every pair of adjacent letters. */
  lemma {:induction false} BigramWindowCounted(s: seq<char>, caseSensitive: bool, alphaOnly: bool, k: int)
    requires 0 <= k < |s| - 1 && PairCounted(s[k], s[k + 1], alphaOnly)
    ensures (Fold(s[k], caseSensitive), Fold(s[k + 1], caseSensitive)) in BigramItems(s, caseSensitive, alphaOnly)
    decreases k
  {
    if k > 0 {
      assert s[1..][k - 1] == s[k] && s[1..][k] == s[k + 1];
      BigramWindowCounted(s[1..], caseSensitive, alphaOnly, k - 1);
    }
  }

  /** The same for trigram windows. */
  lemma {:induction false} TrigramItemsSpec(s: seq<char>, caseSensitive: bool, alphaOnly: bool)
    ensures !alphaOnly ==> |TrigramItems(s, caseSensitive, alphaOnly)| == (if |s| < 3 then 0 else |s| - 2)
    ensures !alphaOnly ==> forall k :: 0 <= k < |s| - 2 ==>
      TrigramItems(s, caseSensitive, alphaOnly)[k] == (Fold(s[k], caseSensitive), Fold(s[k + 1], caseSensitive), Fold(s[k + 2], caseSensitive))
    ensures alphaOnly ==> forall k :: 0 <= k < |TrigramItems(s, caseSensitive, alphaOnly)| ==>
      && IsAlpha(TrigramItems(s, caseSensitive, alphaOnly)[k].0)
      && IsAlpha(TrigramItems(s, caseSensitive, alphaOnly)[k].1)
      && IsAlpha(TrigramItems(s, caseSensitive, alphaOnly)[k].2)
    ensures !caseSensitive ==> forall k :: 0 <= k < |TrigramItems(s, caseSensitive, alphaOnly)| ==>
      && !('A' <= TrigramItems(s, caseSensitive, alphaOnly)[k].0 <= 'Z')
      && !('A' <= TrigramItems(s, caseSensitive, alphaOnly)[k].1 <= 'Z')
      && !('A' <= TrigramItems(s, caseSensitive, alphaOnly)[k].2 <= 'Z')
    decreases |s|
  {
    if |s| >= 3 {
      TrigramItemsSpec(s[1..], caseSensitive, alphaOnly);
      if !alphaOnly {
        forall k | 1 <= k < |s| - 2
          ensures TrigramItems(s, caseSensitive, alphaOnly)[k]
                  == (Fold(s[k], caseSensitive), Fold(s[k + 1], caseSensitive), Fold(s[k + 2], caseSensitive))
        {
          assert s[1..][k - 1] == s[k] && s[1..][k] == s[k + 1] && s[1..][k + 1] == s[k + 2];
        }
      }
    }
  }

  /** Every window `count_trigrams` does not skip is recorded. */
  lemma {:induction false} TrigramWindowCounted(s: seq<char>, caseSensitive: bool, alphaOnly: bool, k: int)
    requires 0 <= k < |s| - 2 && TripleCounted(s[k], s[k + 1], s[k + 2], alphaOnly)
    ensures (Fold(s[k], caseSensitive), Fold(s[k + 1], caseSensitive), Fold(s[k + 2], caseSensitive))
            in TrigramItems(s, caseSensitive, alphaOnly)
    decreases k
  {
    if k > 0 {
      assert s[1..][k - 1] == s[k] && s[1..][k] == s[k + 1] && s[1..][k + 1] == s[k + 2];
      TrigramWindowCounted(s[1..], caseSensitive, alphaOnly, k - 1);
    }
  }

  /** `count_bigrams(fi, l, case_sensitive, alpha_only)`. */
  function CountBigrams(s: seq<char>, l: seq<Entry<(char, char)>>, caseSensitive: bool, alphaOnly: bool): seq<Entry<(char, char)>> {
    RecordAll(l, BigramItems(s, caseSensitive, alphaOnly))
  }

  /** `count_trigrams(fi, l, case_sensitive, alpha_only)`. */
  function CountTrigrams(s: seq<char>, l: seq<Entry<(char, char, char)>>, caseSensitive: bool, alphaOnly: bool): seq<Entry<(char, char, char)>> {
    RecordAll(l, TrigramItems(s, caseSensitive, alphaOnly))
  }

  /** After `count_bigrams` the list is distinct and sorted, each pair's count
      grew by its number of counted windows, and the counts grew in total by
      the number of counted windows. */
  lemma CountBigramsSpec(s: seq<char>, l: seq<Entry<(char, char)>>, caseSensitive: bool, alphaOnly: bool)
    requires Distinct(l) && SortedDesc(l) && Positive(l)
    ensures Distinct(CountBigrams(s, l, caseSensitive, alphaOnly))
    ensures SortedDesc(CountBigrams(s, l, caseSensitive, alphaOnly))
    ensures forall p :: OccOf(CountBigrams(s, l, caseSensitive, alphaOnly), p)
                        == OccOf(l, p) + CountIn(BigramItems(s, caseSensitive, alphaOnly), p)
    ensures Total(CountBigrams(s, l, caseSensitive, alphaOnly)) == Total(l) + |BigramItems(s, caseSensitive, alphaOnly)|
  {
    var xs := BigramItems(s, caseSensitive, alphaOnly);
    RecordAllSpec(l, xs);
    forall p
      ensures OccOf(CountBigrams(s, l, caseSensitive, alphaOnly), p) == OccOf(l, p) + CountIn(xs, p)
    {
      assert OccOf(RecordAll(l, xs), p) == OccOf(l, p) + CountIn(xs, p);
    }
  }

  /** The same for `count_trigrams`. */
  lemma CountTrigramsSpec(s: seq<char>, l: seq<Entry<(char, char, char)>>, caseSensitive: bool, alphaOnly: bool)
    requires Distinct(l) && SortedDesc(l) && Positive(l)
    ensures Distinct(CountTrigrams(s, l, caseSensitive, alphaOnly))
    ensures SortedDesc(CountTrigrams(s, l, caseSensitive, alphaOnly))
    ensures forall t :: OccOf(CountTrigrams(s, l, caseSensitive, alphaOnly), t)
                        == OccOf(l, t) + CountIn(TrigramItems(s, caseSensitive, alphaOnly), t)
    ensures Total(CountTrigrams(s, l, caseSensitive, alphaOnly)) == Total(l) + |TrigramItems(s, caseSensitive, alphaOnly)|
  {
    var xs := TrigramItems(s, caseSensitive, alphaOnly);
    RecordAllSpec(l, xs);
    forall t
      ensures OccOf(CountTrigrams(s, l, caseSensitive, alphaOnly), t) == OccOf(l, t) + CountIn(xs, t)
    {
      assert OccOf(RecordAll(l, xs), t) == OccOf(l, t) + CountIn(xs, t);
    }
  }
}
