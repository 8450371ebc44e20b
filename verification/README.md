# charemap in Dafny

charemap is a small C tool that works on the character frequencies of a text.
It has two jobs, and this project models the core of both.

- **Remapping** (charemap.c): count how often each character of the input
  occurs, sort the characters by decreasing count, pair the i-th most
  frequent one with the i-th character of a language map, and substitute
  every input character through that relation.
- **Breaking a substitution cipher** (decrypt.c, utils.c): rank the 26
  letters of a sample text and of the cipher text by frequency. The
  candidate key starts as the cipher's ranking; a candidate plaintext
  replaces each cipher letter found at rank i of the sample's ranking by the
  letter at rank i of the candidate key. Improve the key by trying exchanges
  of two key positions, in two phases:
  - phase A minimises the distance between the bigram and trigram profiles
    of the candidate plaintext and those of the sample;
  - phase B maximises the number of candidate words that occur more than
    once in the sample.

Files become the texts they hold (`seq<char>`). GLib lists become sequences
of `Entry(item, occ)`. The 26×26 and 26×26×26 float matrices become flat
`seq<real>` indexed row-major. The C swap loops become the exact sequence of
cell exchanges they perform.

| module | file | models |
|---|---|---|
| `Text` | text.dfy | `isalpha` and `tolower` in the C locale; letter codes (`c - OFFSET`) |
| `Keys` | keys.dfy | keys as permutations of the alphabet; `swap_in_key` |
| `Ranking` | ranking.dfy | `guess_key` |
| `Matrices` | matrices.dfy | flat matrices; `swap_in_bigram_matrix` and `swap_in_trigram_matrix` as cell exchanges |
| `OccList` | occlist.dfy | the sorted occurrence lists of utils.c and `bubble_up` |
| `Counting` | counting.dfy | `count_words`, `count_bigrams`, `count_trigrams` |
| `Profile` | profile.dfy | `populate_bigram_matrix`, `populate_trigram_matrix` |
| `Goodness` | goodness.dfy | `bigram_goodness`, `trigram_goodness`, `word_goodness` |
| `Projector` | projector.dfy | `decrypt_to_file` |
| `Relabel` | relabel.dfy | why updating the matrices in place tracks the new candidate text |
| `Search` | search.dfy | the two sweeps of `decrypt` and the end-to-end run |
| `Charemap` | charemap.dfy | `initialize_relation`, `sort_by_occ`, `associate`, `substitute`, `remap_file_to_file`, the pipeline of `main` |

Where the repository's prose description and its code differ, the model
follows the code:

- `guess_key` compares with `>=`, so among letters with equal counts the
  later letter in the alphabet ranks first. The prose describes an
  ascending scan.
- Both sweeps advance the cursor before scoring a trial and stop as soon as
  the distance `b` reaches 25. Writing a trial as the cursor `(a, b)` that
  exchanges key positions `a` and `a + b`: the trial (1, 24) is made but
  never scored, and (0, 25) is never made. Every other pair is scored.
- `decrypt` calls the projector as `decrypt_to_file(fi, ks, key)`, with the
  sample's ranking `ks` first. A cipher letter is looked up in `ks`, and the
  letter at the same rank in the cipher-side key `key` is written. The prose
  describes the opposite direction: look the letter up in the cipher-side
  ranking and write the reference letter of that rank. So the first
  candidate plaintext applies the inverse of the frequency pairing
  (`Projector.ProjectKey` states the direction as written). The search then
  permutes `key`, so it still ranges over every substitution.
- Phase A does not recompute the candidate's profiles for a trial. It
  exchanges the two letters in the current profiles in place
  (decrypt.c:340-342), and commits or reverts those matrices together with
  the key. The prose describes a recount. For the bigram profile the two
  agree (`Search.TrialTracks`); for the trigram profile they do not (see
  Findings). `Search.PhaseA` models the update as written;
  `Search.PhaseACorrected` models the intended recount.

## Model

| member | source | states |
|---|---|---|
| Keys.IndexOf | decrypt.c:259-263 | the scan of `k1` stops at the first position holding the character |
| Keys.IndexOfKey | decrypt.c:259-263 | in a key, the position the scan finds for `k[i]` is `i` itself |
| Keys.SwapKeepsKey | decrypt.c:271-278 | exchanging two positions of a key yields a key (a permutation of a..z); the two positions trade letters and every other position is unchanged |
| Keys.SwapInKeyInvolution | decrypt.c:271-278 | exchanging the same two positions twice restores the key |
| Ranking.CountLetters | decrypt.c:27-38 | after the counting loop, counter `x` equals the number of characters of the text that fold to letter `x` |
| Ranking.PickMax | decrypt.c:40-47 | the scan returns an unused position whose count is maximal; among equal maxima it returns the last one |
| Ranking.GuessKey | decrypt.c:19-50 | the key is a permutation of the alphabet ordered by decreasing count, with ties going to the later letter |
| Ranking.RankedKeyUnique | decrypt.c:19-50 | only one permutation is ordered that way, so the ranking is determined by the letter counts alone |
| Ranking.FirstMismatchRanks | decrypt.c:40-47 | where any key first differs from the ranked key, the ranked key's letter ranks strictly before the other key's letter |
| Ranking.AbsentLettersLast | decrypt.c:40-47 | letters that never occur come after all letters that do, in descending alphabetical order |
| Matrices.BigramColumnPass | decrypt.c:145-149 | the first loop exchanges columns `a` and `b` of every row |
| Matrices.BigramRowPass | decrypt.c:151-155 | the second loop exchanges rows `a` and `b` |
| Matrices.SwapBigramRelabels | decrypt.c:139-157 | `swap_in_bigram_matrix` is the relabelling by the transposition σ of `a` and `b`: cell `[x][y]` of the result is cell `[σx][σy]` of the input |
| Matrices.SwapBigramInvolution | decrypt.c:139-157 | applying the bigram update twice restores the matrix; with `a == b` it changes nothing |
| Matrices.SwapBigramPreserves | decrypt.c:139-157 | the bigram update keeps the multiset of cell values and their sum |
| Matrices.SwapTrigramLocal | decrypt.c:159-179 | the trigram update changes no cell whose indices do not contain both `a` and `b` |
| Matrices.SwapTrigramSame | decrypt.c:159-179 | with `a == b` the trigram update changes nothing |
| Matrices.SwapTrigramPreserves | decrypt.c:159-179 | the trigram update keeps the multiset of cell values and their sum |
| Matrices.SwapTrigramIsNotRelabelling | decrypt.c:159-179 | for distinct `a` and `b`, the trigram update differs from the relabelling whenever cells `[a][x][x]` and `[b][x][x]` differ |
| OccList.Find | utils.c:59-70 | the list scan stops at the first entry holding the item, or at the end when there is none |
| OccList.BubbleUp | utils.c:17-37 | `bubble_up` puts the node at `i` one place earlier and its predecessor one place later, and leaves every other node in place |
| OccList.BubbleUpKeeps | utils.c:17-37 | `bubble_up` changes no item's count or the total, and keeps the items distinct |
| OccList.BubbleFromLands | utils.c:65-66 | the bubbling loop moves only the incremented entry, and only past predecessors with strictly fewer occurrences; it stops behind an entry with at least as many, or at the head |
| OccList.BubbleFromKeeps | utils.c:65-66 | the bubbling loop keeps counts, the total, distinctness and positivity |
| OccList.RecordNew | utils.c:71-78 | an item not yet listed is appended with one occurrence; the list stays distinct, positive and sorted |
| OccList.RecordSeen | utils.c:59-70 | a listed item is incremented and bubbled forward; the list stays distinct, positive and sorted |
| OccList.RecordSpec | utils.c:59-78 | recording an item adds one to its count and one to the total and to nothing else; the list stays distinct, positive and sorted by non-increasing count |
| OccList.RecordAllSpec | utils.c:48-82 | recording a sequence of items adds each item's number of occurrences to its count, and the sequence's length to the total; the list stays distinct, positive and sorted |
| Counting.WordsWellFormed | utils.c:149-161 | every word `count_words` records has 1 to 255 letters, lower case unless case sensitive, and there are no more words than characters |
| Counting.WordsOfRun | utils.c:149-183 | a run of 1 to 255 letters ended by a non-letter is one word, folded; the separator belongs to no word |
| Counting.WordsOfWholeRun | utils.c:149-183 | a text that is one run of 1 to 255 letters is one word |
| Counting.WordsOfLongRun | utils.c:154-161 | in a run of 256 letters the first 255 form a word and the 256th is dropped |
| Counting.WordsSkipSeparator | utils.c:150-162 | a non-letter between words produces nothing |
| Counting.CountWordsSpec | utils.c:141-187 | after `count_words` each word's count grew by its number of occurrences and the total by the number of words; the list is distinct, positive and sorted |
| Counting.BigramItemsSpec | utils.c:45-82 | without `alpha_only` the recorded pairs are exactly the adjacent pairs of the text, folded, in reading order; with it every recorded pair is two letters; without case sensitivity no recorded character is upper case |
| Counting.BigramWindowCounted | utils.c:45-82 | every adjacent pair the skip loop does not pass over is recorded, folded: with `alpha_only`, every pair of adjacent letters |
| Counting.TrigramItemsSpec | utils.c:93-136 | without `alpha_only` the recorded triples are exactly the windows of three, folded, in reading order; with it every recorded triple is three letters; without case sensitivity no recorded character is upper case |
| Counting.TrigramWindowCounted | utils.c:93-136 | every window of three the skip loop does not pass over is recorded, folded: with `alpha_only`, every three adjacent letters |
| Counting.CountBigramsSpec | utils.c:39-85 | after `count_bigrams` each pair's count grew by its number of counted windows; the list is distinct and sorted |
| Counting.CountTrigramsSpec | utils.c:87-139 | after `count_trigrams` each triple's count grew by its number of counted windows; the list is distinct and sorted |
| Profile.BigramCountsSnoc | decrypt.c:74-88 | reading one more character adds one to the cell of the window it completes when both characters are letters, and changes nothing otherwise |
| Profile.TrigramCountsSnoc | decrypt.c:112-129 | the same for windows of three letters |
| Profile.BigramCountsSum | decrypt.c:74-88 | the bigram counts add up to the number of counted windows `n` |
| Profile.TrigramCountsSum | decrypt.c:112-129 | the trigram counts add up to the number of counted windows `n` |
| Profile.BigramMatrixSum | decrypt.c:89-94 | once a window was counted, the normalised bigram profile sums to 1 |
| Profile.TrigramMatrixSum | decrypt.c:130-136 | once a window was counted, the normalised trigram profile sums to 1 |
| Profile.PopulateBigram | decrypt.c:61-95 | cell `[x][y]` is the share of two-letter windows reading `x y`, case folded; `n` is the number of such windows; the cells sum to 1 when `n > 0` |
| Profile.PopulateTrigram | decrypt.c:97-137 | cell `[x][y][z]` is the share of three-letter windows reading `x y z`; the cells sum to 1 when `n > 0` |
| Goodness.Distance | decrypt.c:200-222 | the goodness of two matrices is never negative |
| Goodness.DistanceZero | decrypt.c:200-210 | the goodness is zero exactly when the two matrices are equal |
| Goodness.DistanceSymmetric | decrypt.c:200-222 | the goodness does not depend on the order of its arguments |
| Goodness.DistanceTriangle | decrypt.c:200-222 | the goodness satisfies the triangle inequality |
| Goodness.DistanceIsSum | decrypt.c:205-207 | the goodness is the sum of the cell-wise absolute differences, whatever the order of the cells |
| Goodness.DistanceSwapBigram | decrypt.c:200-210 | exchanging two letters in both bigram matrices keeps their goodness |
| Goodness.WordGoodness | decrypt.c:224-244 | `word_goodness` gives at most one point per entry of the candidate list |
| Goodness.MatchesPrefix | decrypt.c:233-239 | the inner scan finds a word exactly when it is listed before the first sample entry with a count of 1 or less |
| Goodness.MatchesSorted | decrypt.c:233-239 | on a sorted list of distinct words, the scan finds a word exactly when the sample holds it more than once |
| Goodness.WordGoodnessCountsKnown | decrypt.c:224-244 | with a sorted, distinct sample list, `word_goodness` counts the candidate entries whose word occurs more than once in the sample |
| Projector.ProjectKey | decrypt.c:246-269 | with a key as `k1`, every input character yields exactly one output character: a letter becomes `k2[i]` for its position `i` in `k1`, and anything else is kept |
| Projector.ProjectDropsUnknown | decrypt.c:255-263 | a letter missing from `k1` produces no output |
| Projector.ProjectDoublesListedNonLetter | decrypt.c:255-263 | a non-letter listed in `k1` is written twice: once as is and once substituted |
| Projector.ProjectRoundTrip | decrypt.c:246-269 | projecting the output with the two keys exchanged gives back the input folded to lower case |
| Projector.ProjectSameKey | decrypt.c:246-269 | projecting with the same key twice only folds the case |
| Projector.ProjectSwapKey | decrypt.c:271-278 | exchanging two positions of `k2` exchanges the two letters held there throughout the projected text |
| Relabel.BigramCountsRelabel | decrypt.c:74-88 | exchanging two letters throughout a text relabels its bigram counts by their transposition |
| Relabel.TrigramCountsRelabel | decrypt.c:112-129 | exchanging two letters throughout a text relabels its trigram counts on all three axes |
| Relabel.SwapBigramTracksText | decrypt.c:139-157 | the bigram update applied to a text's profile gives the profile of the text with the two letters exchanged |
| Relabel.RelabelTrigramTracksText | decrypt.c:159-179 | relabelling the trigram profile on all three axes gives the profile of the text with the two letters exchanged |
| Relabel.SwapTrigramMissesText | decrypt.c:159-179 | the trigram update as written gives a matrix other than the relabelled text's profile whenever `a x x` and `b x x` have different frequencies |
| Relabel.SwapTrigramMissesAcc | decrypt.c:159-179 | for the text "acc" with `a` and `b` exchanged, the update as written does not produce the profile of "bcc" |
| Search.TrialTracks | decrypt.c:340-341 | after two key positions are exchanged, exchanging the two letters in the candidate's bigram profile gives the bigram profile of the new candidate plaintext |
| Search.TrialTracksRelabel | decrypt.c:159-179 | (corrected form of these lines) the trigram counterpart holds for the three-axis relabelling only: it gives the trigram profile of the new candidate plaintext |
| Search.TrialA | decrypt.c:340-342 | one trial of phase A yields a key again, exchanges the two letters now at the tried positions in both profiles, and only rearranges the trigram profile's cells |
| Search.WordScoreBound | decrypt.c:425-430 | a candidate's word score never exceeds the length of the cipher text |
| Search.PhaseA | decrypt.c:319-381 | phase A returns a key; its bigram goodness is that of the final candidate plaintext; its trigram goodness is that of the trigram profile it carries, a rearrangement of the starting profile's cells; their sum never exceeds the starting key's n-gram score; on convergence, no scored trial beats it, scored as `decrypt` scores a trial |
| Search.PhaseACorrected | decrypt.c:319-381 | with the trigram profile relabelled on all three axes, both goodness values are those of the final candidate plaintext, their sum never exceeds the starting key's, and on convergence no scored exchange of two key positions lowers the true n-gram score |
| Search.PhaseB | decrypt.c:382-443 | phase B terminates with a key whose word score is at least the starting key's and is not beaten by any scored exchange of two key positions |
| Search.BreakCipher | decrypt.c:297-448 | the sample ranking and the starting key are the frequency rankings of the sample and of the cipher; phase A's key has a bigram distance no larger than the starting key's n-gram score; the final key's word score is at least phase A's key's, and no scored exchange beats it; the plaintext has the cipher's length, and projecting it back with the keys exchanged gives the cipher text folded |
| Charemap.Position | charemap.c:55-57 | the scan of the relation finds a row exactly when the character has one, and stops at the first such row |
| Charemap.RelateSpec | charemap.c:99-116 | the counting loop lists each character read exactly once, in order of first appearance, with its number of occurrences and the placeholder partner |
| Charemap.InitializeRelationSpec | charemap.c:85-119 | `initialize_relation` yields one row per distinct folded input character, in order of first appearance, each with a positive count and partner '?'; every input character has a row |
| Charemap.ExchangeKeeps | charemap.c:68-72 | exchanging adjacent rows with different counts keeps rows with equal counts in their order, and keeps the rows distinct |
| Charemap.BubblePass | charemap.c:67-72 | one inner pass permutes the rows and moves a row whose count is no larger than any row before it into place `s - 1`, ahead of the rows already settled |
| Charemap.SortByOcc | charemap.c:61-73 | `sort_by_occ` returns a permutation of the rows sorted by non-increasing count; the sort is stable and keeps the rows distinct |
| Charemap.PermutedRows | charemap.c:61-73 | reordering the rows keeps which characters have rows and their counts |
| Charemap.TiesInFirstSeenOrder | charemap.c:61-73 | after the stable sort, rows with equal counts are in order of first appearance in the input |
| Charemap.Associate | charemap.c:121-135 | `associate` keeps every row's character and count |
| Charemap.AssociateSpec | charemap.c:121-135 | each row's partner is itself when it is a non-letter in alpha-only mode; otherwise it is the map character indexed by the number of earlier rows that took one, or '?' once the map is used up |
| Charemap.AssociateByRank | charemap.c:130-133 | without alpha-only mode, the row at rank `k` is paired with the `k`-th map character, or '?' past the end of the map |
| Charemap.AssociateKeeps | charemap.c:121-135 | `associate` keeps distinctness, the sort order, coverage, counts and the order of ties |
| Charemap.SubstituteSpec | charemap.c:49-59 | a character is replaced by the partner of its row, or by '?' when it has no row |
| Charemap.RemapAt | charemap.c:164-172 | `remap_file_to_file` writes, for every input character, its substitute |
| Charemap.RemapRoundTrip | charemap.c:164-172 | with distinct characters and partners, remapping the output case-sensitively through the inverted relation gives back the folded input |
| Charemap.RemapInjective | charemap.c:164-172 | with distinct partners, two input characters come out equal exactly when they fold to the same character |
| Charemap.BuildRelation | charemap.c:279-283 | the relation `main` builds has one row per distinct folded input character, with its count; it is sorted by non-increasing count, ties are in order of first appearance, and each row's partner is the one `associate` assigns it |
| Charemap.RemapFile | charemap.c:279-309 | the remapped output has the input's length; each character becomes the partner of its row in that relation; in alpha-only mode non-letters come out unchanged |
| Charemap.SubstituteAsWrittenAscii | charemap.c:49-59 | on ASCII input, `substitute` with its `char` parameter agrees with the intended lookup |
| Charemap.SubstituteAsWrittenHighByte | charemap.c:49-59 | where `char` is signed, a byte of 128 or more is never found and becomes '?' |
| Charemap.SubstituteAsWrittenLosesLatin1 | charemap.c:49-59 | the byte 0xE9 is counted and paired with 'e', yet `substitute` as written turns it into '?' |

## Left out

- File I/O, the temporary file `/tmp/.charemap.txt`, `rewind` and `remove`. Files are the texts they hold and `decrypt_to_file` returns its output.
- Everything `main` does besides the remapping pipeline: option parsing, `load_lang`, `print_char_occ`, `print_bigrams`/`print_trigrams`/`print_words`, `print_key`, `echo_file` and the progress spinner.
- `load_lang` is replaced by the map as a parameter. It writes past its 256-byte buffer on a longer language file, and that is not modelled.
- `remap_to_video` writes the same characters as `remap_file_to_file` to standard output, so it is covered by `Charemap.RemapAt`.
- GList memory (`malloc`, `g_list_append`, `free_list`): lists are sequences.
- `copy_key`, `copy_bigram_matrix` and `copy_trigram_matrix` are plain assignments of immutable values.
- Locales: `isalpha` and `tolower` are those of the C locale (ASCII only).
- The relation array bound N = 256 cannot be exceeded: there are at most 256 distinct bytes. So rows are an unbounded sequence.
- Profile.Normalize: with no counted window the C divides 0 by 0 (NaN) on every cell; the model keeps zeros. So when the candidate plaintext or the sample has no two-letter or no three-letter window, the C's score in phase A is NaN, the comparison `v1 + vt1 < v + vt` (decrypt.c:366) is always false and phase A commits nothing; the model's phase A may still commit on the score of the other profile.
- Goodness.Distance: exact real arithmetic. The C sums `float` values with `fabsf`, in a fixed cell order, and rounds at every step.
- Search.PhaseA: a `fuel` bound caps the number of trials, and convergence is stated only when the sweep completes within the fuel. The C loop terminates because every commit strictly lowers the score, and the loop state takes finitely many values: the key, plus the trigram profile as a rearrangement of the starting profile's cells (the bigram profile is fixed by the key). That argument is not modelled.
- Search.PhaseACorrected: the same `fuel` bound as Search.PhaseA; convergence is stated only when the sweep completes within the fuel, and termination of the unbounded loop is not modelled.
- Search.PhaseA: the as-written trigram update means the trigram score is not a function of the key alone, so the contract speaks of the profile the search carries rather than of a recount.
- Counting.Words: where `char` is signed, a 0xFF byte read into `char c` compares equal to EOF and stops `count_words`. Where `char` is unsigned, `c == EOF` (utils.c:151-152) is never true, so `count_words` never stops at the end of the file. The model reads the whole text and stops at its end.
- Substitution of bytes of 128 or more: `Charemap.Substitute` looks up the byte as read. The code as written is modelled separately (see Findings).

## Findings

| source | as written | input that shows it | evidently intended | confidence | as-written member | corrected member |
|---|---|---|---|---|---|---|
| decrypt.c:159-179 | `swap_in_trigram_matrix` exchanges only the cells holding both letters (`[i][a][b]`/`[i][b][a]`, `[a][i][b]`/`[b][i][a]`, `[a][b][i]`/`[b][a][i]`); a cell such as `[a][x][x]` stays put | the text "acc" with letters a and b exchanged: the update keeps the count for `acc`, where the profile of "bcc" has it at `bcc` | relabel all three axes by the transposition, as `swap_in_bigram_matrix` does for rows and columns, so that phase A compares the profile of the actual candidate (`Search.PhaseACorrected`) | not executed | Relabel.SwapTrigramMissesAcc | Relabel.RelabelTrigramTracksText |
| charemap.c:49-59 | `substitute(char c)` receives the `int` from `fgetc` as a `char`; where `char` is signed, a byte of 128 or more arrives negative and never equals the `unsigned char` `orig` of its row | an input holding the byte 0xE9: `initialize_relation` counts it and `associate` gives it a partner, yet `substitute` writes '?' | look up the byte as read, so that every counted character is replaced by its partner | not executed; applies only where plain `char` is signed | Charemap.SubstituteAsWrittenLosesLatin1 | Charemap.RemapRoundTrip |
