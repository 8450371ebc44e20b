/** The frequency remapper of charemap.c: count how often each (folded)
    character of the input occurs, sort the characters by decreasing count,
    give the i-th most frequent one the i-th character of the language map,
    and substitute every input character through that relation. Files are
    replaced by the text they hold. */
module Charemap {
  import opened Text
  import opened OccList

  /** One row of the relation array `r` (charemap.h): a character of the
      input, how often it occurs and what it is remapped to. */
  datatype Relation = Relation(orig: char, occ: nat, mapped: char)

  /** What a character without a partner becomes. */
  const Unmapped: char := '?'

  /** The input as the counters read it: folded to lower case unless the
      run is case sensitive. */
  function FoldText(s: seq<char>, cs: bool): (r: seq<char>)
    ensures |r| == |s|
    ensures forall i :: 0 <= i < |s| ==> r[i] == Fold(s[i], cs)
  {
    seq(|s|, i requires 0 <= i < |s| => Fold(s[i], cs))
  }

  function Origs(r: seq<Relation>): (o: seq<char>)
    ensures |o| == |r| && forall k :: 0 <= k < |r| ==> o[k] == r[k].orig
  {
    seq(|r|, k requires 0 <= k < |r| => r[k].orig)
  }

  predicate DistinctOrigs(r: seq<Relation>) {
    forall p, q :: 0 <= p < q < |r| ==> r[p].orig != r[q].orig
  }

  predicate DistinctNews(r: seq<Relation>) {
    forall p, q :: 0 <= p < q < |r| ==> r[p].mapped != r[q].mapped
  }

  /** Row of the first entry for `c`, or `|r|`: the scan from row 0 that
      both `initialize_relation` and `substitute` perform. */
  function Position(r: seq<Relation>, c: char): (k: nat)
    ensures k <= |r|
    ensures k < |r| ==> r[k].orig == c
    ensures k == |r| <==> c !in Origs(r)
  {
    if r == [] then 0 else if r[0].orig == c then 0 else 1 + Position(r[1..], c)
  }

  /** Index of the first occurrence of `c` in `xs`, or `|xs|`. */
  function FirstAt(xs: seq<char>, c: char): (i: nat)
    ensures i <= |xs|
    ensures i < |xs| <==> c in xs
  {
    if xs == [] then 0 else if xs[0] == c then 0 else 1 + FirstAt(xs[1..], c)
  }

  // ---------------------------------------------------------------------
  // initialize_relation

  /** One step of the counting loop of `initialize_relation`
      (charemap.c:99-116): a known character gets one more occurrence, a new
      one is appended with one occurrence and the placeholder partner. */
  function Tally(r: seq<Relation>, c: char): seq<Relation> {
    var k := Position(r, c);
    if k < |r| then r[k := r[k].(occ := r[k].occ + 1)] else r + [Relation(c, 1, Unmapped)]
  }

  /** The relation built from an already folded text, read left to right. */
  function Relate(xs: seq<char>): seq<Relation>
    decreases |xs|
  {
    if xs == [] then [] else Tally(Relate(xs[..|xs| - 1]), xs[|xs| - 1])
  }

  /** `initialize_relation` (charemap.c:85-119): the relation of the input,
      its length being the value the C returns. */
  function InitializeRelation(s: seq<char>, cs: bool): seq<Relation> {
    Relate(FoldText(s, cs))
  }

  lemma {:induction false} FirstAtSnoc(a: seq<char>, x: char, c: char)
    ensures c in a ==> FirstAt(a + [x], c) == FirstAt(a, c) < |a|
    ensures c !in a && c == x ==> FirstAt(a + [x], c) == |a|
    decreases |a|
  {
    if a != [] {
      assert (a + [x])[1..] == a[1..] + [x];
      FirstAtSnoc(a[1..], x, c);
    }
  }

  lemma CountInSnoc(a: seq<char>, x: char, c: char)
    ensures CountIn(a + [x], c) == CountIn(a, c) + (if c == x then 1 else 0)
  {
    CountInAppend(a, [x], c);
    assert [x][1..] == [];
  }

  /** Every character of `xs`, and nothing else, has a row. */
  predicate Covers(r: seq<Relation>, xs: seq<char>) {
    forall c :: c in Origs(r) <==> c in xs
  }

  /** Every row holds the number of occurrences of its character in `xs`. */
  predicate Counts(r: seq<Relation>, xs: seq<char>) {
    forall k :: 0 <= k < |r| ==> r[k].occ == CountIn(xs, r[k].orig)
  }

  /** Rows appear in the order in which `xs` first shows their characters. */
  predicate FirstSeenOrder(r: seq<Relation>, xs: seq<char>) {
    forall p, q :: 0 <= p < q < |r| ==> FirstAt(xs, r[p].orig) < FirstAt(xs, r[q].orig)
  }

  lemma {:induction false} RelateRows(xs: seq<char>)
    ensures DistinctOrigs(Relate(xs)) && Covers(Relate(xs), xs)
    ensures forall k :: 0 <= k < |Relate(xs)| ==> Relate(xs)[k].mapped == Unmapped
    decreases |xs|
  {
    if xs != [] {
      var a, x := xs[..|xs| - 1], xs[|xs| - 1];
      assert xs == a + [x];
      RelateRows(a);
      var r0 := Relate(a);
      var k := Position(r0, x);
      if k < |r0| {
        assert Relate(xs) == r0[k := r0[k].(occ := r0[k].occ + 1)];
        assert Origs(Relate(xs)) == Origs(r0);
      } else {
        assert Relate(xs) == r0 + [Relation(x, 1, Unmapped)];
        assert Origs(Relate(xs)) == Origs(r0) + [x];
      }
    }
  }

  lemma {:induction false} RelateCounts(xs: seq<char>)
    ensures Counts(Relate(xs), xs)
    decreases |xs|
  {
    if xs != [] {
      var a, x := xs[..|xs| - 1], xs[|xs| - 1];
      assert xs == a + [x];
      RelateCounts(a);
      RelateRows(a);
      var r0 := Relate(a);
      var k := Position(r0, x);
      forall c
        ensures CountIn(xs, c) == CountIn(a, c) + (if c == x then 1 else 0)
      {
        CountInSnoc(a, x, c);
      }
      if k < |r0| {
        assert Relate(xs) == r0[k := r0[k].(occ := r0[k].occ + 1)];
      } else {
        assert Relate(xs) == r0 + [Relation(x, 1, Unmapped)];
        assert x !in a by {
          assert x !in Origs(r0);
        }
        CountInPositiveIff(a, x);
      }
    }
  }

  lemma {:induction false} RelateOrder(xs: seq<char>)
    ensures FirstSeenOrder(Relate(xs), xs)
    decreases |xs|
  {
    if xs != [] {
      var a, x := xs[..|xs| - 1], xs[|xs| - 1];
      assert xs == a + [x];
      RelateOrder(a);
      RelateRows(a);
      OrderAfterTally(Relate(a), a, x);
    }
  }

  lemma OrderAfterTally(r0: seq<Relation>, a: seq<char>, x: char)
    requires Covers(r0, a) && FirstSeenOrder(r0, a)
    ensures FirstSeenOrder(Tally(r0, x), a + [x])
  {
    var r := Tally(r0, x);
    var k := Position(r0, x);
    OrderKeptBySnoc(r0, a, x);
    if k < |r0| {
      assert forall p :: 0 <= p < |r| ==> r[p].orig == r0[p].orig;
    } else {
      assert r == r0 + [Relation(x, 1, Unmapped)];
      FirstAtSnoc(a, x, x);
    }
  }

  /** Reading one more character does not move the first appearances of the
      characters already read. */
  lemma OrderKeptBySnoc(r0: seq<Relation>, a: seq<char>, x: char)
    requires Covers(r0, a) && FirstSeenOrder(r0, a)
    ensures FirstSeenOrder(r0, a + [x])
    ensures forall p :: 0 <= p < |r0| ==> FirstAt(a + [x], r0[p].orig) < |a|
  {
    forall p | 0 <= p < |r0|
      ensures FirstAt(a + [x], r0[p].orig) == FirstAt(a, r0[p].orig) < |a|
    {
      assert r0[p].orig in Origs(r0);
      FirstAtSnoc(a, x, r0[p].orig);
    }
  }

  /** The relation holds each character of the text exactly once, in the
      order of first appearance, with its number of occurrences and the
      placeholder partner, and nothing else. */
  lemma RelateSpec(xs: seq<char>)
    ensures DistinctOrigs(Relate(xs)) && Covers(Relate(xs), xs)
    ensures Counts(Relate(xs), xs) && FirstSeenOrder(Relate(xs), xs)
    ensures forall k :: 0 <= k < |Relate(xs)| ==> Relate(xs)[k].mapped == Unmapped
  {
    RelateRows(xs);
    RelateCounts(xs);
    RelateOrder(xs);
  }

  lemma {:induction false} CountInPositiveIff(xs: seq<char>, c: char)
    ensures CountIn(xs, c) >= 1 <==> c in xs
    decreases |xs|
  {
    if xs != [] {
      CountInPositiveIff(xs[1..], c);
      assert xs == [xs[0]] + xs[1..];
    }
  }

  /** `initialize_relation` lists each character of the folded input once,
      in order of first appearance, with its (positive) number of
      occurrences; so the row count it returns is the number of distinct
      characters read. */
  lemma InitializeRelationSpec(s: seq<char>, cs: bool)
    ensures DistinctOrigs(InitializeRelation(s, cs)) && Covers(InitializeRelation(s, cs), FoldText(s, cs))
    ensures Counts(InitializeRelation(s, cs), FoldText(s, cs)) && FirstSeenOrder(InitializeRelation(s, cs), FoldText(s, cs))
    ensures forall i :: 0 <= i < |s| ==> Fold(s[i], cs) in Origs(InitializeRelation(s, cs))
    ensures forall k :: 0 <= k < |InitializeRelation(s, cs)| ==>
              InitializeRelation(s, cs)[k].occ >= 1 && InitializeRelation(s, cs)[k].mapped == Unmapped
  {
    var xs := FoldText(s, cs);
    RelateSpec(xs);
    forall i | 0 <= i < |s|
      ensures Fold(s[i], cs) in Origs(Relate(xs))
    {
      assert xs[i] in xs;
    }
    forall k | 0 <= k < |Relate(xs)|
      ensures Relate(xs)[k].occ >= 1
    {
      var c := Relate(xs)[k].orig;
      assert c in Origs(Relate(xs));
      CountInPositiveIff(xs, c);
    }
  }

  /** Reordering the rows keeps which characters have rows and their
      counts. */
  lemma PermutedRows(r0: seq<Relation>, r: seq<Relation>, xs: seq<char>)
    requires multiset(r) == multiset(r0)
    requires Covers(r0, xs) && Counts(r0, xs)
    ensures Covers(r, xs) && Counts(r, xs)
  {
    forall c
      ensures c in Origs(r) <==> c in Origs(r0)
    {
      if c in Origs(r) {
        var k :| 0 <= k < |r| && Origs(r)[k] == c;
        var p := RowOf(r, r0, k);
        assert Origs(r0)[p] == c;
      }
      if c in Origs(r0) {
        var p :| 0 <= p < |r0| && Origs(r0)[p] == c;
        var k := RowOf(r0, r, p);
        assert Origs(r)[k] == c;
      }
    }
    forall k | 0 <= k < |r|
      ensures r[k].occ == CountIn(xs, r[k].orig)
    {
      var p := RowOf(r, r0, k);
    }
  }

  /** Where row `k` of `r` sits in a permutation `r0` of it. */
  lemma RowOf(r: seq<Relation>, r0: seq<Relation>, k: int) returns (p: int)
    requires multiset(r) == multiset(r0) && 0 <= k < |r|
    ensures 0 <= p < |r0| && r0[p] == r[k]
  {
    assert r[k] in multiset(r);
    assert r[k] in r0;
    p :| 0 <= p < |r0| && r0[p] == r[k];
  }

  // ---------------------------------------------------------------------
  // sort_by_occ

  predicate OccSorted(r: seq<Relation>) {
    forall p, q :: 0 <= p < q < |r| ==> r[p].occ >= r[q].occ
  }

  /** Rows from `s` on are in their final place: sorted among themselves and
      occurring no more often than any row before `s`. */
  predicate Settled(r: seq<Relation>, s: int) {
    (forall p, q :: 0 <= p < q < |r| && s <= p ==> r[p].occ >= r[q].occ)
    && (forall p, q :: 0 <= p < s <= q < |r| ==> r[p].occ >= r[q].occ)
  }

  /** Rows of equal count appear in the order they had in `r0`. */
  predicate Stable(r0: seq<Relation>, r: seq<Relation>) {
    forall p, q :: 0 <= p < q < |r| && r[p].occ == r[q].occ ==> Position(r0, r[p].orig) < Position(r0, r[q].orig)
  }

  function Exchange(r: seq<Relation>, j: int): (r': seq<Relation>)
    requires 0 <= j < |r| - 1
    ensures |r'| == |r| && multiset(r') == multiset(r)
    ensures r'[j] == r[j + 1] && r'[j + 1] == r[j]
    ensures forall p :: 0 <= p < |r| && p != j && p != j + 1 ==> r'[p] == r[p]
  {
    var r' := r[j := r[j + 1]][j + 1 := r[j]];
    assert r' == r[..j] + [r[j + 1], r[j]] + r[j + 2..];
    assert r == r[..j] + [r[j], r[j + 1]] + r[j + 2..];
    r'
  }

  /** Exchanging adjacent rows of different counts keeps the relative order
      of rows with equal counts, and keeps the rows distinct. */
  lemma ExchangeKeeps(r0: seq<Relation>, r: seq<Relation>, j: int)
    requires 0 <= j < |r| - 1 && r[j].occ != r[j + 1].occ
    ensures Stable(r0, r) ==> Stable(r0, Exchange(r, j))
    ensures DistinctOrigs(r) ==> DistinctOrigs(Exchange(r, j))
  {
    var r' := Exchange(r, j);
    var from := (p: int) => if p == j then j + 1 else if p == j + 1 then j else p;
    forall p, q | 0 <= p < q < |r'|
      ensures r'[p] == r[from(p)] && r'[q] == r[from(q)]
      ensures r'[p].occ == r'[q].occ ==> from(p) < from(q)
    {
    }
  }

  /** What holds after `j` steps of a pass that starts with rows `s..`
      settled: those rows are untouched, and the row at `j` (or at `s - 1`,
      once the scan has passed it) occurs no more often than any row before
      it. */
  predicate PassInv(r: seq<Relation>, s: int, j: int) {
    && 0 <= j <= |r| - 1
    && Settled(r, s)
    && (j < s ==> forall p :: 0 <= p < j ==> r[p].occ >= r[j].occ)
    && (j >= s - 1 ==> forall p :: 0 <= p < s - 1 ==> r[p].occ >= r[s - 1].occ)
  }

  /** One comparison of the inner loop: exchange rows `j` and `j + 1` when
      row `j` occurs strictly less often. */
  function Step(r: seq<Relation>, j: int): (r': seq<Relation>)
    requires 0 <= j < |r| - 1
    ensures |r'| == |r| && multiset(r') == multiset(r)
  {
    if r[j].occ < r[j + 1].occ then Exchange(r, j) else r
  }

  lemma StepKeeps(r: seq<Relation>, s: int, j: int)
    requires 1 <= s <= |r| && j < |r| - 1 && PassInv(r, s, j)
    ensures PassInv(Step(r, j), s, j + 1)
    ensures j >= s - 1 ==> Step(r, j) == r
  {
    if j >= s {
      assert r[j].occ >= r[j + 1].occ;
    } else if j == s - 1 {
      assert r[j].occ >= r[j + 1].occ;
    }
  }

  /** One pass of the inner loop of `sort_by_occ` (charemap.c:67-72): every
      adjacent pair is compared once, left to right, and exchanged when the
      left row occurs strictly less often. Row `s - 1` becomes settled. */
  method BubblePass(r0: seq<Relation>, s: int, ghost orig: seq<Relation>) returns (r: seq<Relation>)
    requires 1 <= s <= |r0| && Settled(r0, s)
    ensures |r| == |r0| && multiset(r) == multiset(r0)
    ensures Settled(r, s - 1)
    ensures Stable(orig, r0) ==> Stable(orig, r)
    ensures DistinctOrigs(r0) ==> DistinctOrigs(r)
  {
    r := r0;
    var j := 0;
    while j < |r| - 1
      invariant |r| == |r0| && multiset(r) == multiset(r0)
      invariant PassInv(r, s, j)
      invariant Stable(orig, r0) ==> Stable(orig, r)
      invariant DistinctOrigs(r0) ==> DistinctOrigs(r)
    {
      StepKeeps(r, s, j);
      if r[j].occ < r[j + 1].occ {
        ExchangeKeeps(orig, r, j);
        r := Exchange(r, j);
      }
      j := j + 1;
    }
    PassSettles(r, s);
  }

  /** At the end of the pass row `s - 1` joins the settled rows. */
  lemma PassSettles(r: seq<Relation>, s: int)
    requires 1 <= s <= |r| && PassInv(r, s, |r| - 1)
    ensures Settled(r, s - 1)
  {
  }

  /** `sort_by_occ` (charemap.c:61-73): `rl - 1` bubble passes. The result
      is a permutation of the rows, sorted by non-increasing count, and the
      sort is stable, so rows of equal count keep the order in which
      `initialize_relation` met their characters. */
  method SortByOcc(r0: seq<Relation>) returns (r: seq<Relation>)
    ensures multiset(r) == multiset(r0)
    ensures OccSorted(r)
    ensures DistinctOrigs(r0) ==> DistinctOrigs(r) && Stable(r0, r)
  {
    r := r0;
    var i := 1;
    while i < |r0|
      invariant 1 <= i <= |r0| + 1 && |r| == |r0|
      invariant 0 <= |r| - i + 1
      invariant multiset(r) == multiset(r0)
      invariant Settled(r, |r| - i + 1)
      invariant DistinctOrigs(r0) ==> DistinctOrigs(r) && Stable(r0, r)
      decreases |r0| - i
    {
      r := BubblePass(r, |r| - i + 1, r0);
      i := i + 1;
    }
  }

  // ---------------------------------------------------------------------
  // associate

  /** In alpha-only mode a non-letter is its own partner and uses no
      character of the map. */
  predicate SelfMapped(c: char, alphaOnly: bool) {
    alphaOnly && !IsAlpha(c)
  }

  /** `associate` (charemap.c:121-135): walk the rows in order, handing out
      the characters of the language map one by one; a row left when the
      map is used up gets the placeholder. */
  function Associate(r: seq<Relation>, m: seq<char>, alphaOnly: bool): (a: seq<Relation>)
    ensures |a| == |r|
    ensures forall k :: 0 <= k < |r| ==> a[k].orig == r[k].orig && a[k].occ == r[k].occ
  {
    if r == [] then []
    else if SelfMapped(r[0].orig, alphaOnly) then [r[0].(mapped := r[0].orig)] + Associate(r[1..], m, alphaOnly)
    else if m != [] then [r[0].(mapped := m[0])] + Associate(r[1..], m[1..], alphaOnly)
    else [r[0].(mapped := Unmapped)] + Associate(r[1..], [], alphaOnly)
  }

  /** How many of the rows take a character from the map. */
  function Slots(os: seq<char>, alphaOnly: bool): (n: nat)
    ensures n <= |os|
  {
    if os == [] then 0 else (if SelfMapped(os[0], alphaOnly) then 0 else 1) + Slots(os[1..], alphaOnly)
  }

  /** The partner of row `k`: itself when self-mapped, otherwise the map
      character whose index is the number of earlier rows that took one,
      or the placeholder once the map is exhausted. */
  function PartnerOf(r: seq<Relation>, m: seq<char>, alphaOnly: bool, k: int): char
    requires 0 <= k < |r|
  {
    var j := Slots(Origs(r)[..k], alphaOnly);
    if SelfMapped(r[k].orig, alphaOnly) then r[k].orig else if j < |m| then m[j] else Unmapped
  }

  /** What is left of the map once row `c` has been given its partner. */
  function MapAfter(c: char, m: seq<char>, alphaOnly: bool): seq<char> {
    if SelfMapped(c, alphaOnly) then m else if m != [] then m[1..] else []
  }

  lemma {:induction false} AssociateSpec(r: seq<Relation>, m: seq<char>, alphaOnly: bool)
    ensures forall k :: 0 <= k < |r| ==> Associate(r, m, alphaOnly)[k].mapped == PartnerOf(r, m, alphaOnly, k)
    decreases |r|
  {
    if r != [] {
      var m' := MapAfter(r[0].orig, m, alphaOnly);
      AssociateSpec(r[1..], m', alphaOnly);
      assert Origs(r)[..0] == [];
      assert Associate(r, m, alphaOnly) == [Associate(r, m, alphaOnly)[0]] + Associate(r[1..], m', alphaOnly);
      forall k | 1 <= k < |r|
        ensures Associate(r, m, alphaOnly)[k].mapped == PartnerOf(r, m, alphaOnly, k)
      {
        PartnerStep(r, m, alphaOnly, k);
      }
    }
  }

  /** The partner of row `k` is the partner of row `k - 1` among the
      remaining rows, given the remaining map. */
  lemma PartnerStep(r: seq<Relation>, m: seq<char>, alphaOnly: bool, k: int)
    requires 1 <= k < |r|
    ensures PartnerOf(r, m, alphaOnly, k) == PartnerOf(r[1..], MapAfter(r[0].orig, m, alphaOnly), alphaOnly, k - 1)
  {
    var os := Origs(r)[..k];
    assert os[0] == r[0].orig;
    assert os[1..] == Origs(r[1..])[..k - 1];
  }

  /** Without alpha-only mode the row at rank `k` gets the `k`-th map
      character (or the placeholder past the end of the map). */
  lemma {:induction false} AssociateByRank(r: seq<Relation>, m: seq<char>)
    ensures forall k :: 0 <= k < |r| ==> Associate(r, m, false)[k].mapped == (if k < |m| then m[k] else Unmapped)
  {
    AssociateSpec(r, m, false);
    forall k | 0 <= k < |r|
      ensures Slots(Origs(r)[..k], false) == k
    {
      SlotsAll(Origs(r)[..k]);
    }
  }

  lemma {:induction false} SlotsAll(os: seq<char>)
    ensures Slots(os, false) == |os|
    decreases |os|
  {
    if os != [] {
      SlotsAll(os[1..]);
    }
  }

  // ---------------------------------------------------------------------
  // substitute and remap_file_to_file

  /** `substitute` (charemap.c:49-59) on the character as read: the partner
      of the first row holding its folded form, or the placeholder. */
  function Substitute(r: seq<Relation>, c: char, cs: bool): char {
    var k := Position(r, Fold(c, cs));
    if k < |r| then r[k].mapped else Unmapped
  }

  lemma SubstituteSpec(r: seq<Relation>, c: char, cs: bool)
    requires DistinctOrigs(r)
    ensures forall k :: 0 <= k < |r| && r[k].orig == Fold(c, cs) ==> Substitute(r, c, cs) == r[k].mapped
    ensures Fold(c, cs) !in Origs(r) ==> Substitute(r, c, cs) == Unmapped
  {
  }

  /** `remap_file_to_file` (charemap.c:164-172): every character of the
      input is replaced by its substitute. */
  function Remap(s: seq<char>, r: seq<Relation>, cs: bool): (t: seq<char>)
    ensures |t| == |s|
  {
    if s == [] then [] else [Substitute(r, s[0], cs)] + Remap(s[1..], r, cs)
  }

  lemma {:induction false} RemapAt(s: seq<char>, r: seq<Relation>, cs: bool)
    ensures forall i :: 0 <= i < |s| ==> Remap(s, r, cs)[i] == Substitute(r, s[i], cs)
    decreases |s|
  {
    if s != [] {
      RemapAt(s[1..], r, cs);
    }
  }

  /** The relation read backwards: every partner mapped to its origin. */
  function Invert(r: seq<Relation>): (v: seq<Relation>)
    ensures |v| == |r|
    ensures forall k :: 0 <= k < |r| ==> v[k] == Relation(r[k].mapped, r[k].occ, r[k].orig)
  {
    seq(|r|, k requires 0 <= k < |r| => Relation(r[k].mapped, r[k].occ, r[k].orig))
  }

  /** A relation with distinct partners that covers the input is a true
      substitution cipher: remapping the output case-sensitively through
      the inverted relation gives back the folded input. */
  lemma RemapRoundTrip(s: seq<char>, r: seq<Relation>, cs: bool)
    requires DistinctOrigs(r) && DistinctNews(r)
    requires forall i :: 0 <= i < |s| ==> Fold(s[i], cs) in Origs(r)
    ensures Remap(Remap(s, r, cs), Invert(r), true) == FoldText(s, cs)
  {
    var t := Remap(s, r, cs);
    RemapAt(s, r, cs);
    RemapAt(t, Invert(r), true);
    forall i | 0 <= i < |s|
      ensures Remap(t, Invert(r), true)[i] == FoldText(s, cs)[i]
    {
      SubstituteInverts(r, s[i], cs);
    }
  }

  /** Substituting the substitute back through the inverted relation
      recovers the folded character. */
  lemma SubstituteInverts(r: seq<Relation>, c: char, cs: bool)
    requires DistinctOrigs(r) && DistinctNews(r)
    requires Fold(c, cs) in Origs(r)
    ensures Substitute(Invert(r), Substitute(r, c, cs), true) == Fold(c, cs)
  {
    var k := Position(r, Fold(c, cs));
    var d := Substitute(r, c, cs);
    assert d == r[k].mapped;
    assert Invert(r)[k].orig == d;
    var k' := Position(Invert(r), d);
    assert k' <= k;
    assert Invert(r)[k'].orig == r[k'].mapped;
  }

  /** Distinct characters of the folded input get distinct substitutes. */
  lemma RemapInjective(s: seq<char>, r: seq<Relation>, cs: bool, i: int, j: int)
    requires DistinctOrigs(r) && DistinctNews(r)
    requires 0 <= i < |s| && 0 <= j < |s|
    requires Fold(s[i], cs) in Origs(r) && Fold(s[j], cs) in Origs(r)
    ensures Remap(s, r, cs)[i] == Remap(s, r, cs)[j] <==> Fold(s[i], cs) == Fold(s[j], cs)
  {
    RemapAt(s, r, cs);
  }

  // ---------------------------------------------------------------------
  // the remapping run of main (charemap.c:279-283, 305-309)

  /** Rows of equal count appear in the order in which `xs` first shows
      their characters. */
  predicate TiesInOrder(r: seq<Relation>, xs: seq<char>) {
    forall p, q :: 0 <= p < q < |r| && r[p].occ == r[q].occ ==> FirstAt(xs, r[p].orig) < FirstAt(xs, r[q].orig)
  }

  /** The relation main builds (charemap.c:279-283): count, sort, pair with
      the language map. */
  method BuildRelation(s: seq<char>, m: seq<char>, cs: bool, alphaOnly: bool) returns (r: seq<Relation>)
    ensures DistinctOrigs(r) && OccSorted(r)
    ensures Covers(r, FoldText(s, cs)) && Counts(r, FoldText(s, cs)) && TiesInOrder(r, FoldText(s, cs))
    ensures forall k :: 0 <= k < |r| ==> r[k].mapped == PartnerOf(r, m, alphaOnly, k)
  {
    var xs := FoldText(s, cs);
    var r0 := InitializeRelation(s, cs);
    InitializeRelationSpec(s, cs);
    var sorted := SortByOcc(r0);
    PermutedRows(r0, sorted, xs);
    TiesInFirstSeenOrder(r0, sorted, xs);
    r := Associate(sorted, m, alphaOnly);
    AssociateSpec(sorted, m, alphaOnly);
    AssociateKeeps(sorted, m, alphaOnly, xs);
  }

  /** The remapping run of main (charemap.c:279-283, 305-309): every input
      character is replaced by the partner of its row; in alpha-only mode
      non-letters come out unchanged. */
  method RemapFile(s: seq<char>, m: seq<char>, cs: bool, alphaOnly: bool) returns (r: seq<Relation>, out: seq<char>)
    ensures DistinctOrigs(r) && OccSorted(r)
    ensures Covers(r, FoldText(s, cs)) && Counts(r, FoldText(s, cs)) && TiesInOrder(r, FoldText(s, cs))
    ensures forall k :: 0 <= k < |r| ==> r[k].mapped == PartnerOf(r, m, alphaOnly, k)
    ensures |out| == |s|
    ensures forall i :: 0 <= i < |s| ==> Position(r, Fold(s[i], cs)) < |r| && out[i] == r[Position(r, Fold(s[i], cs))].mapped
    ensures alphaOnly ==> forall i :: 0 <= i < |s| && !IsAlpha(s[i]) ==> out[i] == s[i]
  {
    r := BuildRelation(s, m, cs, alphaOnly);
    out := Remap(s, r, cs);
    RemapAt(s, r, cs);
    var xs := FoldText(s, cs);
    forall i | 0 <= i < |s|
      ensures Position(r, Fold(s[i], cs)) < |r|
    {
      assert xs[i] in xs;
    }
  }

  /** A stable reordering of a relation built in order of first appearance
      keeps rows of equal count in that order. */
  lemma TiesInFirstSeenOrder(r0: seq<Relation>, r: seq<Relation>, xs: seq<char>)
    requires DistinctOrigs(r0) && FirstSeenOrder(r0, xs) && Covers(r0, xs) && Covers(r, xs)
    requires Stable(r0, r)
    ensures TiesInOrder(r, xs)
  {
    forall p, q | 0 <= p < q < |r| && r[p].occ == r[q].occ
      ensures FirstAt(xs, r[p].orig) < FirstAt(xs, r[q].orig)
    {
      assert r[p].orig in Origs(r) && r[q].orig in Origs(r);
      var p0, q0 := Position(r0, r[p].orig), Position(r0, r[q].orig);
      assert r0[p0].orig == r[p].orig && r0[q0].orig == r[q].orig;
    }
  }

  /** `associate` only fills in partners, so the row facts survive it. */
  lemma AssociateKeeps(r: seq<Relation>, m: seq<char>, alphaOnly: bool, xs: seq<char>)
    ensures Origs(Associate(r, m, alphaOnly)) == Origs(r)
    ensures DistinctOrigs(r) ==> DistinctOrigs(Associate(r, m, alphaOnly))
    ensures OccSorted(r) ==> OccSorted(Associate(r, m, alphaOnly))
    ensures Covers(r, xs) ==> Covers(Associate(r, m, alphaOnly), xs)
    ensures Counts(r, xs) ==> Counts(Associate(r, m, alphaOnly), xs)
    ensures TiesInOrder(r, xs) ==> TiesInOrder(Associate(r, m, alphaOnly), xs)
  {
    assert Origs(Associate(r, m, alphaOnly)) == Origs(r);
  }

  // ---------------------------------------------------------------------
  // substitute as compiled where plain `char` is signed

  /** The value a byte read by `fgetc` has once passed as a signed `char`. */
  function SignedChar(c: char): int
    requires c as int < 256
  {
    if c as int >= 128 then c as int - 256 else c as int
  }

  function LookupValue(r: seq<Relation>, v: int): char {
    if r == [] then Unmapped else if r[0].orig as int == v then r[0].mapped else LookupValue(r[1..], v)
  }

  /** `substitute` as written: the parameter is a `char`, so a byte of 128
      or more arrives negative, is folded as a value, and is compared with
      the unsigned `orig` of each row. */
  function SubstituteAsWritten(r: seq<Relation>, c: char, cs: bool): char
    requires c as int < 256
  {
    var v := SignedChar(c);
    LookupValue(r, if !cs && 65 <= v <= 90 then v + 32 else v)
  }

  lemma {:induction false} LookupValuePosition(r: seq<Relation>, c: char)
    ensures LookupValue(r, c as int) == (if Position(r, c) < |r| then r[Position(r, c)].mapped else Unmapped)
    decreases |r|
  {
    if r != [] && r[0].orig != c {
      LookupValuePosition(r[1..], c);
    }
  }

  lemma {:induction false} LookupNegative(r: seq<Relation>, v: int)
    requires v < 0
    ensures LookupValue(r, v) == Unmapped
    decreases |r|
  {
    if r != [] {
      LookupNegative(r[1..], v);
    }
  }

  /** On ASCII input the code as written agrees with `Substitute`. */
  lemma SubstituteAsWrittenAscii(r: seq<Relation>, c: char, cs: bool)
    requires c as int < 128
    ensures SubstituteAsWritten(r, c, cs) == Substitute(r, c, cs)
  {
    LookupValuePosition(r, Fold(c, cs));
  }

  /** A byte of 128 or more is never found, whatever the relation says. */
  lemma SubstituteAsWrittenHighByte(r: seq<Relation>, c: char, cs: bool)
    requires 128 <= c as int < 256
    ensures SubstituteAsWritten(r, c, cs) == Unmapped
  {
    LookupNegative(r, SignedChar(c));
  }

  /** The byte 0xE9 ('é' in Latin-1) is counted and paired with 'e', yet the
      code as written substitutes the placeholder for it. */
  lemma SubstituteAsWrittenLosesLatin1()
    ensures InitializeRelation("é", false) == [Relation('é', 1, Unmapped)]
    ensures Substitute([Relation('é', 1, 'e')], 'é', false) == 'e'
    ensures SubstituteAsWritten([Relation('é', 1, 'e')], 'é', false) == Unmapped
  {
    assert FoldText("é", false) == "é";
    assert "é"[..0] == [];
    SubstituteAsWrittenHighByte([Relation('é', 1, 'e')], 'é', false);
  }
}
