/** The sorted occurrence lists of utils.c (a GList of `Bigram`, `Trigram`
    or `Word` records): distinct items, each with its number of occurrences,
    kept in non-increasing order of occurrences. A new item is appended with
    one occurrence; an item seen again is incremented and then moved forward
    by `bubble_up` past predecessors with strictly fewer occurrences
    (utils.c:17-37, 59-78, 110-131, 164-182). */
module OccList {

  datatype Entry<T> = Entry(item: T, occ: nat)

  predicate Distinct<T(==)>(l: seq<Entry<T>>) {
    forall i, j :: 0 <= i < j < |l| ==> l[i].item != l[j].item
  }

  /** Non-increasing in occurrences. */
  predicate SortedDesc<T>(l: seq<Entry<T>>) {
    forall i, j :: 0 <= i < j < |l| ==> l[i].occ >= l[j].occ
  }

  predicate Positive<T>(l: seq<Entry<T>>) {
    forall i :: 0 <= i < |l| ==> l[i].occ >= 1
  }

  /** The occurrences recorded for `x` (summed over the entries holding it,
      so that the definition does not depend on the order of the list). */
  function OccOf<T(==)>(l: seq<Entry<T>>, x: T): nat {
    if l == [] then 0 else (if l[0].item == x then l[0].occ else 0) + OccOf(l[1..], x)
  }

  /** Sum of all occurrence counts. */
  function Total<T>(l: seq<Entry<T>>): nat {
    if l == [] then 0 else l[0].occ + Total(l[1..])
  }

  /** Number of times `x` occurs in `xs`. */
  function CountIn<T(==)>(xs: seq<T>, x: T): nat {
    if xs == [] then 0 else (if xs[0] == x then 1 else 0) + CountIn(xs[1..], x)
  }

  /** Position of the entry holding `x`, or `|l|` when there is none: the
      linear scan from the head of the list. */
  function Find<T(==)>(l: seq<Entry<T>>, x: T): (i: nat)
    ensures i <= |l|
    ensures i < |l| ==> l[i].item == x
    ensures forall k :: 0 <= k < i ==> l[k].item != x
  {
    if l == [] then 0 else if l[0].item == x then 0 else 1 + Find(l[1..], x)
  }

  /** `bubble_up`: exchange the node at `i` with its predecessor, leaving the
      rest of the list in place. */
  function BubbleUp<T>(l: seq<Entry<T>>, i: int): (r: seq<Entry<T>>)
    requires 0 < i < |l|
    ensures |r| == |l|
    ensures r[i - 1] == l[i] && r[i] == l[i - 1]
    ensures forall p :: 0 <= p < |l| && p != i - 1 && p != i ==> r[p] == l[p]
  {
    l[i - 1 := l[i]][i := l[i - 1]]
  }

  /** The loop that follows an increment: bubble the entry at `i` up while its
      predecessor has strictly fewer occurrences. */
  function BubbleFrom<T>(l: seq<Entry<T>>, i: int): (r: seq<Entry<T>>)
    requires 0 <= i < |l|
    ensures |r| == |l|
    decreases i
  {
    if i > 0 && l[i - 1].occ < l[i].occ then BubbleFrom(BubbleUp(l, i), i - 1) else l
  }

  /** Count one more occurrence of `x`. */
  function Record<T(==)>(l: seq<Entry<T>>, x: T): seq<Entry<T>> {
    var i := Find(l, x);
    if i == |l| then l + [Entry(x, 1)]
    else BubbleFrom(l[i := Entry(x, l[i].occ + 1)], i)
  }

  /** Count every item of `xs`, in order, into `l`. */
  function RecordAll<T(==)>(l: seq<Entry<T>>, xs: seq<T>): seq<Entry<T>>
    decreases |xs|
  {
    if xs == [] then l else RecordAll(Record(l, xs[0]), xs[1..])
  }

  // ---------------------------------------------------------------------
  // Concatenation facts

  lemma {:induction false} OccOfAppend<T>(a: seq<Entry<T>>, b: seq<Entry<T>>, x: T)
    ensures OccOf(a + b, x) == OccOf(a, x) + OccOf(b, x)
    decreases |a|
  {
    if a == [] {
      assert a + b == b;
    } else {
      assert (a + b)[1..] == a[1..] + b;
      OccOfAppend(a[1..], b, x);
    }
  }

  lemma {:induction false} TotalAppend<T>(a: seq<Entry<T>>, b: seq<Entry<T>>)
    ensures Total(a + b) == Total(a) + Total(b)
    decreases |a|
  {
    if a == [] {
      assert a + b == b;
    } else {
      assert (a + b)[1..] == a[1..] + b;
      TotalAppend(a[1..], b);
    }
  }

  lemma {:induction false} CountInAppend<T>(a: seq<T>, b: seq<T>, x: T)
    ensures CountIn(a + b, x) == CountIn(a, x) + CountIn(b, x)
    decreases |a|
  {
    if a == [] {
      assert a + b == b;
    } else {
      assert (a + b)[1..] == a[1..] + b;
      CountInAppend(a[1..], b, x);
    }
  }

  /** Replacing one entry changes the counts by the difference. */
  lemma UpdateCounts<T>(l: seq<Entry<T>>, i: int, e: Entry<T>, x: T)
    requires 0 <= i < |l|
    ensures OccOf(l[i := e], x) + OccOf([l[i]], x) == OccOf(l, x) + OccOf([e], x)
    ensures Total(l[i := e]) + l[i].occ == Total(l) + e.occ
  {
    assert l == l[..i] + [l[i]] + l[i + 1..];
    assert l[i := e] == l[..i] + [e] + l[i + 1..];
    OccOfAppend(l[..i] + [l[i]], l[i + 1..], x);
    OccOfAppend(l[..i], [l[i]], x);
    OccOfAppend(l[..i] + [e], l[i + 1..], x);
    OccOfAppend(l[..i], [e], x);
    TotalAppend(l[..i] + [l[i]], l[i + 1..]);
    TotalAppend(l[..i], [l[i]]);
    TotalAppend(l[..i] + [e], l[i + 1..]);
    TotalAppend(l[..i], [e]);
  }

  // ---------------------------------------------------------------------
  // bubble_up

  /** The exchange written as a split of the list around the pair. */
  lemma BubbleUpSplit<T>(l: seq<Entry<T>>, i: int)
    requires 0 < i < |l|
    ensures BubbleUp(l, i) == l[..i - 1] + [l[i], l[i - 1]] + l[i + 1..]
  {
  }

  /** ... and changes neither the counts nor distinctness. */
  lemma BubbleUpKeeps<T>(l: seq<Entry<T>>, i: int)
    requires 0 < i < |l|
    ensures forall x :: OccOf(BubbleUp(l, i), x) == OccOf(l, x)
    ensures Total(BubbleUp(l, i)) == Total(l)
    ensures Distinct(l) ==> Distinct(BubbleUp(l, i))
  {
    BubbleUpSplit(l, i);
    BubbleUpCounts(l, i);
    if Distinct(l) {
      var r := BubbleUp(l, i);
      forall p, q | 0 <= p < q < |r|
        ensures r[p].item != r[q].item
      {
        var p' := if p == i - 1 then i else if p == i then i - 1 else p;
        var q' := if q == i - 1 then i else if q == i then i - 1 else q;
        assert r[p] == l[p'] && r[q] == l[q'];
      }
    }
  }

  lemma BubbleUpCounts<T>(l: seq<Entry<T>>, i: int)
    requires 0 < i < |l|
    ensures forall x :: OccOf(BubbleUp(l, i), x) == OccOf(l, x)
    ensures Total(BubbleUp(l, i)) == Total(l)
  {
    var a, b := l[..i - 1], l[i + 1..];
    var u, v := [l[i - 1], l[i]], [l[i], l[i - 1]];
    assert l == a + u + b;
    BubbleUpSplit(l, i);
    forall x
      ensures OccOf(BubbleUp(l, i), x) == OccOf(l, x)
    {
      OccOfAppend(a + v, b, x);
      OccOfAppend(a, v, x);
      OccOfAppend(a + u, b, x);
      OccOfAppend(a, u, x);
      PairCounts(l[i - 1], l[i], x);
    }
    TotalAppend(a + v, b);
    TotalAppend(a, v);
    TotalAppend(a + u, b);
    TotalAppend(a, u);
    PairCounts(l[i - 1], l[i], l[i].item);
  }

  lemma PairCounts<T>(e: Entry<T>, f: Entry<T>, x: T)
    ensures OccOf([e, f], x) == OccOf([f, e], x)
    ensures Total([e, f]) == Total([f, e])
  {
    assert [e, f][1..] == [f] && [f, e][1..] == [e];
    assert [e][1..] == [] && [f][1..] == [];
  }

  /** Where the bubbled entry `l[i]` lands: at position `j`, having passed
      exactly the entries `l[j..i]`, all with strictly fewer occurrences, and
      stopping behind an entry with at least as many (or at the head). */
  ghost predicate LandsAt<T>(l: seq<Entry<T>>, i: int, r: seq<Entry<T>>, j: int)
    requires 0 <= i < |l|
  {
    && 0 <= j <= i
    && r == l[..j] + [l[i]] + l[j..i] + l[i + 1..]
    && (forall k :: j <= k < i ==> l[k].occ < l[i].occ)
    && (j == 0 || l[j - 1].occ >= l[i].occ)
  }

  /** The bubbling loop moves only the entry it started from, only past
      predecessors with strictly fewer occurrences, and keeps the relative
      order of every other entry: entries with as many occurrences stay
      ahead of it. */
  lemma {:induction false} BubbleFromLands<T>(l: seq<Entry<T>>, i: int) returns (j: int)
    requires 0 <= i < |l|
    ensures LandsAt(l, i, BubbleFrom(l, i), j)
    decreases i
  {
    if i > 0 && l[i - 1].occ < l[i].occ {
      var l' := BubbleUp(l, i);
      BubbleUpSplit(l, i);
      j := BubbleFromLands(l', i - 1);
      var r := BubbleFrom(l', i - 1);
      assert r == BubbleFrom(l, i);
      LandsAtStep(l, i, r, j);
    } else {
      j := i;
      assert l == l[..i] + [l[i]] + l[i..i] + l[i + 1..];
    }
  }

  /** One more exchange at the front of the bubbling run. */
  lemma LandsAtStep<T>(l: seq<Entry<T>>, i: int, r: seq<Entry<T>>, j: int)
    requires 0 < i < |l| && l[i - 1].occ < l[i].occ
    requires LandsAt(BubbleUp(l, i), i - 1, r, j)
    ensures LandsAt(l, i, r, j)
  {
    var l' := BubbleUp(l, i);
    BubbleUpSplit(l, i);
    assert r == l'[..j] + [l'[i - 1]] + l'[j..i - 1] + l'[i..];
    assert l'[..j] == l[..j];
    assert l'[j..i - 1] == l[j..i - 1];
    assert l'[i..] == [l[i - 1]] + l[i + 1..];
    assert l[j..i] == l[j..i - 1] + [l[i - 1]];
    forall k | j <= k < i
      ensures l[k].occ < l[i].occ
    {
      if k < i - 1 {
        assert l'[k] == l[k];
      }
    }
    if j > 0 {
      assert l'[j - 1] == l[j - 1];
    }
  }

  /** The bubbling loop changes neither the counts nor distinctness. */
  lemma {:induction false} BubbleFromKeeps<T>(l: seq<Entry<T>>, i: int)
    requires 0 <= i < |l|
    ensures forall x :: OccOf(BubbleFrom(l, i), x) == OccOf(l, x)
    ensures Total(BubbleFrom(l, i)) == Total(l)
    ensures Distinct(l) ==> Distinct(BubbleFrom(l, i))
    ensures Positive(l) ==> Positive(BubbleFrom(l, i))
    decreases i
  {
    if i > 0 && l[i - 1].occ < l[i].occ {
      BubbleUpKeeps(l, i);
      BubbleFromKeeps(BubbleUp(l, i), i - 1);
    }
  }

  // ---------------------------------------------------------------------
  // Recording one occurrence

  /** Recording `x` adds one to its count and to the total, appends a new
      item at the tail with one occurrence, and keeps the list distinct,
      positive and sorted. */
  lemma RecordSpec<T>(l: seq<Entry<T>>, x: T)
    requires Distinct(l) && SortedDesc(l) && Positive(l)
    ensures Distinct(Record(l, x)) && SortedDesc(Record(l, x)) && Positive(Record(l, x))
    ensures forall y :: OccOf(Record(l, x), y) == OccOf(l, y) + (if y == x then 1 else 0)
    ensures Total(Record(l, x)) == Total(l) + 1
    ensures Find(l, x) == |l| ==> Record(l, x) == l + [Entry(x, 1)]
    ensures Find(l, x) < |l| ==> |Record(l, x)| == |l|
  {
    if Find(l, x) == |l| {
      RecordNew(l, x);
    } else {
      RecordSeen(l, x);
    }
  }

  /** Recording an item not yet listed appends it with one occurrence. */
  lemma RecordNew<T>(l: seq<Entry<T>>, x: T)
    requires Distinct(l) && SortedDesc(l) && Positive(l) && Find(l, x) == |l|
    ensures Record(l, x) == l + [Entry(x, 1)]
    ensures Distinct(Record(l, x)) && SortedDesc(Record(l, x)) && Positive(Record(l, x))
    ensures forall y :: OccOf(Record(l, x), y) == OccOf(l, y) + (if y == x then 1 else 0)
    ensures Total(Record(l, x)) == Total(l) + 1
  {
    SnocCounts(l, Entry(x, 1));
    SnocNew(l, x);
  }

  /** Appending an item not yet listed, with one occurrence, keeps the list
      distinct, positive and sorted. */
  lemma SnocNew<T>(l: seq<Entry<T>>, x: T)
    requires Distinct(l) && SortedDesc(l) && Positive(l)
    requires forall k :: 0 <= k < |l| ==> l[k].item != x
    ensures Distinct(l + [Entry(x, 1)]) && SortedDesc(l + [Entry(x, 1)]) && Positive(l + [Entry(x, 1)])
  {
    var r := l + [Entry(x, 1)];
    forall p, q | 0 <= p < q < |r|
      ensures r[p].item != r[q].item && r[p].occ >= r[q].occ
    {
      assert r[p] == l[p];
    }
  }

  lemma SnocCounts<T>(l: seq<Entry<T>>, e: Entry<T>)
    ensures forall y :: OccOf(l + [e], y) == OccOf(l, y) + (if y == e.item then e.occ else 0)
    ensures Total(l + [e]) == Total(l) + e.occ
  {
    assert [e][1..] == [];
    forall y
      ensures OccOf(l + [e], y) == OccOf(l, y) + (if y == e.item then e.occ else 0)
    {
      OccOfAppend(l, [e], y);
    }
    TotalAppend(l, [e]);
  }

  /** Recording a listed item increments it and bubbles it forward. */
  lemma RecordSeen<T>(l: seq<Entry<T>>, x: T)
    requires Distinct(l) && SortedDesc(l) && Positive(l) && Find(l, x) < |l|
    ensures |Record(l, x)| == |l|
    ensures Distinct(Record(l, x)) && SortedDesc(Record(l, x)) && Positive(Record(l, x))
    ensures forall y :: OccOf(Record(l, x), y) == OccOf(l, y) + (if y == x then 1 else 0)
    ensures Total(Record(l, x)) == Total(l) + 1
  {
    var i := Find(l, x);
    var r := Record(l, x);
    var e := Entry(x, l[i].occ + 1);
    var l' := l[i := e];
    assert r == BubbleFrom(l', i);
    IncrementCounts(l, i, x);
    assert Distinct(l') && Positive(l');
    BubbleFromKeeps(l', i);
    var j := BubbleFromLands(l', i);
    RecordSorted(l, i, e, r, j);
  }

  /** Incrementing the entry of `x` at position `i` adds one to the count of
      `x` and to the total, and to nothing else. */
  lemma IncrementCounts<T>(l: seq<Entry<T>>, i: int, x: T)
    requires 0 <= i < |l| && l[i].item == x
    ensures forall y :: OccOf(l[i := Entry(x, l[i].occ + 1)], y) == OccOf(l, y) + (if y == x then 1 else 0)
    ensures Total(l[i := Entry(x, l[i].occ + 1)]) == Total(l) + 1
  {
    var e := Entry(x, l[i].occ + 1);
    forall y
      ensures OccOf(l[i := e], y) == OccOf(l, y) + (if y == x then 1 else 0)
    {
      UpdateCounts(l, i, e, y);
      assert OccOf([l[i]], y) == (if l[i].item == y then l[i].occ else 0) + OccOf([l[i]][1..], y);
      assert OccOf([e], y) == (if e.item == y then e.occ else 0) + OccOf([e][1..], y);
    }
    UpdateCounts(l, i, e, x);
    assert Total([l[i]]) == l[i].occ + Total([l[i]][1..]);
    assert Total([e]) == e.occ + Total([e][1..]);
  }

  /** Sortedness after the increment: the incremented entry lands behind the
      entries with at least as many occurrences and ahead of the rest. */
  lemma RecordSorted<T>(l: seq<Entry<T>>, i: int, e: Entry<T>, r: seq<Entry<T>>, j: int)
    requires SortedDesc(l) && 0 <= i < |l|
    requires e.occ == l[i].occ + 1
    requires LandsAt(l[i := e], i, r, j)
    ensures SortedDesc(r)
  {
    var l' := l[i := e];
    assert |r| == |l|;
    forall k | 0 <= k < |r|
      ensures r[k] == (if k < j then l[k] else if k == j then e else if k <= i then l[k - 1] else l[k])
    {
      if k < j {
        assert r[k] == l'[..j][k];
      } else if k == j {
      } else if k <= i {
        assert r[k] == l'[j..i][k - j - 1];
      } else {
        assert r[k] == l'[i + 1..][k - i - 1];
      }
    }
  }

  // ---------------------------------------------------------------------
  // Recording a sequence of occurrences

  /** `count_bigrams`, `count_trigrams` and `count_words` record every item of
      their input into the list passed in: afterwards each item's count grew
      by its number of occurrences, the total grew by the number of items, and
      the list is still distinct and sorted. */
  lemma {:induction false} RecordAllSpec<T>(l: seq<Entry<T>>, xs: seq<T>)
    requires Distinct(l) && SortedDesc(l) && Positive(l)
    ensures Distinct(RecordAll(l, xs)) && SortedDesc(RecordAll(l, xs)) && Positive(RecordAll(l, xs))
    ensures forall y :: OccOf(RecordAll(l, xs), y) == OccOf(l, y) + CountIn(xs, y)
    ensures Total(RecordAll(l, xs)) == Total(l) + |xs|
    ensures |RecordAll(l, xs)| <= |l| + |xs|
    decreases |xs|
  {
    if xs != [] {
      RecordSpec(l, xs[0]);
      RecordAllSpec(Record(l, xs[0]), xs[1..]);
    }
  }

  /** In a distinct list of positive counts, an item is listed exactly when it
      has a positive count, and its entry carries that count. */
  lemma {:induction false} OccOfDistinct<T>(l: seq<Entry<T>>, k: int)
    requires Distinct(l) && 0 <= k < |l|
    ensures OccOf(l, l[k].item) == l[k].occ
    decreases |l|
  {
    if k > 0 {
      OccOfDistinct(l[1..], k - 1);
    } else {
      OccOfAbsent(l[1..], l[0].item);
    }
  }

  lemma {:induction false} OccOfAbsent<T>(l: seq<Entry<T>>, x: T)
    requires forall k :: 0 <= k < |l| ==> l[k].item != x
    ensures OccOf(l, x) == 0
    decreases |l|
  {
    if l != [] {
      OccOfAbsent(l[1..], x);
    }
  }
}
