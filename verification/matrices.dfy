/** The bigram (26x26) and trigram (26x26x26) matrices of decrypt.c, stored
    flat in row-major order, and the in-place "swap" updates the key search
    applies to them (decrypt.c:139-179). Each C update is a fixed sequence of
    two-cell exchanges; the model replays exactly that sequence. */
module Matrices {

  const Cells2: int := 676
  const Cells3: int := 17576

  /** Flat position of cell `[x][y]`. */
  function Idx2(x: int, y: int): int {
    26 * x + y
  }

  /** Flat position of cell `[x][y][z]`. */
  function Idx3(x: int, y: int, z: int): int {
    676 * x + 26 * y + z
  }

  predicate InAlphabet(x: int) {
    0 <= x < 26
  }

  lemma Idx2Cell(c: int)
    requires 0 <= c < Cells2
    ensures InAlphabet(c / 26) && InAlphabet(c % 26) && c == Idx2(c / 26, c % 26)
  {
  }

  lemma Idx3Cell(c: int)
    requires 0 <= c < Cells3
    ensures InAlphabet(c / 676) && InAlphabet(c % 676 / 26) && InAlphabet(c % 26)
    ensures c == Idx3(c / 676, c % 676 / 26, c % 26)
  {
  }

  lemma Idx3Injective(x: int, y: int, z: int, x': int, y': int, z': int)
    requires InAlphabet(x) && InAlphabet(y) && InAlphabet(z)
    requires InAlphabet(x') && InAlphabet(y') && InAlphabet(z')
    requires Idx3(x, y, z) == Idx3(x', y', z')
    ensures x == x' && y == y' && z == z'
  {
    assert 26 * y + z < 676 && 26 * y' + z' < 676;
    assert x == x';
    assert z < 26 && z' < 26;
  }

  /** The transposition of `a` and `b` on letter positions. */
  function Transpose(a: int, b: int, x: int): (r: int)
    ensures InAlphabet(a) && InAlphabet(b) && InAlphabet(x) ==> InAlphabet(r)
  {
    if x == a then b else if x == b then a else x
  }

  /** Exchange the contents of cells `p` and `q`. */
  function SwapCells<T>(m: seq<T>, p: int, q: int): (r: seq<T>)
    requires 0 <= p < |m| && 0 <= q < |m|
    ensures |r| == |m|
  {
    m[p := m[q]][q := m[p]]
  }

  predicate PairsIn(n: int, ps: seq<(int, int)>) {
    forall k :: 0 <= k < |ps| ==> 0 <= ps[k].0 < n && 0 <= ps[k].1 < n
  }

  /** Perform the exchanges `ps` one after the other, in order. */
  function ApplySwaps<T>(m: seq<T>, ps: seq<(int, int)>): (r: seq<T>)
    requires PairsIn(|m|, ps)
    ensures |r| == |m|
    decreases |ps|
  {
    if ps == [] then m else ApplySwaps(SwapCells(m, ps[0].0, ps[0].1), ps[1..])
  }

  /** The exchanges of `swap_in_bigram_matrix(m, a, b)`: first columns `a`
      and `b` of every row, then rows `a` and `b`. */
  function BigramSwaps(a: int, b: int): (ps: seq<(int, int)>)
    requires InAlphabet(a) && InAlphabet(b)
    ensures |ps| == 52 && PairsIn(Cells2, ps)
  {
    ColumnSwaps(a, b) + RowSwaps(a, b)
  }

  /** The exchanges of `swap_in_trigram_matrix(m, a, b)`: `[i][a][b]` with
      `[i][b][a]`, then `[a][i][b]` with `[b][i][a]`, then `[a][b][i]` with
      `[b][a][i]`, each for i = 0..25. */
  function TrigramSwaps(a: int, b: int): (ps: seq<(int, int)>)
    requires InAlphabet(a) && InAlphabet(b)
    ensures |ps| == 78 && PairsIn(Cells3, ps)
  {
    seq(26, i => (Idx3(i, a, b), Idx3(i, b, a)))
    + seq(26, i => (Idx3(a, i, b), Idx3(b, i, a)))
    + seq(26, i => (Idx3(a, b, i), Idx3(b, a, i)))
  }

  /** `swap_in_bigram_matrix`. */
  function SwapBigram<T>(m: seq<T>, a: int, b: int): (r: seq<T>)
    requires |m| == Cells2 && InAlphabet(a) && InAlphabet(b)
    ensures |r| == Cells2
  {
    ApplySwaps(m, BigramSwaps(a, b))
  }

  /** `swap_in_trigram_matrix`. */
  function SwapTrigram<T>(m: seq<T>, a: int, b: int): (r: seq<T>)
    requires |m| == Cells3 && InAlphabet(a) && InAlphabet(b)
    ensures |r| == Cells3
  {
    ApplySwaps(m, TrigramSwaps(a, b))
  }

  /** The matrix whose cell `[x][y]` is cell `[σx][σy]` of `m`, for the
      transposition σ of `a` and `b`: the profile of a text whose letters
      `a` and `b` have been exchanged. */
  function Relabel2<T>(m: seq<T>, a: int, b: int): (r: seq<T>)
    requires |m| == Cells2 && InAlphabet(a) && InAlphabet(b)
    ensures |r| == Cells2
  {
    seq(Cells2, c requires 0 <= c < Cells2 =>
      m[Idx2(Transpose(a, b, c / 26), Transpose(a, b, c % 26))])
  }

  /** The same relabelling for trigram matrices. */
  function Relabel3<T>(m: seq<T>, a: int, b: int): (r: seq<T>)
    requires |m| == Cells3 && InAlphabet(a) && InAlphabet(b)
    ensures |r| == Cells3
  {
    seq(Cells3, c requires 0 <= c < Cells3 =>
      m[Idx3(Transpose(a, b, c / 676), Transpose(a, b, c % 676 / 26), Transpose(a, b, c % 26))])
  }

  lemma Relabel3At<T>(m: seq<T>, a: int, b: int, x: int, y: int, z: int)
    requires |m| == Cells3 && InAlphabet(a) && InAlphabet(b)
    requires InAlphabet(x) && InAlphabet(y) && InAlphabet(z)
    ensures Relabel3(m, a, b)[Idx3(x, y, z)] == m[Idx3(Transpose(a, b, x), Transpose(a, b, y), Transpose(a, b, z))]
  {
    var c := Idx3(x, y, z);
    Idx3Cell(c);
    Idx3Injective(c / 676, c % 676 / 26, c % 26, x, y, z);
  }

  // ---------------------------------------------------------------------
  // General facts about sequences of exchanges

  lemma {:induction false} ApplySwapsAppend<T>(m: seq<T>, ps: seq<(int, int)>, qs: seq<(int, int)>)
    requires PairsIn(|m|, ps) && PairsIn(|m|, qs)
    ensures PairsIn(|m|, ps + qs)
    ensures ApplySwaps(m, ps + qs) == ApplySwaps(ApplySwaps(m, ps), qs)
    decreases |ps|
  {
    assert PairsIn(|m|, ps + qs) by {
      forall k | 0 <= k < |ps + qs|
        ensures 0 <= (ps + qs)[k].0 < |m| && 0 <= (ps + qs)[k].1 < |m|
      {
        if k >= |ps| {
          assert (ps + qs)[k] == qs[k - |ps|];
        }
      }
    }
    if ps == [] {
      assert ps + qs == qs;
    } else {
      assert (ps + qs)[0] == ps[0];
      assert (ps + qs)[1..] == ps[1..] + qs;
      ApplySwapsAppend(SwapCells(m, ps[0].0, ps[0].1), ps[1..], qs);
    }
  }

  /** A cell that no exchange mentions keeps its value. */
  lemma {:induction false} ApplySwapsUntouched<T>(m: seq<T>, ps: seq<(int, int)>, c: int)
    requires PairsIn(|m|, ps)
    requires 0 <= c < |m|
    requires forall k :: 0 <= k < |ps| ==> ps[k].0 != c && ps[k].1 != c
    ensures ApplySwaps(m, ps)[c] == m[c]
    decreases |ps|
  {
    if ps != [] {
      ApplySwapsUntouched(SwapCells(m, ps[0].0, ps[0].1), ps[1..], c);
    }
  }

  /** No two exchanges of `ps` share a cell (an exchange of a cell with
      itself is allowed). */
  predicate Disjoint(ps: seq<(int, int)>) {
    forall k, l :: 0 <= k < l < |ps| ==>
      ps[k].0 != ps[l].0 && ps[k].0 != ps[l].1 && ps[k].1 != ps[l].0 && ps[k].1 != ps[l].1
  }

  /** Disjoint exchanges act simultaneously: each exchanged cell receives its
      partner's original value. */
  lemma {:induction false} ApplyDisjoint<T>(m: seq<T>, ps: seq<(int, int)>)
    requires PairsIn(|m|, ps) && Disjoint(ps)
    ensures forall k :: 0 <= k < |ps| ==>
      ApplySwaps(m, ps)[ps[k].0] == m[ps[k].1] && ApplySwaps(m, ps)[ps[k].1] == m[ps[k].0]
    decreases |ps|
  {
    if ps != [] {
      var m' := SwapCells(m, ps[0].0, ps[0].1);
      ApplyDisjoint(m', ps[1..]);
      forall k | 0 < k < |ps|
        ensures ApplySwaps(m, ps)[ps[k].0] == m[ps[k].1] && ApplySwaps(m, ps)[ps[k].1] == m[ps[k].0]
      {
        assert ps[1..][k - 1] == ps[k];
      }
      ApplySwapsUntouched(m', ps[1..], ps[0].0);
      ApplySwapsUntouched(m', ps[1..], ps[0].1);
    }
  }

  /** Exchanges never change which values a matrix holds. */
  lemma {:induction false} ApplySwapsMultiset<T>(m: seq<T>, ps: seq<(int, int)>)
    requires PairsIn(|m|, ps)
    ensures multiset(ApplySwaps(m, ps)) == multiset(m)
    decreases |ps|
  {
    if ps != [] {
      SwapCellsMultiset(m, ps[0].0, ps[0].1);
      ApplySwapsMultiset(SwapCells(m, ps[0].0, ps[0].1), ps[1..]);
    }
  }

  lemma SwapCellsMultiset<T>(m: seq<T>, p: int, q: int)
    requires 0 <= p < |m| && 0 <= q < |m|
    ensures multiset(SwapCells(m, p, q)) == multiset(m)
  {
    var m1 := m[p := m[q]];
    assert multiset(m1) == multiset(m) - multiset{m[p]} + multiset{m[q]};
    assert multiset(m1[q := m[p]]) == multiset(m1) - multiset{m1[q]} + multiset{m[p]};
  }

  /** Exchanging a cell with itself every time changes nothing. */
  lemma {:induction false} ApplySelfSwaps<T>(m: seq<T>, ps: seq<(int, int)>)
    requires PairsIn(|m|, ps)
    requires forall k :: 0 <= k < |ps| ==> ps[k].0 == ps[k].1
    ensures ApplySwaps(m, ps) == m
    decreases |ps|
  {
    if ps != [] {
      assert SwapCells(m, ps[0].0, ps[0].1) == m;
      ApplySelfSwaps(m, ps[1..]);
    }
  }

  function RealSum(m: seq<real>): real {
    if m == [] then 0.0 else m[0] + RealSum(m[1..])
  }

  lemma {:induction false} RealSumUpdate(m: seq<real>, i: int, v: real)
    requires 0 <= i < |m|
    ensures RealSum(m[i := v]) == RealSum(m) - m[i] + v
  {
    if i > 0 {
      assert m[i := v][1..] == m[1..][i - 1 := v];
      RealSumUpdate(m[1..], i - 1, v);
    }
  }

  lemma {:induction false} ApplySwapsSum(m: seq<real>, ps: seq<(int, int)>)
    requires PairsIn(|m|, ps)
    ensures RealSum(ApplySwaps(m, ps)) == RealSum(m)
    decreases |ps|
  {
    if ps != [] {
      var p, q := ps[0].0, ps[0].1;
      RealSumUpdate(m, p, m[q]);
      RealSumUpdate(m[p := m[q]], q, m[p]);
      ApplySwapsSum(SwapCells(m, p, q), ps[1..]);
    }
  }

  // ---------------------------------------------------------------------
  // swap_in_bigram_matrix

  /** The first loop of `swap_in_bigram_matrix`: columns `a` and `b` of
      every row. */
  function ColumnSwaps(a: int, b: int): (ps: seq<(int, int)>)
    requires InAlphabet(a) && InAlphabet(b)
    ensures |ps| == 26 && PairsIn(Cells2, ps)
    ensures forall i :: 0 <= i < 26 ==> ps[i] == (Idx2(i, a), Idx2(i, b))
  {
    seq(26, i => (Idx2(i, a), Idx2(i, b)))
  }

  /** The second loop of `swap_in_bigram_matrix`: rows `a` and `b`. */
  function RowSwaps(a: int, b: int): (ps: seq<(int, int)>)
    requires InAlphabet(a) && InAlphabet(b)
    ensures |ps| == 26 && PairsIn(Cells2, ps)
    ensures forall i :: 0 <= i < 26 ==> ps[i] == (Idx2(a, i), Idx2(b, i))
  {
    seq(26, i => (Idx2(a, i), Idx2(b, i)))
  }

  lemma ColumnSwapsDisjoint(a: int, b: int)
    requires InAlphabet(a) && InAlphabet(b)
    ensures Disjoint(ColumnSwaps(a, b))
  {
    var ps := ColumnSwaps(a, b);
    forall k, l | 0 <= k < l < 26
      ensures ps[k].0 != ps[l].0 && ps[k].0 != ps[l].1 && ps[k].1 != ps[l].0 && ps[k].1 != ps[l].1
    {
      assert ps[k].0 < 26 * k + 26 <= ps[l].1;
      assert ps[k].1 < 26 * k + 26 <= ps[l].0;
    }
  }

  lemma RowSwapsDisjoint(a: int, b: int)
    requires InAlphabet(a) && InAlphabet(b)
    ensures Disjoint(RowSwaps(a, b))
  {
  }

  /** The column pass of `swap_in_bigram_matrix` exchanges columns `a` and
      `b` of every row. */
  lemma BigramColumnPass<T>(m: seq<T>, a: int, b: int)
    requires |m| == Cells2 && InAlphabet(a) && InAlphabet(b)
    ensures forall x, y :: InAlphabet(x) && InAlphabet(y) ==>
      ApplySwaps(m, ColumnSwaps(a, b))[Idx2(x, y)] == m[Idx2(x, Transpose(a, b, y))]
  {
    ColumnSwapsDisjoint(a, b);
    ApplyDisjoint(m, ColumnSwaps(a, b));
    forall x, y | InAlphabet(x) && InAlphabet(y)
      ensures ApplySwaps(m, ColumnSwaps(a, b))[Idx2(x, y)] == m[Idx2(x, Transpose(a, b, y))]
    {
      ColumnCell(m, a, b, x, y);
    }
  }

  lemma ColumnCell<T>(m: seq<T>, a: int, b: int, x: int, y: int)
    requires |m| == Cells2 && InAlphabet(a) && InAlphabet(b) && InAlphabet(x) && InAlphabet(y)
    requires forall k :: 0 <= k < 26 ==>
      ApplySwaps(m, ColumnSwaps(a, b))[Idx2(k, a)] == m[Idx2(k, b)] && ApplySwaps(m, ColumnSwaps(a, b))[Idx2(k, b)] == m[Idx2(k, a)]
    ensures ApplySwaps(m, ColumnSwaps(a, b))[Idx2(x, y)] == m[Idx2(x, Transpose(a, b, y))]
  {
    if y == a || y == b {
      assert ApplySwaps(m, ColumnSwaps(a, b))[Idx2(x, a)] == m[Idx2(x, b)];
      assert ApplySwaps(m, ColumnSwaps(a, b))[Idx2(x, b)] == m[Idx2(x, a)];
    } else {
      var ps := ColumnSwaps(a, b);
      ColumnMisses(a, b, x, y);
      ApplySwapsUntouched(m, ps, Idx2(x, y));
    }
  }

  /** A cell outside columns `a` and `b` is in no exchange of the column
      pass. */
  lemma ColumnMisses(a: int, b: int, x: int, y: int)
    requires InAlphabet(a) && InAlphabet(b) && InAlphabet(x) && InAlphabet(y) && y != a && y != b
    ensures forall k :: 0 <= k < |ColumnSwaps(a, b)| ==>
      ColumnSwaps(a, b)[k].0 != Idx2(x, y) && ColumnSwaps(a, b)[k].1 != Idx2(x, y)
  {
    forall k | 0 <= k < 26
      ensures ColumnSwaps(a, b)[k].0 != Idx2(x, y) && ColumnSwaps(a, b)[k].1 != Idx2(x, y)
    {
      if k < x {
        assert 26 * k + 26 <= 26 * x;
      } else if k > x {
        assert 26 * x + 26 <= 26 * k;
      }
    }
  }

  /** The row pass of `swap_in_bigram_matrix` exchanges rows `a` and `b`. */
  lemma BigramRowPass<T>(m: seq<T>, a: int, b: int)
    requires |m| == Cells2 && InAlphabet(a) && InAlphabet(b)
    ensures forall x, y :: InAlphabet(x) && InAlphabet(y) ==>
      ApplySwaps(m, RowSwaps(a, b))[Idx2(x, y)] == m[Idx2(Transpose(a, b, x), y)]
  {
    RowSwapsDisjoint(a, b);
    ApplyDisjoint(m, RowSwaps(a, b));
    forall x, y | InAlphabet(x) && InAlphabet(y)
      ensures ApplySwaps(m, RowSwaps(a, b))[Idx2(x, y)] == m[Idx2(Transpose(a, b, x), y)]
    {
      RowCell(m, a, b, x, y);
    }
  }

  lemma RowCell<T>(m: seq<T>, a: int, b: int, x: int, y: int)
    requires |m| == Cells2 && InAlphabet(a) && InAlphabet(b) && InAlphabet(x) && InAlphabet(y)
    requires forall k :: 0 <= k < 26 ==>
      ApplySwaps(m, RowSwaps(a, b))[Idx2(a, k)] == m[Idx2(b, k)] && ApplySwaps(m, RowSwaps(a, b))[Idx2(b, k)] == m[Idx2(a, k)]
    ensures ApplySwaps(m, RowSwaps(a, b))[Idx2(x, y)] == m[Idx2(Transpose(a, b, x), y)]
  {
    if x == a || x == b {
      assert ApplySwaps(m, RowSwaps(a, b))[Idx2(a, y)] == m[Idx2(b, y)];
      assert ApplySwaps(m, RowSwaps(a, b))[Idx2(b, y)] == m[Idx2(a, y)];
    } else {
      var ps := RowSwaps(a, b);
      RowMisses(a, b, x, y);
      ApplySwapsUntouched(m, ps, Idx2(x, y));
    }
  }

  /** A cell outside rows `a` and `b` is in no exchange of the row pass. */
  lemma RowMisses(a: int, b: int, x: int, y: int)
    requires InAlphabet(a) && InAlphabet(b) && InAlphabet(x) && InAlphabet(y) && x != a && x != b
    ensures forall k :: 0 <= k < |RowSwaps(a, b)| ==>
      RowSwaps(a, b)[k].0 != Idx2(x, y) && RowSwaps(a, b)[k].1 != Idx2(x, y)
  {
    forall k | 0 <= k < 26
      ensures RowSwaps(a, b)[k].0 != Idx2(x, y) && RowSwaps(a, b)[k].1 != Idx2(x, y)
    {
      if a < x {
        assert 26 * a + 26 <= 26 * x;
      } else {
        assert 26 * x + 26 <= 26 * a;
      }
      if b < x {
        assert 26 * b + 26 <= 26 * x;
      } else {
        assert 26 * x + 26 <= 26 * b;
      }
    }
  }

  /** `swap_in_bigram_matrix(m, a, b)` is exactly the relabelling of the
      matrix by the transposition of `a` and `b`: cell `[x][y]` of the result
      is cell `[σx][σy]` of `m`. */
  lemma SwapBigramRelabels<T>(m: seq<T>, a: int, b: int)
    requires |m| == Cells2 && InAlphabet(a) && InAlphabet(b)
    ensures SwapBigram(m, a, b) == Relabel2(m, a, b)
  {
    var cols, rows := ColumnSwaps(a, b), RowSwaps(a, b);
    BigramColumnPass(m, a, b);
    var m1 := ApplySwaps(m, cols);
    BigramRowPass(m1, a, b);
    ApplySwapsAppend(m, cols, rows);
    var r := SwapBigram(m, a, b);
    forall c | 0 <= c < Cells2
      ensures r[c] == Relabel2(m, a, b)[c]
    {
      Idx2Cell(c);
    }
  }

  /** Hence the bigram update is an involution, and the identity when
      `a == b`. */
  lemma SwapBigramInvolution<T>(m: seq<T>, a: int, b: int)
    requires |m| == Cells2 && InAlphabet(a) && InAlphabet(b)
    ensures SwapBigram(SwapBigram(m, a, b), a, b) == m
    ensures a == b ==> SwapBigram(m, a, b) == m
  {
    SwapBigramRelabels(m, a, b);
    SwapBigramRelabels(SwapBigram(m, a, b), a, b);
    var r := SwapBigram(SwapBigram(m, a, b), a, b);
    forall c | 0 <= c < Cells2
      ensures r[c] == m[c]
    {
      Idx2Cell(c);
      var x, y := c / 26, c % 26;
      var x', y' := Transpose(a, b, x), Transpose(a, b, y);
      assert Idx2(x', y') / 26 == x' && Idx2(x', y') % 26 == y';
    }
    if a == b {
      forall c | 0 <= c < Cells2
        ensures SwapBigram(m, a, b)[c] == m[c]
      {
        Idx2Cell(c);
      }
    }
  }

  /** The bigram update keeps every value and so the sum of the matrix. */
  lemma SwapBigramPreserves(m: seq<real>, a: int, b: int)
    requires |m| == Cells2 && InAlphabet(a) && InAlphabet(b)
    ensures multiset(SwapBigram(m, a, b)) == multiset(m)
    ensures RealSum(SwapBigram(m, a, b)) == RealSum(m)
  {
    ApplySwapsMultiset(m, BigramSwaps(a, b));
    ApplySwapsSum(m, BigramSwaps(a, b));
  }

  // ---------------------------------------------------------------------
  // swap_in_trigram_matrix

  /** The `k`-th exchange of the trigram update, as index triples; both
      triples hold `a` and `b`. */
  lemma TrigramSwapAt(a: int, b: int, k: int) returns (u: int, v: int, w: int, u': int, v': int, w': int)
    requires InAlphabet(a) && InAlphabet(b) && 0 <= k < 78
    ensures InAlphabet(u) && InAlphabet(v) && InAlphabet(w)
    ensures InAlphabet(u') && InAlphabet(v') && InAlphabet(w')
    ensures TrigramSwaps(a, b)[k] == (Idx3(u, v, w), Idx3(u', v', w'))
    ensures (u == a || v == a || w == a) && (u == b || v == b || w == b)
    ensures (u' == a || v' == a || w' == a) && (u' == b || v' == b || w' == b)
  {
    var ps := TrigramSwaps(a, b);
    var p1 := seq(26, i => (Idx3(i, a, b), Idx3(i, b, a)));
    var p2 := seq(26, i => (Idx3(a, i, b), Idx3(b, i, a)));
    var p3 := seq(26, i => (Idx3(a, b, i), Idx3(b, a, i)));
    assert ps == p1 + p2 + p3;
    if k < 26 {
      u, v, w, u', v', w' := k, a, b, k, b, a;
      assert ps[k] == p1[k];
    } else if k < 52 {
      u, v, w, u', v', w' := a, k - 26, b, b, k - 26, a;
      assert ps[k] == p2[k - 26];
    } else {
      u, v, w, u', v', w' := a, b, k - 52, b, a, k - 52;
      assert ps[k] == p3[k - 52];
    }
  }

  /** The trigram update only changes cells whose three indices contain both
      `a` and `b`. */
  lemma SwapTrigramLocal<T>(m: seq<T>, a: int, b: int, x: int, y: int, z: int)
    requires |m| == Cells3 && InAlphabet(a) && InAlphabet(b)
    requires InAlphabet(x) && InAlphabet(y) && InAlphabet(z)
    requires !((x == a || y == a || z == a) && (x == b || y == b || z == b))
    ensures SwapTrigram(m, a, b)[Idx3(x, y, z)] == m[Idx3(x, y, z)]
  {
    var ps := TrigramSwaps(a, b);
    forall k | 0 <= k < |ps|
      ensures ps[k].0 != Idx3(x, y, z) && ps[k].1 != Idx3(x, y, z)
    {
      var u, v, w, u', v', w' := TrigramSwapAt(a, b, k);
      if ps[k].0 == Idx3(x, y, z) {
        Idx3Injective(u, v, w, x, y, z);
      }
      if ps[k].1 == Idx3(x, y, z) {
        Idx3Injective(u', v', w', x, y, z);
      }
    }
    ApplySwapsUntouched(m, ps, Idx3(x, y, z));
  }

  /** The trigram update is the identity when `a == b`. */
  lemma SwapTrigramSame<T>(m: seq<T>, a: int)
    requires |m| == Cells3 && InAlphabet(a)
    ensures SwapTrigram(m, a, a) == m
  {
    ApplySelfSwaps(m, TrigramSwaps(a, a));
  }

  /** The trigram update is a composition of exchanges: it keeps every value
      and the sum of the matrix. */
  lemma SwapTrigramPreserves(m: seq<real>, a: int, b: int)
    requires |m| == Cells3 && InAlphabet(a) && InAlphabet(b)
    ensures multiset(SwapTrigram(m, a, b)) == multiset(m)
    ensures RealSum(SwapTrigram(m, a, b)) == RealSum(m)
  {
    ApplySwapsMultiset(m, TrigramSwaps(a, b));
    ApplySwapsSum(m, TrigramSwaps(a, b));
  }

  /** Unlike the bigram update, the trigram update is NOT the relabelling by
      the transposition of two distinct letters `a` and `b`: cell `[a][x][x]`
      (x neither `a` nor `b`) is left alone by the update, while relabelling
      fills it from `[b][x][x]`; any matrix where those two cells differ
      tells the two apart. */
  lemma SwapTrigramIsNotRelabelling<T>(m: seq<T>, a: int, b: int, x: int)
    requires |m| == Cells3 && InAlphabet(a) && InAlphabet(b) && InAlphabet(x)
    requires a != b && x != a && x != b
    requires m[Idx3(a, x, x)] != m[Idx3(b, x, x)]
    ensures SwapTrigram(m, a, b) != Relabel3(m, a, b)
  {
    SwapTrigramLocal(m, a, b, a, x, x);
    Relabel3At(m, a, b, a, x, x);
  }
}
