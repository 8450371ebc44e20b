/** Rank permutations ("keys"): 26 lower-case letters, each exactly once,
    ordered by frequency rank (decrypt.h: KEYSIZE = 26). */
module Keys {
  import opened Text
  import opened Matrices

  const KeySize: int := 26

  /** `k` is a permutation of 'a'..'z'. */
  predicate IsKey(k: seq<char>) {
    && |k| == KeySize
    && (forall i :: 0 <= i < |k| ==> IsLower(k[i]))
    && (forall i, j :: 0 <= i < j < |k| ==> k[i] != k[j])
    && (forall c :: IsLower(c) ==> c in k)
  }

  /** First position of `c` in `k`. */
  function IndexOf(k: seq<char>, c: char): (r: int)
    requires c in k
    ensures 0 <= r < |k| && k[r] == c
    ensures forall i :: 0 <= i < r ==> k[i] != c
  {
    if k[0] == c then 0 else 1 + IndexOf(k[1..], c)
  }

  /** In a key, the position of a letter is the only position holding it. */
  lemma IndexOfKey(k: seq<char>, i: int)
    requires IsKey(k)
    requires 0 <= i < |k|
    ensures IndexOf(k, k[i]) == i
  {
  }

  /** `swap_in_key`: exchange positions `a` and `b`, the same two-cell
      exchange the matrix updates are built from. */
  function SwapInKey(k: seq<char>, a: int, b: int): (r: seq<char>)
    requires 0 <= a < |k| && 0 <= b < |k|
    ensures |r| == |k|
  {
    SwapCells(k, a, b)
  }

  /** Swapping two positions keeps a key a permutation of 'a'..'z' and
      touches nothing but those two positions. */
  lemma SwapKeepsKey(k: seq<char>, a: int, b: int)
    requires IsKey(k)
    requires 0 <= a < KeySize && 0 <= b < KeySize
    ensures IsKey(SwapInKey(k, a, b))
    ensures multiset(SwapInKey(k, a, b)) == multiset(k)
    ensures SwapInKey(k, a, b)[a] == k[b] && SwapInKey(k, a, b)[b] == k[a]
    ensures forall i :: 0 <= i < KeySize && i != a && i != b ==> SwapInKey(k, a, b)[i] == k[i]
  {
    var r := SwapInKey(k, a, b);
    SwapInKeyMultiset(k, a, b);
    forall i, j | 0 <= i < j < |r|
      ensures r[i] != r[j]
    {
      var i' := if i == a then b else if i == b then a else i;
      var j' := if j == a then b else if j == b then a else j;
      assert r[i] == k[i'] && r[j] == k[j'];
    }
    forall c | IsLower(c)
      ensures c in r
    {
      var i := IndexOf(k, c);
      if i == a {
        assert r[b] == c;
      } else if i == b {
        assert r[a] == c;
      } else {
        assert r[i] == c;
      }
    }
  }

  lemma SwapInKeyMultiset(k: seq<char>, a: int, b: int)
    requires 0 <= a < |k| && 0 <= b < |k|
    ensures multiset(SwapInKey(k, a, b)) == multiset(k)
  {
    SwapCellsMultiset(k, a, b);
  }

  /** Swapping the same two positions twice restores the key. */
  lemma SwapInKeyInvolution(k: seq<char>, a: int, b: int)
    requires 0 <= a < |k| && 0 <= b < |k|
    ensures SwapInKey(SwapInKey(k, a, b), a, b) == k
  {
  }
}
