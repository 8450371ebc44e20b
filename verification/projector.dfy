/** The decryption projector `decrypt_to_file(f, k1, k2)` (decrypt.c:246-269),
    with the temporary file replaced by the returned text. For each input
    character `c`: a non-letter is written as is; then `c` is folded to lower
    case and, if it occurs in `k1` (first occurrence at position `i`), `k2[i]`
    is written. The key search calls it as `decrypt_to_file(fi, ks, key)`
    with the sample ranking first, so a cipher letter at rank `i` of the
    sample ranking comes out as the letter at rank `i` of the candidate key. */
module Projector {
  import opened Text
  import opened Keys
  import opened Relabel

  /** What one input character produces. */
  function Emit(c: char, k1: seq<char>, k2: seq<char>): seq<char>
    requires |k1| == KeySize && |k2| == KeySize
  {
    (if IsAlpha(c) then [] else [c]) + (if Lower(c) in k1 then [k2[IndexOf(k1, Lower(c))]] else [])
  }

  function Project(s: seq<char>, k1: seq<char>, k2: seq<char>): seq<char>
    requires |k1| == KeySize && |k2| == KeySize
  {
    if s == [] then [] else Emit(s[0], k1, k2) + Project(s[1..], k1, k2)
  }

  /** The substitution a pair of keys defines on one character. */
  function Decrypt(c: char, k1: seq<char>, k2: seq<char>): char
    requires IsKey(k1) && |k2| == KeySize
  {
    if IsAlpha(c) then k2[IndexOf(k1, Lower(c))] else c
  }

  lemma {:induction false} ProjectAppend(a: seq<char>, b: seq<char>, k1: seq<char>, k2: seq<char>)
    requires |k1| == KeySize && |k2| == KeySize
    ensures Project(a + b, k1, k2) == Project(a, k1, k2) + Project(b, k1, k2)
    decreases |a|
  {
    if a == [] {
      assert a + b == b;
    } else {
      assert (a + b)[1..] == a[1..] + b;
      ProjectAppend(a[1..], b, k1, k2);
    }
  }

  /** With a key as `k1`, every character yields exactly one character:
      letters are substituted through the keys and everything else is kept. */
  lemma {:induction false} ProjectKey(s: seq<char>, k1: seq<char>, k2: seq<char>)
    requires IsKey(k1) && |k2| == KeySize
    ensures |Project(s, k1, k2)| == |s|
    ensures forall i :: 0 <= i < |s| ==> Project(s, k1, k2)[i] == Decrypt(s[i], k1, k2)
    decreases |s|
  {
    if s != [] {
      ProjectKey(s[1..], k1, k2);
      assert Emit(s[0], k1, k2) == [Decrypt(s[0], k1, k2)];
      forall i | 0 < i < |s|
        ensures Project(s, k1, k2)[i] == Decrypt(s[i], k1, k2)
      {
        assert Project(s, k1, k2)[i] == Project(s[1..], k1, k2)[i - 1];
      }
    }
  }

  /** A letter missing from `k1` (possible only when `k1` is not a key)
      produces nothing. */
  lemma ProjectDropsUnknown(c: char, k1: seq<char>, k2: seq<char>)
    requires |k1| == KeySize && |k2| == KeySize
    requires IsAlpha(c) && Lower(c) !in k1
    ensures Project([c], k1, k2) == []
  {
    assert [c][1..] == [];
  }

  /** A non-letter that occurs in `k1` (again only when `k1` is not a key)
      is written twice: once as is and once substituted. */
  lemma ProjectDoublesListedNonLetter(c: char, k1: seq<char>, k2: seq<char>)
    requires |k1| == KeySize && |k2| == KeySize
    requires !IsAlpha(c) && c in k1
    ensures Project([c], k1, k2) == [c, k2[IndexOf(k1, c)]]
  {
    assert [c][1..] == [];
  }

  /** Projecting with the keys exchanged undoes a projection: the result is
      the input folded to lower case. */
  lemma {:induction false} ProjectRoundTrip(s: seq<char>, k1: seq<char>, k2: seq<char>)
    requires IsKey(k1) && IsKey(k2)
    ensures Project(Project(s, k1, k2), k2, k1) == LowerString(s)
  {
    var t := Project(s, k1, k2);
    ProjectKey(s, k1, k2);
    ProjectKey(t, k2, k1);
    forall i | 0 <= i < |s|
      ensures Project(t, k2, k1)[i] == LowerString(s)[i]
    {
      if IsAlpha(s[i]) {
        var j := IndexOf(k1, Lower(s[i]));
        IndexOfKey(k2, j);
      }
    }
  }

  /** Projecting with the same key twice only folds the case. */
  lemma {:induction false} ProjectSameKey(s: seq<char>, k: seq<char>)
    requires IsKey(k)
    ensures Project(s, k, k) == LowerString(s)
  {
    ProjectKey(s, k, k);
  }

  /** Exchanging two positions of `k2` exchanges the two letters held there
      throughout the projected text; this is why the key search may update
      the profiles of the candidate plaintext instead of recomputing them. */
  lemma {:induction false} ProjectSwapKey(s: seq<char>, k1: seq<char>, k2: seq<char>, a: int, b: int)
    requires IsKey(k1) && IsKey(k2)
    requires 0 <= a < KeySize && 0 <= b < KeySize
    ensures Project(s, k1, SwapInKey(k2, a, b)) == RelabelText(Project(s, k1, k2), k2[a], k2[b])
  {
    var k2' := SwapInKey(k2, a, b);
    SwapKeepsKey(k2, a, b);
    ProjectKey(s, k1, k2);
    ProjectKey(s, k1, k2');
    forall i | 0 <= i < |s|
      ensures Project(s, k1, k2')[i] == RelabelText(Project(s, k1, k2), k2[a], k2[b])[i]
    {
    }
  }
}
