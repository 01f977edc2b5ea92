/**
 The in-place shuffle that `generate_matchups` applies to the roster before it
 forms courts. The random choice is not modelled: the caller supplies the
 permutation, as a sequence of source positions, and the shuffle moves the
 element at position `perm[i]` to position `i`.
 */
module Permutations {

  /** `p` names every position `0 .. n-1` exactly once. */
  predicate IsPermutation(p: seq<nat>, n: nat)
  {
    && |p| == n
    && (forall i | 0 <= i < n :: p[i] < n)
    && (forall i, j | 0 <= i < j < n :: p[i] != p[j])
  }

  /** The sequence whose `i`-th element is `s[p[i]]`. */
  function Permute<T>(s: seq<T>, p: seq<nat>): (r: seq<T>)
    requires IsPermutation(p, |s|)
    ensures |r| == |s|
    ensures forall i | 0 <= i < |s| :: r[i] == s[p[i]]
  {
    seq(|s|, i requires 0 <= i < |s| => s[p[i]])
  }

  /** No element occurs twice in `s`. */
  predicate Distinct<T(==)>(s: seq<T>)
  {
    forall i, j | 0 <= i < j < |s| :: s[i] != s[j]
  }

  /** `p` with the value `k` taken out of its range: every entry above `k` moves down by one. */
  function CloseGap(p: seq<nat>, k: nat): (r: seq<nat>)
    requires forall i | 0 <= i < |p| :: p[i] != k
    ensures |r| == |p|
    ensures forall i | 0 <= i < |p| :: r[i] == if p[i] < k then p[i] else p[i] - 1
  {
    if p == [] then [] else [if p[0] < k then p[0] else p[0] - 1] + CloseGap(p[1..], k)
  }

  /** `s` without its element at position `k`. */
  function RemoveAt<T>(s: seq<T>, k: nat): (r: seq<T>)
    requires k < |s|
    ensures |r| == |s| - 1
    ensures forall i | 0 <= i < |r| :: r[i] == if i < k then s[i] else s[i + 1]
  {
    s[..k] + s[k + 1..]
  }

  /**
   Once the first entry `p[0]` of a permutation is used, the remaining entries,
   with the gap at `p[0]` closed, are a permutation of one position fewer.
   */
  lemma RestIsPermutation(p: seq<nat>, n: nat)
    requires IsPermutation(p, n) && n > 0
    ensures forall i | 0 <= i < |p[1..]| :: p[1..][i] != p[0]
    ensures IsPermutation(CloseGap(p[1..], p[0]), n - 1)
  {
    forall i | 0 <= i < |p[1..]| ensures p[1..][i] != p[0] {
      assert p[0] != p[i + 1];
    }
    var q := CloseGap(p[1..], p[0]);
    forall i, j | 0 <= i < j < |q| ensures q[i] != q[j] {
      assert p[i + 1] != p[j + 1];
    }
  }

  /** Position `i` of the rest, permuted by the rest of `p`, is position `i + 1` of the whole. */
  lemma PermuteRestAt<T>(s: seq<T>, p: seq<nat>, i: nat)
    requires |p| == |s| > 0 && p[0] < |s|
    requires forall m | 0 <= m < |p[1..]| :: p[1..][m] != p[0]
    requires IsPermutation(CloseGap(p[1..], p[0]), |s| - 1)
    requires i < |s| - 1
    ensures Permute(RemoveAt(s, p[0]), CloseGap(p[1..], p[0]))[i] == s[p[i + 1]]
  {
    var k, j := p[0], p[i + 1];
    var rest, q := RemoveAt(s, k), CloseGap(p[1..], k);
    assert p[1..][i] == j && j != k;
    assert Permute(rest, q)[i] == rest[q[i]];
    if j < k {
      assert q[i] == j;
      assert rest[j] == s[j];
    } else {
      assert q[i] == j - 1;
      assert rest[j - 1] == s[j];
    }
  }

  /**
   A permuted sequence starts with the element the first index names,
   followed by the rest of `s` permuted by the rest of `p`.
   */
  lemma PermuteFirst<T>(s: seq<T>, p: seq<nat>)
    requires IsPermutation(p, |s|) && |s| > 0
    ensures IsPermutation(CloseGap(p[1..], p[0]), |s| - 1)
    ensures Permute(s, p)
         == [s[p[0]]] + Permute(RemoveAt(s, p[0]), CloseGap(p[1..], p[0]))
  {
    RestIsPermutation(p, |s|);
    var r := Permute(RemoveAt(s, p[0]), CloseGap(p[1..], p[0]));
    var whole, expected := Permute(s, p), [s[p[0]]] + r;
    assert |whole| == |expected|;
    forall i | 0 <= i < |whole| ensures whole[i] == expected[i] {
      if i > 0 {
        PermuteRestAt(s, p, i - 1);
      }
    }
  }

  /** Taking out one element takes exactly that element out of the multiset. */
  lemma MultisetRemoveAt<T>(s: seq<T>, k: nat)
    requires k < |s|
    ensures multiset(s) == multiset{s[k]} + multiset(RemoveAt(s, k))
  {
    assert s == s[..k] + [s[k]] + s[k + 1..];
  }

  /** A shuffle neither adds, drops nor duplicates an element. */
  lemma {:induction false} PermutePreservesMultiset<T>(s: seq<T>, p: seq<nat>)
    requires IsPermutation(p, |s|)
    ensures multiset(Permute(s, p)) == multiset(s)
  {
    if |s| > 0 {
      var rest, q := RemoveAt(s, p[0]), CloseGap(p[1..], p[0]);
      PermuteFirst(s, p);
      PermutePreservesMultiset(rest, q);
      MultisetRemoveAt(s, p[0]);
      calc {
        multiset(Permute(s, p));
        multiset([s[p[0]]] + Permute(rest, q));
        multiset{s[p[0]]} + multiset(Permute(rest, q));
        multiset{s[p[0]]} + multiset(rest);
        multiset(s);
      }
    }
  }

  /** Shuffling a list without repeated elements gives a list without repeated elements. */
  lemma PermutePreservesDistinct<T>(s: seq<T>, p: seq<nat>)
    requires IsPermutation(p, |s|)
    requires Distinct(s)
    ensures Distinct(Permute(s, p))
  {
  }

  /**
   The stand-in for `random.shuffle`: reorders `a` in place, putting the
   element found at position `perm[i]` at position `i`.
   */
  method Shuffle<T>(a: array<T>, perm: seq<nat>)
    requires IsPermutation(perm, a.Length)
    modifies a
    ensures a[..] == Permute(old(a[..]), perm)
    ensures multiset(a[..]) == multiset(old(a[..]))
  {
    var original := a[..];
    for i := 0 to a.Length
      invariant forall j | 0 <= j < i :: a[j] == original[perm[j]]
    {
      a[i] := original[perm[i]];
    }
    PermutePreservesMultiset(original, perm);
  }
}
