/**
 * Permutations of positions 0..n-1 and the reordering of a bit string
 * by one (`''.join(s[i] for i in perm)`).
 */
module Perms {
  import opened Bits

  /** `list(range(n))`. */
  function Range(n: nat): (r: seq<nat>)
    ensures |r| == n
    ensures forall i :: 0 <= i < n ==> r[i] == i
  {
    if n == 0 then [] else Range(n - 1) + [n - 1]
  }

  /** No entry of `s` occurs twice. */
  predicate Distinct<T(==)>(s: seq<T>)
  {
    forall a, b :: 0 <= a < b < |s| ==> s[a] != s[b]
  }

  lemma RangeDistinct(n: nat)
    ensures Distinct(Range(n))
  {
  }

  /** `p` holds each of 0, 1, ..., n-1 exactly once and nothing else. */
  predicate IsPermutation(p: seq<nat>, n: nat)
  {
    multiset(p) == multiset(Range(n))
  }

  lemma {:induction false} RangeMultiplicity(n: nat, v: nat)
    ensures multiset(Range(n))[v] == if v < n then 1 else 0
  {
    if n > 0 {
      var m: nat := n - 1;
      RangeMultiplicity(m, v);
      MultiplicitySnoc(Range(m), m, v);
    }
  }

  lemma MultiplicitySnoc(r: seq<nat>, x: nat, v: nat)
    ensures multiset(r + [x])[v] == multiset(r)[v] + (if v == x then 1 else 0)
  {
    assert multiset(r + [x]) == multiset(r) + multiset{x};
  }

  /** A permutation of 0..n-1 has length n, entries below n, and no repeated entry. */
  lemma PermutationElements(p: seq<nat>, n: nat)
    requires IsPermutation(p, n)
    ensures |p| == n
    ensures Below(p, n)
    ensures forall i, j :: 0 <= i < j < |p| ==> p[i] != p[j]
  {
    assert |p| == |multiset(p)| == |multiset(Range(n))| == n;
    forall i | 0 <= i < |p|
      ensures p[i] < n
    {
      assert p[i] in multiset(p);
      RangeMultiplicity(n, p[i]);
    }
    forall i, j | 0 <= i < j < |p|
      ensures p[i] != p[j]
    {
      if p[i] == p[j] {
        var v := p[j];
        assert p == p[..j] + [v] + p[j + 1..];
        assert p[..j][i] == v;
        assert multiset(p)[v] == multiset(p[..j])[v] + 1 + multiset(p[j + 1..])[v];
        assert multiset(p)[v] >= 2;
        RangeMultiplicity(n, v);
        assert false;
      }
    }
  }

  /** Every entry of `p` is below `n`: `p` only names positions of an `n`-bit string. */
  predicate Below(p: seq<nat>, n: nat)
  {
    forall i :: 0 <= i < |p| ==> p[i] < n
  }

  /** `''.join(s[i] for i in p)`: position i of the result holds bit `p[i]` of `s`. */
  function Permute(s: Bits, p: seq<nat>): (r: Bits)
    requires Below(p, |s|)
    ensures |r| == |p|
    ensures forall i :: 0 <= i < |p| ==> r[i] == s[p[i]]
  {
    if p == [] then [] else [s[p[0]]] + Permute(s, p[1..])
  }

  lemma PermuteAppend(s: Bits, a: seq<nat>, b: seq<nat>)
    requires Below(a, |s|)
    requires Below(b, |s|)
    ensures Permute(s, a + b) == Permute(s, a) + Permute(s, b)
  {
    var l, r := Permute(s, a + b), Permute(s, a) + Permute(s, b);
    assert forall i :: 0 <= i < |l| ==> l[i] == r[i] by {
      forall i | 0 <= i < |l| ensures l[i] == r[i] {
        if i < |a| { assert (a + b)[i] == a[i]; } else { assert (a + b)[i] == b[i - |a|]; }
      }
    }
  }

  /** Reading one more position adds that one bit to the multiset read. */
  lemma PermuteInsert(s: Bits, front: seq<nat>, x: nat, back: seq<nat>)
    requires Below(front, |s|)
    requires Below(back, |s|)
    requires x < |s|
    ensures Below(front + back, |s|)
    ensures Below(front + [x] + back, |s|)
    ensures multiset(Permute(s, front + [x] + back)) == multiset(Permute(s, front + back)) + multiset{s[x]}
  {
    assert Below(front + [x], |s|);
    PermuteAppend(s, front + [x], back);
    PermuteAppend(s, front, [x]);
    PermuteAppend(s, front, back);
  }

  lemma RemoveAt(q: seq<nat>, k: nat)
    requires k < |q|
    ensures q == q[..k] + [q[k]] + q[k + 1..]
    ensures multiset(q[..k] + q[k + 1..]) == multiset(q) - multiset{q[k]}
  {
    assert q == q[..k] + [q[k]] + q[k + 1..];
  }

  /** What a reordering yields, as a multiset, depends only on the multiset of positions read. */
  lemma {:induction false} PermuteRespectsMultiset(s: Bits, p: seq<nat>, q: seq<nat>)
    requires Below(p, |s|)
    requires Below(q, |s|)
    requires multiset(p) == multiset(q)
    ensures multiset(Permute(s, p)) == multiset(Permute(s, q))
    decreases |p|
  {
    assert |p| == |multiset(p)| == |multiset(q)| == |q|;
    if p != [] {
      assert p[0] in multiset(q);
      var k :| 0 <= k < |q| && q[k] == p[0];
      RemoveMatching(s, p, q, k);
      PermuteRespectsMultiset(s, p[1..], q[..k] + q[k + 1..]);
    }
  }

  /** Taking the first position of `p` off both `p` and `q` (where `q` has it at k). */
  lemma RemoveMatching(s: Bits, p: seq<nat>, q: seq<nat>, k: nat)
    requires Below(p, |s|)
    requires Below(q, |s|)
    requires multiset(p) == multiset(q)
    requires p != [] && k < |q| && q[k] == p[0]
    ensures Below(p[1..], |s|)
    ensures Below(q[..k] + q[k + 1..], |s|)
    ensures multiset(p[1..]) == multiset(q[..k] + q[k + 1..])
    ensures multiset(Permute(s, q)) == multiset(Permute(s, q[..k] + q[k + 1..])) + multiset{s[p[0]]}
    ensures multiset(Permute(s, p)) == multiset(Permute(s, p[1..])) + multiset{s[p[0]]}
  {
    RemoveFirstMatching(p, q, k);
    BelowParts(p, 1, |s|);
    BelowParts(q, k, |s|);
    BelowParts(q, k + 1, |s|);
    PermuteInsert(s, q[..k], p[0], q[k + 1..]);
  }

  lemma RemoveFirstMatching(p: seq<nat>, q: seq<nat>, k: nat)
    requires multiset(p) == multiset(q)
    requires p != [] && k < |q| && q[k] == p[0]
    ensures q == q[..k] + [p[0]] + q[k + 1..]
    ensures multiset(p[1..]) == multiset(q[..k] + q[k + 1..])
  {
    RemoveAt(q, k);
    assert p == [p[0]] + p[1..];
  }

  lemma BelowParts(q: seq<nat>, k: nat, n: nat)
    requires Below(q, n) && k <= |q|
    ensures Below(q[..k], n) && Below(q[k..], n)
  {
    assert forall i :: 0 <= i < |q[k..]| ==> q[k..][i] == q[k + i];
  }

  /** Reordering a bit string by a permutation of its positions keeps its bits (and so its count of '1's). */
  lemma PermutePreservesBits(s: Bits, p: seq<nat>)
    requires IsPermutation(p, |s|)
    ensures Below(p, |s|)
    ensures multiset(Permute(s, p)) == multiset(s)
  {
    PermutationElements(p, |s|);
    PermuteIdentity(s);
    PermuteRespectsMultiset(s, p, Range(|s|));
  }

  /** Reading every position in order gives the string back. */
  lemma PermuteIdentity(s: Bits)
    ensures Below(Range(|s|), |s|)
    ensures Permute(s, Range(|s|)) == s
  {
    assert Below(Range(|s|), |s|);
    var id := Permute(s, Range(|s|));
    assert forall i :: 0 <= i < |s| ==> id[i] == s[i];
  }
}
