/**
 * The permutation engine shared by feistel.py and
 * aes_vs_feistel_commitment.py (class `Permutation`): a key bit string is
 * read as a number, reduced modulo n!, and decoded in the factorial
 * number system (a Lehmer code) into one ordering of 0..n-1.
 */
module Lehmer {
  import opened Bits
  import opened Perms

  /** n! (`math.factorial`). */
  function Fact(n: nat): (r: nat)
    ensures r >= 1
  {
    if n == 0 then 1 else n * Fact(n - 1)
  }

  /** The least k with 2^k >= m: the exact integer meaning of `ceil(log2(m))` for m >= 1. */
  function CeilLog2(m: nat): (k: nat)
    ensures Pow2(k) >= m
    ensures k > 0 ==> Pow2(k - 1) < m
    decreases m
  {
    if m <= 1 then 0 else 1 + CeilLog2((m + 1) / 2)
  }

  /** The shortest key the engine accepts for n items: `ceil(log2(n!))`. */
  function RequiredBits(n: nat): (k: nat)
    ensures Pow2(k) >= Fact(n)
    ensures k > 0 ==> Pow2(k - 1) < Fact(n)
  {
    CeilLog2(Fact(n))
  }

  /** A key of k bits is long enough for n items exactly when 2^k distinct keys cover all n! orderings. */
  lemma EnoughBits(k: nat, n: nat)
    ensures k >= RequiredBits(n) <==> Pow2(k) >= Fact(n)
  {
    var r := RequiredBits(n);
    if k >= r {
      Pow2Monotone(r, k);
    } else {
      Pow2Monotone(k, r - 1);
    }
  }

  lemma DivBelow(a: nat, m: nat, f: nat)
    requires f > 0 && a < m * f
    ensures 0 <= a / f < m
    ensures 0 <= a % f < f
  {
  }

  lemma DivModOf(q: nat, r: nat, f: nat)
    requires r < f
    ensures (q * f + r) / f == q
    ensures (q * f + r) % f == r
  {
    var a := q * f + r;
    var d := a / f - q;
    assert d * f == r - a % f;
    MulBetween(d, f);
  }

  lemma MulBetween(d: int, f: int)
    requires f > 0 && -f < d * f < f
    ensures d == 0
  {
  }

  lemma DivModDetermine(i: nat, j: nat, f: nat)
    requires f > 0 && i / f == j / f && i % f == j % f
    ensures i == j
  {
  }

  /**
   * Factorial-number-system decoding of `index` against the ordered
   * candidates `items`: the leading digit `index / (|items|-1)!` picks the
   * candidate taken first, the remainder decodes the rest.
   */
  function Decode(items: seq<nat>, index: nat): (perm: seq<nat>)
    requires index < Fact(|items|)
    decreases |items|
  {
    if items == [] then []
    else
      var f := Fact(|items| - 1);
      DivBelow(index, |items|, f);
      var pos := index / f;
      [items[pos]] + Decode(items[..pos] + items[pos + 1..], index % f)
  }

  /** Decoding takes every candidate exactly once: the result is a reordering of `items`. */
  lemma {:induction false} DecodePermutes(items: seq<nat>, index: nat)
    requires index < Fact(|items|)
    ensures multiset(Decode(items, index)) == multiset(items)
    decreases |items|
  {
    if items != [] {
      var pos, rem := DecodeStep(items, index);
      RemoveAt(items, pos);
      DecodePermutes(items[..pos] + items[pos + 1..], rem);
    }
  }

  /** One step of the decoding: the digit picks the first element, the remainder decodes the rest. */
  lemma DecodeStep(items: seq<nat>, index: nat) returns (pos: nat, rem: nat)
    requires items != [] && index < Fact(|items|)
    ensures pos == index / Fact(|items| - 1) && rem == index % Fact(|items| - 1)
    ensures pos < |items| && rem < Fact(|items| - 1)
    ensures Decode(items, index) == [items[pos]] + Decode(items[..pos] + items[pos + 1..], rem)
  {
    DivBelow(index, |items|, Fact(|items| - 1));
    pos, rem := index / Fact(|items| - 1), index % Fact(|items| - 1);
  }

  lemma AppendAssoc(a: seq<nat>, b: seq<nat>, c: seq<nat>)
    ensures (a + b) + c == a + (b + c)
  {
  }

  /**
   * One pass of the popping loop of `calculate_permutation`: pops
   * `items[temp_index // (len(items)-1)!]` and keeps the remainder.  What has
   * been popped followed by the decoding of what is left does not change.
   */
  method PopOne(prefix: seq<nat>, items: seq<nat>, index: nat)
    returns (nextPrefix: seq<nat>, nextItems: seq<nat>, nextIndex: nat)
    requires items != [] && index < Fact(|items|)
    ensures |nextItems| == |items| - 1 && nextIndex < Fact(|nextItems|)
    ensures nextPrefix + Decode(nextItems, nextIndex) == prefix + Decode(items, index)
  {
    var factorial := Fact(|items| - 1);
    var pos, rem := DecodeStep(items, index);
    var position := index / factorial;
    nextPrefix := prefix + [items[position]];
    nextItems := items[..position] + items[position + 1..];
    nextIndex := index % factorial;
    AppendAssoc(prefix, [items[pos]], Decode(items[..pos] + items[pos + 1..], rem));
  }

  /** The popping loop of `calculate_permutation`, until no candidate is left. */
  method PopAll(candidates: seq<nat>, index: nat) returns (permutation: seq<nat>)
    requires index < Fact(|candidates|)
    ensures permutation == Decode(candidates, index)
  {
    var items := candidates;
    permutation := [];
    var tempIndex: nat := index;
    while items != []
      invariant tempIndex < Fact(|items|)
      invariant permutation + Decode(items, tempIndex) == Decode(candidates, index)
      decreases |items|
    {
      permutation, items, tempIndex := PopOne(permutation, items, tempIndex);
    }
  }

  /** `calculate_permutation`: the candidates are 0..n-1. */
  method CalculatePermutation(n: nat, index: nat) returns (permutation: seq<nat>)
    requires index < Fact(n)
    ensures permutation == Decode(Range(n), index)
    ensures IsPermutation(permutation, n)
  {
    permutation := PopAll(Range(n), index);
    DecodePermutes(Range(n), index);
  }

  /** Decoding index 0 leaves the candidates in their order: the identity permutation. */
  lemma {:induction false} DecodeZero(items: seq<nat>)
    ensures Decode(items, 0) == items
    decreases |items|
  {
    if items != [] {
      DecodeZero(items[1..]);
      assert items[..0] + items[1..] == items[1..];
    }
  }

  lemma DistinctRemove(items: seq<nat>, pos: nat)
    requires Distinct(items) && pos < |items|
    ensures Distinct(items[..pos] + items[pos + 1..])
    ensures items[pos] !in items[..pos] + items[pos + 1..]
  {
    var rest := items[..pos] + items[pos + 1..];
    forall a | 0 <= a < |rest|
      ensures rest[a] == items[if a < pos then a else a + 1]
    {
    }
  }

  /** Distinct indices below |items|! decode to distinct orderings of distinct candidates. */
  lemma {:induction false} DecodeInjective(items: seq<nat>, i: nat, j: nat)
    requires Distinct(items)
    requires i < Fact(|items|) && j < Fact(|items|)
    requires Decode(items, i) == Decode(items, j)
    ensures i == j
    decreases |items|
  {
    if items != [] {
      var pi, ri := DecodeStep(items, i);
      var pj, rj := DecodeStep(items, j);
      assert items[pi] == Decode(items, i)[0] == Decode(items, j)[0] == items[pj];
      assert pi == pj;
      var rest := items[..pi] + items[pi + 1..];
      DistinctRemove(items, pi);
      assert Decode(rest, ri) == Decode(items, i)[1..] == Decode(items, j)[1..] == Decode(rest, rj);
      DecodeInjective(rest, ri, rj);
      DivModDetermine(i, j, Fact(|items| - 1));
    }
  }

  /** The position of a candidate in `items`. */
  function IndexOf(items: seq<nat>, v: nat): (k: nat)
    requires v in items
    ensures k < |items| && items[k] == v
  {
    if items[0] == v then 0 else 1 + IndexOf(items[1..], v)
  }

  /**
   * Lehmer encoding, the inverse of `Decode`: the index below |items|!
   * that decodes to the given ordering of the candidates.
   */
  function Rank(items: seq<nat>, perm: seq<nat>): nat
    decreases |items|
  {
    if items == [] || perm == [] || perm[0] !in items then 0
    else
      var pos := IndexOf(items, perm[0]);
      pos * Fact(|items| - 1) + Rank(items[..pos] + items[pos + 1..], perm[1..])
  }

  /** `Rank` is a right inverse of `Decode`: it finds the index of any reordering of the candidates. */
  lemma {:induction false} RankDecodes(items: seq<nat>, perm: seq<nat>)
    requires multiset(perm) == multiset(items)
    ensures Rank(items, perm) < Fact(|items|)
    ensures Decode(items, Rank(items, perm)) == perm
    decreases |items|
  {
    assert |perm| == |multiset(perm)| == |items|;
    if items != [] {
      RankSplit(items, perm);
      var pos := IndexOf(items, perm[0]);
      RankDecodes(items[..pos] + items[pos + 1..], perm[1..]);
      RankDecodesStep(items, perm);
    }
  }

  /** If the rest of the ordering is ranked correctly, so is the whole. */
  lemma RankDecodesStep(items: seq<nat>, perm: seq<nat>)
    requires items != [] && perm != [] && perm[0] in items
    requires var pos := IndexOf(items, perm[0]);
      var rest := items[..pos] + items[pos + 1..];
      Rank(rest, perm[1..]) < Fact(|rest|) && Decode(rest, Rank(rest, perm[1..])) == perm[1..]
    ensures Rank(items, perm) < Fact(|items|)
    ensures Decode(items, Rank(items, perm)) == perm
  {
    var pos, rest, r := RankUnfold(items, perm);
    RankStep(items, pos, r, Rank(items, perm));
    assert [perm[0]] + perm[1..] == perm;
  }

  /** One step of `Rank`, with the pieces named. */
  lemma RankUnfold(items: seq<nat>, perm: seq<nat>) returns (pos: nat, rest: seq<nat>, r: nat)
    requires items != [] && perm != [] && perm[0] in items
    ensures pos == IndexOf(items, perm[0]) && pos < |items| && items[pos] == perm[0]
    ensures rest == items[..pos] + items[pos + 1..] && |rest| == |items| - 1
    ensures r == Rank(rest, perm[1..])
    ensures Rank(items, perm) == pos * Fact(|items| - 1) + r
  {
    pos := IndexOf(items, perm[0]);
    rest := items[..pos] + items[pos + 1..];
    r := Rank(rest, perm[1..]);
  }

  lemma RankSplit(items: seq<nat>, perm: seq<nat>)
    requires items != []
    requires multiset(perm) == multiset(items)
    ensures perm != [] && perm[0] in items
    ensures multiset(perm[1..]) == multiset(items[..IndexOf(items, perm[0])] + items[IndexOf(items, perm[0]) + 1..])
  {
    assert |perm| == |multiset(perm)| == |items|;
    assert perm[0] in multiset(items);
    var pos := IndexOf(items, perm[0]);
    RemoveAt(items, pos);
    RemoveAt(perm, 0);
  }

  /** Combining a leading digit below m with a remainder below (m-1)! gives an index below m!. */
  lemma RankStep(items: seq<nat>, pos: nat, r: nat, index: nat)
    requires pos < |items| && r < Fact(|items| - 1)
    requires index == pos * Fact(|items| - 1) + r
    ensures index < Fact(|items|)
    ensures Decode(items, index) == [items[pos]] + Decode(items[..pos] + items[pos + 1..], r)
  {
    var f := Fact(|items| - 1);
    DivModOf(pos, r, f);
    MulStep(pos, |items|, f);
  }

  lemma MulStep(p: nat, m: nat, f: nat)
    requires p < m
    ensures (p + 1) * f <= m * f
  {
  }

  /** Every ordering of 0..n-1 is decoded from exactly one index below n!. */
  lemma DecodeBijective(n: nat, perm: seq<nat>)
    requires IsPermutation(perm, n)
    ensures exists index: nat :: index < Fact(n) && Decode(Range(n), index) == perm
    ensures forall i: nat, j: nat :: i < Fact(n) && j < Fact(n) && Decode(Range(n), i) == perm && Decode(Range(n), j) == perm ==> i == j
  {
    RangeDistinct(n);
    var index := Rank(Range(n), perm);
    RankDecodes(Range(n), perm);
    forall i: nat, j: nat | i < Fact(n) && j < Fact(n) && Decode(Range(n), i) == perm && Decode(Range(n), j) == perm
      ensures i == j
    {
      DecodeInjective(Range(n), i, j);
    }
  }

  datatype PermError =
    | KeyTooShort(required: nat, actual: nat, n: nat)  // the ValueError of `Permutation.__init__`
    | EmptyKey                                         // the ValueError of `int('', 2)`

  datatype Result<T> = Ok(value: T) | Err(error: PermError)

  /** A decoded permutation together with the key and index it came from. */
  datatype Permutation = Permutation(binaryString: Bits, n: nat, index: nat, permutation: seq<nat>)

  /**
   * `Permutation(binary_string, n)`: rejects a key shorter than
   * `RequiredBits(n)`; otherwise reduces the key's value modulo n! and
   * decodes it.
   */
  function NewPermutation(binaryString: Bits, n: nat): (r: Result<Permutation>)
    ensures r.Err? <==> |binaryString| < RequiredBits(n) || binaryString == []
    ensures |binaryString| < RequiredBits(n) ==> r == Err(KeyTooShort(RequiredBits(n), |binaryString|, n))
    ensures |binaryString| >= RequiredBits(n) && binaryString == [] ==> r == Err(EmptyKey)
    ensures r.Ok? ==> r.value.binaryString == binaryString && r.value.n == n
    ensures r.Ok? ==> r.value.index < Fact(n) && r.value.index == Value(binaryString) % Fact(n)
    ensures r.Ok? ==> r.value.permutation == Decode(Range(n), r.value.index)
  {
    var requiredBits := RequiredBits(n);
    if |binaryString| < requiredBits then
      Err(KeyTooShort(requiredBits, |binaryString|, n))
    else if binaryString == [] then
      Err(EmptyKey)
    else
      var index := Value(binaryString) % Fact(n);
      Ok(Permutation(binaryString, n, index, Decode(Range(n), index)))
  }

  /** An accepted key yields an ordering of 0..n-1: n entries, each below n, none repeated. */
  lemma NewPermutationValid(binaryString: Bits, n: nat)
    requires NewPermutation(binaryString, n).Ok?
    ensures IsPermutation(NewPermutation(binaryString, n).value.permutation, n)
  {
    DecodePermutes(Range(n), NewPermutation(binaryString, n).value.index);
  }

  /** So every entry of an accepted permutation is a position below n. */
  lemma NewPermutationBelow(binaryString: Bits, n: nat)
    requires NewPermutation(binaryString, n).Ok?
    ensures |NewPermutation(binaryString, n).value.permutation| == n
    ensures Below(NewPermutation(binaryString, n).value.permutation, n)
  {
    NewPermutationValid(binaryString, n);
    PermutationElements(NewPermutation(binaryString, n).value.permutation, n);
  }

  /** The constructor rejects a key as too short exactly when its 2^|key| values cannot address all n! orderings. */
  lemma KeyTooShortIff(binaryString: Bits, n: nat)
    ensures NewPermutation(binaryString, n).Err? && NewPermutation(binaryString, n).error.KeyTooShort?
            <==> Pow2(|binaryString|) < Fact(n)
  {
    EnoughBits(|binaryString|, n);
  }

  /** Two keys with the same value modulo n! give the same permutation (determinism of the decoding). */
  lemma SameIndexSamePermutation(a: Bits, b: Bits, n: nat)
    requires NewPermutation(a, n).Ok? && NewPermutation(b, n).Ok?
    ensures NewPermutation(a, n).value.permutation == NewPermutation(b, n).value.permutation
            <==> Value(a) % Fact(n) == Value(b) % Fact(n)
  {
    RangeDistinct(n);
    var i, j := Value(a) % Fact(n), Value(b) % Fact(n);
    if Decode(Range(n), i) == Decode(Range(n), j) {
      DecodeInjective(Range(n), i, j);
    }
  }
}
