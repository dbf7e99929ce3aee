/**
 * Bit strings as the three experiments use them: Python strings over
 * '0'/'1', read as big-endian numerals.  Here a bit string is a
 * sequence of booleans, `true` standing for the character '1'.
 */
module Bits {

  type Bits = seq<bool>

  /** 2^k. */
  function Pow2(k: nat): (r: nat)
    ensures r >= 1
  {
    if k == 0 then 1 else 2 * Pow2(k - 1)
  }

  lemma {:induction false} Pow2Monotone(j: nat, k: nat)
    requires j <= k
    ensures Pow2(j) <= Pow2(k)
  {
    if j < k {
      Pow2Monotone(j, k - 1);
    }
  }

  /** The value of a bit string read as a big-endian base-2 numeral (`int(s, 2)`). */
  function Value(s: Bits): (v: nat)
    ensures v < Pow2(|s|)
  {
    if s == [] then 0 else 2 * Value(s[..|s| - 1]) + (if s[|s| - 1] then 1 else 0)
  }

  /** The `w`-digit big-endian numeral of `v`, leading zeros kept (`format(v, f'0{w}b')`). */
  function ToBits(v: nat, w: nat): (s: Bits)
    requires v < Pow2(w)
    ensures |s| == w
    ensures Value(s) == v
  {
    if w == 0 then [] else
      var s := ToBits(v / 2, w - 1) + [v % 2 == 1];
      assert s[..|s| - 1] == ToBits(v / 2, w - 1);
      s
  }

  /** Reading a bit string and writing it back with the same width gives it back. */
  lemma {:induction false} ToBitsValue(s: Bits)
    ensures ToBits(Value(s), |s|) == s
  {
    if s != [] {
      var init := s[..|s| - 1];
      ToBitsValue(init);
      assert Value(s) / 2 == Value(init);
      assert s == init + [s[|s| - 1]];
    }
  }

  /** Equal-width bit strings with equal values are equal. */
  lemma ValueInjective(a: Bits, b: Bits)
    requires |a| == |b| && Value(a) == Value(b)
    ensures a == b
  {
    ToBitsValue(a);
    ToBitsValue(b);
  }

  /**
   * Position-wise exclusive or over `zip(a, b)`: the longer operand is
   * cut to the length of the shorter one.
   */
  function Xor(a: Bits, b: Bits): (r: Bits)
    ensures |r| == if |a| <= |b| then |a| else |b|
    ensures forall i :: 0 <= i < |r| ==> r[i] == (a[i] != b[i])
  {
    if a == [] || b == [] then [] else [a[0] != b[0]] + Xor(a[1..], b[1..])
  }

  lemma XorSelf(a: Bits)
    ensures Xor(a, a) == seq(|a|, _ => false)
  {
  }

  lemma XorCommutes(a: Bits, b: Bits)
    ensures Xor(a, b) == Xor(b, a)
  {
  }

  /** XOR-ing twice with an operand of the same length restores the other one. */
  lemma XorCancel(a: Bits, b: Bits)
    requires |a| == |b|
    ensures Xor(Xor(a, b), b) == a
  {
  }

  /**
   * XOR-ing twice with the same operand restores the other one, cut to
   * the shorter of the two lengths (`zip` drops the rest).
   */
  lemma XorRestores(a: Bits, b: Bits)
    ensures Xor(Xor(a, b), b) == a[..if |a| <= |b| then |a| else |b|]
  {
  }

  /** `key` repeated end to end and cut to `len` bits. */
  function Tile(key: Bits, len: nat): (r: Bits)
    requires |key| > 0 || len == 0
    ensures |r| == len && IsTiling(r, key)
  {
    seq(len, i requires 0 <= i < len => key[i % |key|])
  }

  /** `s` is `key` repeated end to end (and cut anywhere); only the empty string tiles an empty key. */
  predicate IsTiling(s: Bits, key: Bits)
  {
    if key == [] then s == [] else forall i :: 0 <= i < |s| ==> s[i] == key[i % |key|]
  }

  /** A key tiles itself. */
  lemma TilingSelf(key: Bits)
    ensures IsTiling(key, key)
  {
    if key != [] {
      forall i | 0 <= i < |key|
        ensures key[i] == key[i % |key|]
      {
        assert i % |key| == i;
      }
    }
  }

  /** A tiling is fixed by its key and its length. */
  lemma TilingUnique(s: Bits, key: Bits)
    requires IsTiling(s, key)
    ensures Tile(key, |s|) == s
  {
  }

  /** `s[::-1]`. */
  function Reverse(s: Bits): (r: Bits)
    ensures |r| == |s|
    ensures forall i :: 0 <= i < |s| ==> r[i] == s[|s| - 1 - i]
  {
    if s == [] then [] else Reverse(s[1..]) + [s[0]]
  }

  /** `''.join(parts)`. */
  function Concat(parts: seq<Bits>): (r: Bits)
    ensures |parts| == 1 ==> r == parts[0]
  {
    if parts == [] then [] else parts[0] + Concat(parts[1..])
  }

  lemma {:induction false} ConcatAppend(a: seq<Bits>, b: seq<Bits>)
    ensures Concat(a + b) == Concat(a) + Concat(b)
  {
    if a == [] {
      assert a + b == b;
    } else {
      assert (a + b)[1..] == a[1..] + b;
      ConcatAppend(a[1..], b);
    }
  }
}
