/**
 * feistel.py: a four-round Feistel-style network whose round function
 * reorders the right half by a key-derived permutation, and the test driver
 * that feeds it every w-bit input and counts repeated outputs.
 *
 * Round i (1..4) takes its key from the left half (rounds 1-3) or the
 * right half (round 4), tiles it to the input's length, permutes the
 * right half with it, XORs the result into the left half and swaps:
 * `left, right = new_right, left`.
 */
module Feistel {
  import opened Bits
  import opened Perms
  import opened Lehmer

  /**
   * `f_function(right_half, key)`: the permutation built from `key` for
   * |right_half| items, and the right half read in that order.
   */
  function FFunction(rightHalf: Bits, key: Bits): (r: Result<(Bits, seq<nat>)>)
    ensures r.Ok? <==> NewPermutation(key, |rightHalf|).Ok?
    ensures r.Err? ==> r.error == NewPermutation(key, |rightHalf|).error
    ensures r.Ok? ==> r.value.1 == NewPermutation(key, |rightHalf|).value.permutation
    ensures r.Ok? ==> |r.value.0| == |r.value.1| == |rightHalf| && Below(r.value.1, |rightHalf|)
  {
    match NewPermutation(key, |rightHalf|)
    case Err(e) => Err(e)
    case Ok(perm) =>
      NewPermutationBelow(key, |rightHalf|);
      Ok((Permute(rightHalf, perm.permutation), perm.permutation))
  }

  /** Position i of the round function's output holds bit `perm[i]` of the right half. */
  lemma FFunctionReads(rightHalf: Bits, key: Bits)
    requires FFunction(rightHalf, key).Ok?
    ensures forall i :: 0 <= i < |rightHalf| ==>
      FFunction(rightHalf, key).value.1[i] < |rightHalf|
      && FFunction(rightHalf, key).value.0[i] == rightHalf[FFunction(rightHalf, key).value.1[i]]
  {
  }

  /**
   * The round function only reorders: it reads the right half through an
   * ordering of its positions, so the output has the same bits (the same
   * count of '1's).
   */
  lemma FFunctionPreservesBits(rightHalf: Bits, key: Bits)
    requires FFunction(rightHalf, key).Ok?
    ensures IsPermutation(FFunction(rightHalf, key).value.1, |rightHalf|)
    ensures multiset(FFunction(rightHalf, key).value.0) == multiset(rightHalf)
  {
    var perm := NewPermutation(key, |rightHalf|).value.permutation;
    NewPermutationValid(key, |rightHalf|);
    PermutePreservesBits(rightHalf, perm);
  }

  /** Positions a whole number of periods apart hold the same bit of a tiled key. */
  lemma ModShift(i: nat, l: nat, k: nat)
    requires k > 0 && l % k == 0 && l <= i
    ensures (i - l) % k == i % k
  {
    var q := l / k;
    var a := i - l;
    var d := a / k + q;
    assert a == (a / k) * k + a % k;
    assert l == q * k;
    assert d * k == (a / k) * k + q * k;
    assert d * k + a % k == i;
    DivModOf(d, a % k, k);
  }

  /**
   * The key-lengthening loop of `feistel_network`: while the key is
   * shorter than the input, append as much of it as still fits.  An empty
   * key never grows, so the loop would not end for a positive target;
   * the precondition keeps that case out.
   */
  method LengthenKey(key: Bits, target: nat) returns (baseKey: Bits)
    requires |key| > 0 || target == 0
    ensures |baseKey| == if |key| >= target then |key| else target
    ensures IsTiling(baseKey, key)
  {
    baseKey := key;
    LengthenStart(key, target);
    while |baseKey| < target
      invariant Lengthening(baseKey, key, target)
      decreases target - |baseKey|
    {
      var missing := target - |baseKey|;
      var take := if missing < |baseKey| then missing else |baseKey|;
      LengthenStep(baseKey, key, target, take);
      baseKey := baseKey + baseKey[..take];
    }
    LengthenDone(baseKey, key, target);
  }

  lemma LengthenStart(key: Bits, target: nat)
    requires |key| > 0 || target == 0
    ensures Lengthening(key, key, target)
  {
    TilingSelf(key);
  }

  lemma LengthenDone(baseKey: Bits, key: Bits, target: nat)
    requires Lengthening(baseKey, key, target) && |baseKey| >= target
    ensures |baseKey| == if |key| >= target then |key| else target
    ensures IsTiling(baseKey, key)
  {
  }

  /** The loop invariant of `LengthenKey`: a tiling of `key`, grown by whole copies until the last step. */
  predicate Lengthening(baseKey: Bits, key: Bits, target: nat)
  {
    && |key| <= |baseKey| <= (if |key| >= target then |key| else target)
    && (|baseKey| < target ==> |key| > 0 && |baseKey| % |key| == 0)
    && IsTiling(baseKey, key)
  }

  lemma LengthenStep(baseKey: Bits, key: Bits, target: nat, take: nat)
    requires Lengthening(baseKey, key, target) && |baseKey| < target
    requires take == if target - |baseKey| < |baseKey| then target - |baseKey| else |baseKey|
    ensures Lengthening(baseKey + baseKey[..take], key, target)
  {
    TilingGrows(baseKey, key, take);
  }

  /** Appending a prefix to a tiling that ends on a period boundary gives a longer tiling. */
  lemma TilingGrows(s: Bits, key: Bits, take: nat)
    requires key != [] && |s| % |key| == 0 && take <= |s|
    requires IsTiling(s, key)
    ensures IsTiling(s + s[..take], key)
    ensures (|s| + take) % |key| == 0 || take < |s|
  {
    var t := s + s[..take];
    forall i | 0 <= i < |t|
      ensures t[i] == key[i % |key|]
    {
      if i >= |s| {
        ModShift(i, |s|, |key|);
      }
    }
    if take == |s| {
      assert |s| + take == 2 * |s|;
      ModDouble(|s|, |key|);
    }
  }

  lemma ModDouble(l: nat, k: nat)
    requires k > 0 && l % k == 0
    ensures (2 * l) % k == 0
  {
    DivModOf(2 * (l / k), 0, k);
  }

  /** The round key after lengthening: the key itself when long enough, else its tiling to `n` bits. */
  function RoundKey(base: Bits, n: nat): (key: Bits)
    requires |base| > 0 || n == 0
    ensures |key| == if |base| >= n then |base| else n
  {
    if |base| >= n then base else Tile(base, n)
  }

  /** Bit i of the round key is bit (i mod |base|) of the half it came from. */
  lemma RoundKeyTiles(base: Bits, n: nat)
    requires |base| > 0 || n == 0
    ensures IsTiling(RoundKey(base, n), base)
  {
    if |base| >= n {
      TilingSelf(base);
    }
  }

  /**
   * Rounds `round`..4 of `feistel_network` on input length `n`, from the
   * state (`left`, `right`); a raised error ends the run.
   */
  function Rounds(n: nat, round: nat, left: Bits, right: Bits): (r: Result<Bits>)
    requires 1 <= round <= 5
    requires n == 0 || (|left| > 0 && |right| > 0)
    ensures r.Ok? ==> |r.value| <= |left| + |right|
    ensures n > 0 && r.Err? ==> r.error.KeyTooShort?
    decreases 5 - round, 1
  {
    if round == 5 then Ok(left + right) else Round(n, round, left, right)
  }

  /**
   * Round `round` (1..4) and the rounds after it: derive the key, apply
   * the round function to the right half, XOR into the left half, swap.
   */
  function Round(n: nat, round: nat, left: Bits, right: Bits): (r: Result<Bits>)
    requires 1 <= round <= 4
    requires n == 0 || (|left| > 0 && |right| > 0)
    ensures r.Ok? ==> |r.value| <= |left| + |right|
    ensures n > 0 && r.Err? ==> r.error.KeyTooShort?
    decreases 5 - round, 0
  {
    var key := RoundKey(if round == 4 then right else left, n);
    match FFunction(right, key)
    case Err(e) => Err(e)
    case Ok((transformed, _)) =>
      Rounds(n, round + 1, Xor(left, transformed), left)
  }

  /**
   * `feistel_network(input_bits)` (its output; the trace strings are not
   * modelled).  A one-bit input has an empty left half, whose lengthening
   * never ends, so it is excluded.
   */
  function Network(input: Bits): (r: Result<Bits>)
    requires |input| != 1
    ensures r.Ok? ==> |r.value| <= |input|
    ensures |input| > 0 && r.Err? ==> r.error.KeyTooShort?
  {
    Rounds(|input|, 1, input[..|input| / 2], input[|input| / 2..])
  }

  /** `feistel_network`: four rounds updating `left` and `right` in place. */
  method FeistelNetwork(input: Bits) returns (output: Result<Bits>)
    requires |input| != 1
    ensures output == Network(input)
  {
    var n := |input|;
    var splitIndex := n / 2;
    var left := input[..splitIndex];
    var right := input[splitIndex..];
    for roundNumber := 1 to 5
      invariant n == 0 || (|left| > 0 && |right| > 0)
      invariant Rounds(n, roundNumber, left, right) == Network(input)
    {
      var baseKey := if roundNumber == 4 then right else left;
      baseKey := LengthenKey(baseKey, n);
      TilingUnique(baseKey, if roundNumber == 4 then right else left);
      RoundKeyTiles(if roundNumber == 4 then right else left, n);
      TilingUnique(RoundKey(if roundNumber == 4 then right else left, n), if roundNumber == 4 then right else left);
      var f := FFunction(right, baseKey);
      if f.Err? {
        return Err(f.error);
      }
      var transformed := f.value.0;
      var newRight := Xor(left, transformed);
      left, right := newRight, left;
    }
    output := Ok(left + right);
  }

  /** One round, unfolded: the error of the round function, or the rounds after it on the swapped state. */
  lemma RoundStep(n: nat, round: nat, left: Bits, right: Bits)
    requires 1 <= round <= 4
    requires n == 0 || (|left| > 0 && |right| > 0)
    ensures var f := FFunction(right, RoundKey(if round == 4 then right else left, n));
      Rounds(n, round, left, right) == if f.Err? then Err(f.error) else Rounds(n, round + 1, Xor(left, f.value.0), left)
  {
  }

  /** A non-empty round key is accepted for h items exactly when it has at least `RequiredBits(h)` bits. */
  lemma RoundAccepts(right: Bits, key: Bits)
    requires |key| > 0
    ensures FFunction(right, key).Ok? <==> |key| >= RequiredBits(|right|)
    ensures FFunction(right, key).Err? ==> FFunction(right, key).error.KeyTooShort?
  {
  }

  /** One more item never needs a shorter key. */
  lemma RequiredBitsGrow(h: nat)
    ensures RequiredBits(h) <= RequiredBits(h + 1)
  {
    assert Fact(h) <= Fact(h + 1);
    EnoughBits(RequiredBits(h + 1), h);
  }

  /**
   * One round on two halves of h bits (0 < h < n): accepted exactly when
   * n >= `RequiredBits(h)`, with the too-short error otherwise, and then
   * again two halves of h bits.
   */
  lemma SteadyRound(n: nat, round: nat, left: Bits, right: Bits) returns (accepted: bool, next: Bits)
    requires 1 <= round <= 4
    requires 0 < |left| == |right| < n
    ensures accepted <==> n >= RequiredBits(|right|)
    ensures !accepted ==> SteadyOutcome(n, round, left, right)
    ensures accepted ==> |next| == |left| && Rounds(n, round, left, right) == Rounds(n, round + 1, next, left)
  {
    var key := RoundKey(if round == 4 then right else left, n);
    RoundAccepts(right, key);
    RoundStep(n, round, left, right);
    var f := FFunction(right, key);
    accepted := f.Ok?;
    next := if f.Ok? then Xor(left, f.value.0) else left;
  }

  /**
   * A run's result `r`: it succeeds exactly when `accepted`, has `len`
   * bits when it does, and fails only with the too-short error.
   */
  predicate RunFacts(r: Result<Bits>, accepted: bool, len: nat)
  {
    && (r.Ok? <==> accepted)
    && (r.Ok? ==> |r.value| == len)
    && (r.Err? ==> r.error.KeyTooShort?)
  }

  /** The facts `RoundsSteady` states about the run from `round` on. */
  predicate SteadyOutcome(n: nat, round: nat, left: Bits, right: Bits)
    requires 1 <= round <= 5
    requires n == 0 || (|left| > 0 && |right| > 0)
  {
    RunFacts(Rounds(n, round, left, right), round == 5 || n >= RequiredBits(|right|), 2 * |right|)
  }

  /**
   * Once both halves have h bits (0 < h < n), every remaining round keeps
   * them at h bits, and the run succeeds exactly when n >= `RequiredBits(h)`;
   * when it fails, it is with the too-short error.
   */
  lemma {:induction false} RoundsSteady(n: nat, round: nat, left: Bits, right: Bits)
    requires 1 <= round <= 5
    requires 0 < |left| == |right| < n
    ensures SteadyOutcome(n, round, left, right)
    decreases 5 - round
  {
    if round == 5 {
      assert Rounds(n, round, left, right) == Ok(left + right);
    } else {
      var accepted, next := SteadyRound(n, round, left, right);
      if accepted {
        RoundsSteady(n, round + 1, next, left);
        SteadyCarries(n, round, left, right, next);
      }
    }
  }

  /**
   * An accepted round hands its outcome down from the rounds after it.
   * Kept apart from `RoundsSteady` so that the network's definition is not
   * unfolded while the facts are moved across the equation.
   */
  lemma SteadyCarries(n: nat, round: nat, left: Bits, right: Bits, next: Bits)
    requires 1 <= round <= 4
    requires 0 < |left| == |right| == |next| < n
    requires n >= RequiredBits(|right|)
    requires Rounds(n, round, left, right) == Rounds(n, round + 1, next, left)
    requires SteadyOutcome(n, round + 1, next, left)
    ensures SteadyOutcome(n, round, left, right)
  {
  }

  /**
   * An odd input (h bits left, h+1 right) is accepted in round 1 exactly
   * when n >= `RequiredBits(h+1)`, and the round leaves two halves of h
   * bits; as h+1 items never need fewer bits than h, the later rounds
   * then accept too.
   */
  lemma FirstRoundOdd(n: nat, left: Bits, right: Bits)
    requires 0 < |left| && |right| == |left| + 1 && n == |left| + |right|
    ensures RunFacts(Rounds(n, 1, left, right), n >= RequiredBits(|right|), 2 * |left|)
  {
    var accepted, next := OddRound(n, left, right);
    if accepted {
      RoundsSteady(n, 2, next, left);
      RequiredBitsGrow(|left|);
      RunCarries(Rounds(n, 1, left, right), Rounds(n, 2, next, left), true, 2 * |left|);
    }
  }

  /** The first round on an odd input, as `SteadyRound` does it for equal halves. */
  lemma OddRound(n: nat, left: Bits, right: Bits) returns (accepted: bool, next: Bits)
    requires 0 < |left| && |right| == |left| + 1 && n == |left| + |right|
    ensures accepted <==> n >= RequiredBits(|right|)
    ensures !accepted ==> RunFacts(Rounds(n, 1, left, right), n >= RequiredBits(|right|), 2 * |left|)
    ensures accepted ==> |next| == |left| && Rounds(n, 1, left, right) == Rounds(n, 2, next, left)
  {
    var key := RoundKey(left, n);
    RoundAccepts(right, key);
    RoundStep(n, 1, left, right);
    var f := FFunction(right, key);
    accepted := f.Ok?;
    next := if f.Ok? then Xor(left, f.value.0) else left;
  }

  /**
   * Moves `RunFacts` across an equation of two runs, in a context that holds
   * nothing else; inlined, the step makes the solver unfold the network.
   */
  lemma RunCarries(a: Result<Bits>, b: Result<Bits>, accepted: bool, len: nat)
    requires a == b && RunFacts(b, accepted, len)
    ensures RunFacts(a, accepted, len)
  {
  }

  /**
   * `feistel_network` raises on the empty input (`int('', 2)`); otherwise
   * it succeeds exactly when the |input|-bit round key is long
   * enough for the longer half h = |input| - |input|/2, and raises the too-short error when not.  Its
   * output has the even length 2*(|input|/2): an odd input loses one bit
   * in the first XOR, which `zip` cuts to the shorter left half.
   */
  lemma NetworkOutcome(input: Bits)
    requires |input| != 1
    ensures |input| == 0 ==> Network(input) == Err(EmptyKey)
    ensures Network(input).Ok? <==> |input| > 0 && |input| >= RequiredBits(|input| - |input| / 2)
    ensures Network(input).Ok? ==> |Network(input).value| == 2 * (|input| / 2)
    ensures Network(input).Err? && |input| > 0 ==> Network(input).error.KeyTooShort?
  {
    RunOutcome(input);
  }

  lemma RunOutcome(input: Bits)
    requires |input| != 1
    ensures OutcomeOf(Network(input), |input|)
  {
    var n := |input|;
    var left, right := input[..n / 2], input[n / 2..];
    if n == 0 {
      EmptyRun();
    } else if n % 2 == 0 {
      RoundsSteady(n, 1, left, right);
      EvenFacts(Rounds(n, 1, left, right), n, |right|);
    } else {
      FirstRoundOdd(n, left, right);
      OddFacts(Rounds(n, 1, left, right), n, |left|);
    }
  }

  /** What `NetworkOutcome` states about a run `r` of the network on an n-bit input. */
  predicate OutcomeOf(r: Result<Bits>, n: nat)
  {
    && (n == 0 ==> r == Err(EmptyKey))
    && (r.Ok? <==> n > 0 && n >= RequiredBits(n - n / 2))
    && (r.Ok? ==> |r.value| == 2 * (n / 2))
    && (r.Err? && n > 0 ==> r.error.KeyTooShort?)
  }

  lemma EmptyRun()
    ensures OutcomeOf(Rounds(0, 1, [], []), 0)
  {
    assert RoundKey([], 0) == [];
    assert NewPermutation([], 0) == Err(EmptyKey);
  }

  /** `RunFacts` of an even-length run gives `OutcomeOf`; a separate small context, as for `RunCarries`. */
  lemma EvenFacts(r: Result<Bits>, n: nat, h: nat)
    requires h > 0 && n == 2 * h
    requires RunFacts(r, n >= RequiredBits(h), 2 * h)
    ensures OutcomeOf(r, n)
  {
  }

  /** `RunFacts` of an odd-length run gives `OutcomeOf`; a separate small context, as for `RunCarries`. */
  lemma OddFacts(r: Result<Bits>, n: nat, h: nat)
    requires h > 0 && n == 2 * h + 1
    requires RunFacts(r, n >= RequiredBits(h + 1), 2 * h)
    ensures OutcomeOf(r, n)
  {
  }

  /** Powers of two up to 2^18, evaluated step by step. */
  lemma Pow2Table()
    ensures Pow2(2) == 4 && Pow2(3) == 8 && Pow2(4) == 16 && Pow2(5) == 32 && Pow2(6) == 64
    ensures Pow2(7) == 128 && Pow2(8) == 256 && Pow2(9) == 512 && Pow2(10) == 1024
    ensures Pow2(11) == 2048 && Pow2(12) == 4096 && Pow2(13) == 8192 && Pow2(14) == 16384
    ensures Pow2(15) == 32768 && Pow2(16) == 65536 && Pow2(17) == 131072 && Pow2(18) == 262144
  {
    assert Pow2(2) == 4;
    assert Pow2(4) == 16;
    assert Pow2(6) == 64;
    assert Pow2(8) == 256;
    assert Pow2(10) == 1024;
    assert Pow2(12) == 4096;
    assert Pow2(14) == 16384;
    assert Pow2(16) == 65536;
    assert Pow2(18) == 262144;
  }

  /** From 9 on, h! exceeds 2^(2h). */
  lemma {:induction false} FactOutgrows(h: nat)
    requires h >= 9
    ensures Fact(h) > Pow2(2 * h)
  {
    if h == 9 {
      FactNine();
    } else {
      FactOutgrows(h - 1);
      var f, p := Fact(h - 1), Pow2(2 * (h - 1));
      assert Pow2(2 * h) == 4 * p;
      assert Fact(h) == h * f;
      ScaleAbove(h, f, p);
    }
  }

  lemma FactNine()
    ensures Fact(9) > Pow2(18)
  {
    Pow2Table();
    assert Fact(9) == 362880;
  }

  lemma ScaleAbove(h: nat, f: nat, p: nat)
    requires h >= 9 && f > p
    ensures h * f > 4 * p
  {
    assert h * f == 9 * f + (h - 9) * f;
  }

  lemma FactEight()
    ensures Pow2(15) < Fact(8) <= Pow2(16)
  {
    Pow2Table();
    assert Fact(8) == 40320;
  }

  /** Up to 7, h! fits in 2h-1 bits. */
  lemma FactSmall(h: nat)
    requires 1 <= h <= 7
    ensures Fact(h) <= Pow2(2 * h - 1)
  {
    Pow2Table();
    if h == 1 { } else if h == 2 { } else if h == 3 { } else if h == 4 { }
    else if h == 5 { } else if h == 6 { } else { assert Fact(7) == 5040; }
  }

  /**
   * The widths `feistel_network` accepts: an input of n >= 2 bits has a
   * long enough round key exactly when n <= 16 and n != 15.  At 15 bits
   * the longer half has 8 bits and 2^15 < 8!; from 17 bits on,
   * 2^n < (ceil(n/2))! always.
   */
  lemma AcceptedWidths(n: nat)
    requires n >= 2
    ensures n >= RequiredBits(n - n / 2) <==> n <= 16 && n != 15
  {
    var h := n - n / 2;
    assert n == 2 * h || n == 2 * h - 1;
    EnoughBits(n, h);
    WidthCovers(n, h);
  }

  /** Whether 2^n >= h! for the longer half h of an n-bit input. */
  lemma WidthCovers(n: nat, h: nat)
    requires h >= 1 && (n == 2 * h || n == 2 * h - 1)
    ensures Pow2(n) >= Fact(h) <==> n <= 16 && n != 15
  {
    if h >= 9 {
      FactOutgrows(h);
      Pow2Monotone(n, 2 * h);
    } else if h == 8 {
      FactEight();
      if n == 15 { } else { assert n == 16; }
    } else {
      SmallCovered(n, h);
    }
  }

  lemma SmallCovered(n: nat, h: nat)
    requires 1 <= h <= 7 && (n == 2 * h || n == 2 * h - 1)
    ensures Pow2(n) >= Fact(h)
  {
    FactSmall(h);
    Pow2Monotone(2 * h - 1, n);
  }

  /**
   * The network on the widths it accepts: it runs to completion on every
   * input of 2..16 bits except 15, returning an output of the input's
   * even-rounded length, and raises the too-short error on every other
   * non-empty input.
   */
  lemma NetworkWidths(input: Bits)
    requires |input| != 1
    ensures Network(input).Ok? <==> 2 <= |input| <= 16 && |input| != 15
    ensures Network(input).Ok? ==> |Network(input).value| == 2 * (|input| / 2)
    ensures |input| > 0 && Network(input).Err? ==> Network(input).error.KeyTooShort?
  {
    NetworkOutcome(input);
    if |input| >= 2 {
      AcceptedWidths(|input|);
    }
  }

  // The collision test driver (`test_bit_lengths`).

  /** The network's results on the inputs 0, 1, ..., m-1 written with `bits` bits. */
  function Runs(bits: nat, m: nat): (rs: seq<Result<Bits>>)
    requires bits != 1 && m <= Pow2(bits)
    ensures |rs| == m
  {
    if m == 0 then [] else Runs(bits, m - 1) + [Network(ToBits(m - 1, bits))]
  }

  /** Every run in `rs` succeeded. */
  predicate AllOk(rs: seq<Result<Bits>>)
  {
    forall j :: 0 <= j < |rs| ==> rs[j].Ok?
  }

  /** The sum of the counts of `keys` (a key with no count adds nothing). */
  function Total(keys: seq<Bits>, counts: map<Bits, nat>): nat
  {
    if keys == [] then 0
    else
      var k := keys[|keys| - 1];
      Total(keys[..|keys| - 1], counts) + (if k in counts then counts[k] else 0)
  }

  /** `sum(count - 1 for count in counts if count > 1)` over the counts of `keys`. */
  function Excess(keys: seq<Bits>, counts: map<Bits, nat>): nat
  {
    if keys == [] then 0
    else
      var k := keys[|keys| - 1];
      Excess(keys[..|keys| - 1], counts) + (if k in counts && counts[k] > 1 then counts[k] - 1 else 0)
  }

  /** Changing the count of a key outside `keys` leaves their total alone. */
  lemma {:induction false} TotalFrame(keys: seq<Bits>, counts: map<Bits, nat>, o: Bits, v: nat)
    requires o !in keys
    ensures Total(keys, counts[o := v]) == Total(keys, counts)
  {
    if keys != [] {
      TotalFrame(keys[..|keys| - 1], counts, o, v);
    }
  }

  /** Counting one more occurrence of a key listed once raises the total by one. */
  lemma {:induction false} TotalBump(keys: seq<Bits>, counts: map<Bits, nat>, o: Bits)
    requires Distinct(keys) && o in keys && o in counts
    ensures Total(keys, counts[o := counts[o] + 1]) == Total(keys, counts) + 1
  {
    var init, k := keys[..|keys| - 1], keys[|keys| - 1];
    assert keys == init + [k];
    if k == o {
      assert o !in init;
      TotalFrame(init, counts, o, counts[o] + 1);
    } else {
      TotalBump(init, counts, o);
    }
  }

  /** When every listed key has been seen, the collisions are the total minus the distinct keys. */
  lemma {:induction false} ExcessTotal(keys: seq<Bits>, counts: map<Bits, nat>)
    requires forall o :: o in keys ==> o in counts && counts[o] >= 1
    ensures Excess(keys, counts) == Total(keys, counts) - |keys|
    ensures Total(keys, counts) >= |keys|
  {
    if keys != [] {
      ExcessTotal(keys[..|keys| - 1], counts);
    }
  }

  /**
   * `counts` and `order` are the dictionary `output_count` after counting
   * the successful results in `seen`: its keys in insertion order, no key
   * twice, exactly the outputs seen, each counted as often as it occurs,
   * and the counts adding up to the number of results.
   */
  ghost predicate Tallied(counts: map<Bits, nat>, order: seq<Bits>, seen: seq<Result<Bits>>)
  {
    && Distinct(order)
    && (forall o :: o in counts <==> o in order)
    && (forall o :: o in counts <==> Ok(o) in seen)
    && (forall o :: o in counts ==> counts[o] == multiset(seen)[Ok(o)])
    && Total(order, counts) == |seen|
  }

  /** `if output in output_count: output_count[output] += 1 else: output_count[output] = 1`. */
  method RecordOutput(counts: map<Bits, nat>, order: seq<Bits>, output: Bits, ghost seen: seq<Result<Bits>>)
    returns (counts': map<Bits, nat>, order': seq<Bits>)
    requires Tallied(counts, order, seen)
    ensures Tallied(counts', order', seen + [Ok(output)])
    ensures counts' == counts[output := if output in counts then counts[output] + 1 else 1]
    ensures order' == if output in counts then order else order + [output]
  {
    assert multiset(seen + [Ok(output)]) == multiset(seen) + multiset{Ok(output)};
    if output in counts {
      TotalBump(order, counts, output);
      counts', order' := counts[output := counts[output] + 1], order;
    } else {
      TotalFrame(order, counts, output, 1);
      counts', order' := counts[output := 1], order + [output];
    }
  }

  /** The run on input i extends the runs on 0..i-1, and succeeds at an accepted width. */
  lemma RunsStep(bits: nat, seen: seq<Result<Bits>>, result: Result<Bits>)
    requires 2 <= bits <= 16 && bits != 15
    requires |seen| < Pow2(bits) && seen == Runs(bits, |seen|) && AllOk(seen)
    requires result == Network(ToBits(|seen|, bits))
    ensures seen + [result] == Runs(bits, |seen| + 1)
    ensures result.Ok? && AllOk(seen + [result])
  {
    RunsSnoc(bits, seen, result);
    RunSucceeds(bits, |seen|, result);
    AllOkSnoc(seen, result);
  }

  lemma RunsSnoc(bits: nat, seen: seq<Result<Bits>>, result: Result<Bits>)
    requires bits != 1 && |seen| < Pow2(bits) && seen == Runs(bits, |seen|)
    requires result == Network(ToBits(|seen|, bits))
    ensures seen + [result] == Runs(bits, |seen| + 1)
  {
  }

  lemma RunSucceeds(bits: nat, i: nat, result: Result<Bits>)
    requires 2 <= bits <= 16 && bits != 15 && i < Pow2(bits)
    requires result == Network(ToBits(i, bits))
    ensures result.Ok?
  {
    NetworkWidths(ToBits(i, bits));
  }

  lemma AllOkSnoc(rs: seq<Result<Bits>>, r: Result<Bits>)
    requires AllOk(rs) && r.Ok?
    ensures AllOk(rs + [r])
  {
  }

  /**
   * The counting loop of `test_bit_lengths` for one width: run the
   * network on every `bits`-bit input 0 .. 2^bits-1 and count each output
   * in a dictionary; `order` is the dictionary's insertion order.  Every
   * run succeeds, and the dictionary tallies their outputs.
   */
  method CountOutputs(bits: nat) returns (counts: map<Bits, nat>, order: seq<Bits>)
    requires 2 <= bits <= 16 && bits != 15
    ensures AllOk(Runs(bits, Pow2(bits)))
    ensures Tallied(counts, order, Runs(bits, Pow2(bits)))
  {
    counts, order := map[], [];
    ghost var seen: seq<Result<Bits>> := [];
    var total := Pow2(bits);
    for i := 0 to total
      invariant |seen| == i && seen == Runs(bits, i)
      invariant AllOk(seen)
      invariant Tallied(counts, order, seen)
    {
      var binaryString := ToBits(i, bits);
      var result := FeistelNetwork(binaryString);
      RunsStep(bits, seen, result);
      counts, order := RecordOutput(counts, order, result.value, seen);
      seen := seen + [result];
    }
  }

  /**
   * `collision_count`: the outputs beyond the first of each value, which
   * is the number of inputs minus the number of distinct outputs.
   */
  method CollisionCount(bits: nat) returns (collisionCount: nat, counts: map<Bits, nat>, order: seq<Bits>)
    requires 2 <= bits <= 16 && bits != 15
    ensures Tallied(counts, order, Runs(bits, Pow2(bits)))
    ensures collisionCount == Excess(order, counts)
    ensures collisionCount == Pow2(bits) - |order|
    ensures collisionCount == Collisions(bits)
  {
    counts, order := CountOutputs(bits);
    collisionCount := SumExcess(counts, order);
    TalliedCounts(counts, order, Runs(bits, Pow2(bits)));
    TalliedDistinct(counts, order, Runs(bits, Pow2(bits)));
    ExcessTotal(order, counts);
  }

  /** `sum(count - 1 for count in output_count.values() if count > 1)`, in insertion order. */
  method SumExcess(counts: map<Bits, nat>, order: seq<Bits>) returns (collisionCount: nat)
    requires forall o :: o in order ==> o in counts
    ensures collisionCount == Excess(order, counts)
  {
    collisionCount := 0;
    for k := 0 to |order|
      invariant collisionCount == Excess(order[..k], counts)
    {
      assert order[..k + 1][..k] == order[..k];
      var count := counts[order[k]];
      if count > 1 {
        collisionCount := collisionCount + (count - 1);
      }
    }
    assert order[..|order|] == order;
  }

  /** Every output listed has been seen at least once. */
  lemma TalliedCounts(counts: map<Bits, nat>, order: seq<Bits>, seen: seq<Result<Bits>>)
    requires Tallied(counts, order, seen)
    ensures forall o :: o in order ==> o in counts && counts[o] >= 1
    ensures Total(order, counts) == |seen|
  {
  }

  /** The distinct outputs of the successful runs in `rs`. */
  ghost function Outputs(rs: seq<Result<Bits>>): set<Bits>
  {
    set r | r in rs && r.Ok? :: r.value
  }

  /** The dictionary has one key per distinct output. */
  lemma TalliedDistinct(counts: map<Bits, nat>, order: seq<Bits>, seen: seq<Result<Bits>>)
    requires Tallied(counts, order, seen)
    ensures |order| == |Outputs(seen)|
  {
    assert (set o | o in order) == Outputs(seen) by {
      forall o | o in order ensures o in Outputs(seen) {
        assert Ok(o) in seen;
      }
      forall o | o in Outputs(seen) ensures o in order {
        var r :| r in seen && r.Ok? && r.value == o;
        assert Ok(o) == r;
      }
    }
    DistinctCard(order);
  }

  /** A list without repeats has as many entries as it has distinct ones. */
  lemma {:induction false} DistinctCard(s: seq<Bits>)
    requires Distinct(s)
    ensures |set o | o in s| == |s|
  {
    if s != [] {
      var init, last := s[..|s| - 1], s[|s| - 1];
      assert s == init + [last];
      assert Distinct(init);
      DistinctCard(init);
      assert last !in init;
      assert (set o | o in s) == (set o | o in init) + {last};
    }
  }

  /** The collisions among the runs on all `bits`-bit inputs: inputs minus distinct outputs. */
  ghost function Collisions(bits: nat): int
    requires bits != 1
  {
    Pow2(bits) - |Outputs(Runs(bits, Pow2(bits)))|
  }

  /**
   * `test_bit_lengths`: the collision count for each width 8, 10, ..., 16
   * (the log file and the percentage are not modelled).
   */
  method TestBitLengths() returns (collisions: seq<nat>)
    ensures |collisions| == 5 && Lists(collisions, WidthCollisions)
  {
    collisions := [];
    for k := 0 to 5
      invariant |collisions| == k && Lists(collisions, WidthCollisions)
    {
      var collisionCount := CollisionsAt(8 + 2 * k);
      ListsGrow(collisions, collisionCount, WidthCollisions);
      collisions := collisions + [collisionCount];
    }
  }

  /** The collisions at the k-th width the test driver tries, 8 + 2k bits. */
  ghost function WidthCollisions(k: nat): int
  {
    Collisions(8 + 2 * k)
  }

  /** `s` lists f(0), f(1), ..., f(|s|-1). */
  ghost predicate Lists(s: seq<nat>, f: nat -> int)
  {
    forall j :: 0 <= j < |s| ==> s[j] == f(j)
  }

  lemma ListsGrow(s: seq<nat>, next: nat, f: nat -> int)
    requires Lists(s, f) && next == f(|s|)
    ensures Lists(s + [next], f)
  {
    var longer := s + [next];
    forall j | 0 <= j < |longer|
      ensures longer[j] == f(j)
    {
      if j < |s| {
        assert longer[j] == s[j];
      }
    }
  }

  /** The collision count of one width, as `test_bit_lengths` reports it. */
  method CollisionsAt(bits: nat) returns (collisionCount: nat)
    requires 2 <= bits <= 16 && bits != 15
    ensures collisionCount == Collisions(bits)
  {
    var counts, order;
    collisionCount, counts, order := CollisionCount(bits);
  }
}
