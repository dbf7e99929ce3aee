/**
 * aes_vs_feistel_commitment.py: the second four-round network, compared
 * there against AES.  It shares the `Permutation` engine (modelled in
 * `Lehmer`) but differs from feistel.py in three places:
 *   - `extend_key` doubles the key and cuts it, instead of appending
 *     prefixes;
 *   - the round function lengthens its key itself, to exactly the
 *     `ceil(log2(n!))` bits the engine asks for;
 *   - rounds 1-3 take their key from the right half and round 4 from the
 *     left half, and the state moves on as `left, right = right, new_right`.
 */
module AesFeistel {
  import opened Bits
  import opened Perms
  import opened Lehmer
  import Feistel

  /**
   * `extend_key(key, required_length)`: double the key until it is long
   * enough, then cut it.  An empty key never grows, so the loop would not
   * end for a positive length; the precondition keeps that case out.
   */
  method ExtendKey(key: Bits, requiredLength: nat) returns (extended: Bits)
    requires |key| > 0 || requiredLength == 0
    ensures extended == Tile(key, requiredLength)
  {
    var k := key;
    TilingSelf(key);
    while |k| < requiredLength
      invariant Doubled(k, key)
      decreases requiredLength - |k|
    {
      DoubleStep(k, key);
      k := k + k;
    }
    TilePrefix(k, key, requiredLength);
    extended := k[..requiredLength];
  }

  /** The loop invariant of `ExtendKey`: a tiling of `key` by whole copies. */
  predicate Doubled(k: Bits, key: Bits)
  {
    && IsTiling(k, key)
    && (key != [] ==> |key| <= |k| && |k| % |key| == 0)
  }

  lemma DoubleStep(k: Bits, key: Bits)
    requires Doubled(k, key) && k != []
    ensures Doubled(k + k, key)
  {
    assert k[..|k|] == k;
    Feistel.TilingGrows(k, key, |k|);
  }

  /** Any prefix of a tiling is the tiling of that length. */
  lemma TilePrefix(s: Bits, key: Bits, len: nat)
    requires IsTiling(s, key) && len <= |s|
    ensures s[..len] == Tile(key, len)
  {
    assert IsTiling(s[..len], key);
    TilingUnique(s[..len], key);
  }

  /** A key already long enough is simply cut to the required length. */
  lemma ExtendTruncates(key: Bits, len: nat)
    requires len <= |key|
    ensures Tile(key, len) == key[..len]
  {
    TilingSelf(key);
    TilePrefix(key, key, len);
  }

  /**
   * Extending twice, first to n and then to m bits, is extending once to
   * m bits when the second cut stays inside the first (m <= n) or the
   * first length is a whole number of copies of the key.
   */
  lemma TiledTiled(key: Bits, n: nat, m: nat)
    requires |key| > 0 && n > 0
    requires m <= n || n % |key| == 0
    ensures Tile(Tile(key, n), m) == Tile(key, m)
  {
    var once, twice := Tile(key, m), Tile(Tile(key, n), m);
    var extended := Tile(key, n);
    forall i | 0 <= i < m
      ensures twice[i] == once[i]
    {
      assert twice[i] == extended[i % n] == key[(i % n) % |key|];
      if m > n {
        ModOfMod(i, n, |key|);
      } else {
        DivModOf(0, i, n);
      }
    }
  }

  /** Reducing modulo a multiple of k first does not change the residue modulo k. */
  lemma ModOfMod(i: nat, n: nat, k: nat)
    requires k > 0 && n > 0 && n % k == 0
    ensures (i % n) % k == i % k
  {
    var q := i / n;
    assert q * n <= i && i - q * n == i % n;
    MultipleMod(q, n, k);
    Feistel.ModShift(i, q * n, k);
  }

  lemma {:induction false} MultipleMod(q: nat, n: nat, k: nat)
    requires k > 0 && n % k == 0
    ensures (q * n) % k == 0
  {
    if q > 0 {
      MultipleMod(q - 1, n, k);
      assert q * n - n == (q - 1) * n;
      Feistel.ModShift(q * n, n, k);
    }
  }

  /** No key bits are needed for fewer than two items: 0! = 1! = 1. */
  lemma NoBitsNeeded(h: nat)
    ensures RequiredBits(h) == 0 <==> h <= 1
  {
    if h >= 2 {
      assert Fact(h) == h * Fact(h - 1) >= 2;
    } else {
      assert Fact(h) == 1;
    }
  }

  /**
   * `f_function(right_half, key)`: extend the key to exactly
   * `ceil(log2(n!))` bits for n = |right_half|, build the permutation and
   * read the right half in its order.  The engine's too-short error can
   * never occur here; the only error is `int('', 2)` on the empty key
   * that fewer than two items call for.
   */
  function FFunction(rightHalf: Bits, key: Bits): (r: Result<(Bits, seq<nat>)>)
    requires |key| > 0 || RequiredBits(|rightHalf|) == 0
    ensures r.Ok? <==> |rightHalf| >= 2
    ensures r.Err? ==> r.error == EmptyKey
    ensures r.Ok? ==> |r.value.0| == |r.value.1| == |rightHalf| && Below(r.value.1, |rightHalf|)
  {
    var requiredBits := RequiredBits(|rightHalf|);
    var extendedKey := Tile(key, requiredBits);
    NoBitsNeeded(|rightHalf|);
    match NewPermutation(extendedKey, |rightHalf|)
    case Err(e) => Err(e)
    case Ok(perm) =>
      NewPermutationBelow(extendedKey, |rightHalf|);
      Ok((Permute(rightHalf, perm.permutation), perm.permutation))
  }

  /**
   * The round function is a rearrangement of the right half: it reads
   * position `perm[i]` into position i, `perm` orders 0..n-1, and so the
   * count of '1's is kept.
   */
  lemma FFunctionRearranges(rightHalf: Bits, key: Bits)
    requires |key| > 0 || RequiredBits(|rightHalf|) == 0
    requires FFunction(rightHalf, key).Ok?
    ensures IsPermutation(FFunction(rightHalf, key).value.1, |rightHalf|)
    ensures forall i :: 0 <= i < |rightHalf| ==>
      FFunction(rightHalf, key).value.0[i] == rightHalf[FFunction(rightHalf, key).value.1[i]]
    ensures multiset(FFunction(rightHalf, key).value.0) == multiset(rightHalf)
  {
    var extendedKey := Tile(key, RequiredBits(|rightHalf|));
    NewPermutationValid(extendedKey, |rightHalf|);
    PermutePreservesBits(rightHalf, NewPermutation(extendedKey, |rightHalf|).value.permutation);
  }

  /**
   * Lengthening the round key to the input's length first (line 57) makes
   * no difference when the round function's own cut stays inside it or
   * the input length is a whole number of copies of the half.
   */
  lemma ExtendTwiceSameRound(rightHalf: Bits, base: Bits, n: nat)
    requires |base| > 0 && n > 0
    requires RequiredBits(|rightHalf|) <= n || n % |base| == 0
    ensures FFunction(rightHalf, Tile(base, n)) == FFunction(rightHalf, base)
  {
    TiledTiled(base, n, RequiredBits(|rightHalf|));
  }

  /** What one round needs to be defined: a key to extend when n > 0, and none needed when n == 0. */
  predicate StepDefined(n: nat, round: nat, left: Bits, right: Bits)
  {
    var baseKey := if round < 4 then right else left;
    (|baseKey| > 0 || n == 0) && (n > 0 || RequiredBits(|right|) == 0)
  }

  /**
   * One round of `feistel_network`: the key comes from the right half in
   * rounds 1-3 and from the left half in round 4, is extended to n bits,
   * and the permuted right half is XOR-ed into the left half; the new
   * state is (`right`, `new_right`).
   */
  function Step(n: nat, round: nat, left: Bits, right: Bits): (r: Result<(Bits, Bits)>)
    requires 1 <= round <= 4
    requires StepDefined(n, round, left, right)
    ensures r.Ok? <==> |right| >= 2
    ensures r.Err? ==> r.error == EmptyKey
    ensures r.Ok? ==> r.value.0 == right && |r.value.1| == if |left| <= |right| then |left| else |right|
  {
    var baseKey := if round < 4 then right else left;
    var extendedKey := Tile(baseKey, n);
    match FFunction(right, extendedKey)
    case Err(e) => Err(e)
    case Ok((transformed, _)) => Ok((right, Xor(left, transformed)))
  }

  /**
   * Undoing a round of 1-3 from its result alone: the new left half is
   * the old right half, which fixes the key and so the permuted half.
   */
  function Unstep(n: nat, newLeft: Bits, newRight: Bits): (r: Result<(Bits, Bits)>)
    requires |newLeft| > 0 || n == 0
    requires n > 0 || RequiredBits(|newLeft|) == 0
    ensures r.Ok? <==> |newLeft| >= 2
    ensures r.Err? ==> r.error == EmptyKey
    ensures r.Ok? ==> r.value.1 == newLeft && |r.value.0| == if |newRight| <= |newLeft| then |newRight| else |newLeft|
  {
    match FFunction(newLeft, Tile(newLeft, n))
    case Err(e) => Err(e)
    case Ok((transformed, _)) => Ok((Xor(newRight, transformed), newLeft))
  }

  /**
   * Rounds 1-3 are invertible: `old_left = new_right XOR F(new_left)`.
   * Only the part of the old left half that `zip` kept comes back, which
   * is all of it when it was no longer than the right half.
   */
  lemma RoundInvertible(n: nat, round: nat, left: Bits, right: Bits)
    requires 1 <= round <= 3
    requires StepDefined(n, round, left, right)
    requires Step(n, round, left, right).Ok?
    ensures Unstep(n, Step(n, round, left, right).value.0, Step(n, round, left, right).value.1)
            == Ok((left[..if |left| <= |right| then |left| else |right|], right))
  {
    var t := FFunction(right, Tile(right, n)).value.0;
    XorRestores(left, t);
  }

  /**
   * The shape of the state when round `round` starts on an n-bit input
   * (h = n/2): (h, n-h) before round 1, (n-h, h) before round 2, and two
   * halves of h bits before rounds 3 and 4 and at the end.
   */
  predicate HalvesAt(n: nat, round: nat, left: Bits, right: Bits)
  {
    var h := n / 2;
    if round == 1 then |left| == h && |right| == n - h
    else if round == 2 then |left| == n - h && |right| == h && h > 0
    else |left| == h && |right| == h && h > 0
  }

  lemma HalvesDefined(n: nat, round: nat, left: Bits, right: Bits)
    requires 1 <= round <= 4 && HalvesAt(n, round, left, right)
    ensures StepDefined(n, round, left, right)
  {
    if n == 0 {
      NoBitsNeeded(0);
    }
  }

  /** An accepted round moves the state on to the next round's shape. */
  lemma HalvesNext(n: nat, round: nat, left: Bits, right: Bits, next: Bits)
    requires 1 <= round <= 4 && HalvesAt(n, round, left, right)
    requires |right| >= 2 && |next| == if |left| <= |right| then |left| else |right|
    ensures HalvesAt(n, round + 1, right, next)
  {
  }

  /** Rounds `round`..4 of `feistel_network` on an n-bit input, from the state (`left`, `right`). */
  function Rounds(n: nat, round: nat, left: Bits, right: Bits): (r: Result<Bits>)
    requires 1 <= round <= 5 && HalvesAt(n, round, left, right)
    ensures r.Ok? ==> |r.value| == 2 * (n / 2)
    ensures r.Err? ==> r.error == EmptyKey
    decreases 5 - round, 1
  {
    if round == 5 then Ok(left + right) else Round(n, round, left, right)
  }

  /** Round `round` (1..4) and the rounds after it; an error ends the run. */
  function Round(n: nat, round: nat, left: Bits, right: Bits): (r: Result<Bits>)
    requires 1 <= round <= 4 && HalvesAt(n, round, left, right)
    ensures r.Ok? ==> |r.value| == 2 * (n / 2)
    ensures r.Err? ==> r.error == EmptyKey
    decreases 5 - round, 0
  {
    HalvesDefined(n, round, left, right);
    match Step(n, round, left, right)
    case Err(e) => Err(e)
    case Ok((newLeft, newRight)) =>
      HalvesNext(n, round, left, right, newRight);
      Rounds(n, round + 1, newLeft, newRight)
  }

  /** `feistel_network(input_bits)`. */
  function Network(input: Bits): (r: Result<Bits>)
    ensures r.Ok? ==> |r.value| == 2 * (|input| / 2)
    ensures r.Err? ==> r.error == EmptyKey
  {
    Rounds(|input|, 1, input[..|input| / 2], input[|input| / 2..])
  }

  /** `feistel_network`: four rounds reassigning `left` and `right`. */
  method FeistelNetwork(inputBits: Bits) returns (output: Result<Bits>)
    ensures output == Network(inputBits)
  {
    var n := |inputBits|;
    var splitIndex := n / 2;
    var left := inputBits[..splitIndex];
    var right := inputBits[splitIndex..];
    ghost var result := Network(inputBits);
    assert Rounds(n, 1, left, right) == result;
    var roundNumber := 1;
    while roundNumber < 5
      invariant 1 <= roundNumber <= 5
      invariant HalvesAt(n, roundNumber, left, right)
      invariant Rounds(n, roundNumber, left, right) == result
    {
      var s := RunRound(n, roundNumber, left, right);
      if s.Err? {
        return Err(s.error);
      }
      left, right := s.value.0, s.value.1;
      roundNumber := roundNumber + 1;
    }
    assert Rounds(n, 5, left, right) == Ok(left + right);
    output := Ok(left + right);
  }

  /** The body of the loop of `feistel_network`: one round, with the key extended by `ExtendKey`. */
  method RunRound(n: nat, round: nat, left: Bits, right: Bits) returns (s: Result<(Bits, Bits)>)
    requires 1 <= round <= 4 && HalvesAt(n, round, left, right)
    ensures Moves(n, round, left, right, s)
  {
    HalvesDefined(n, round, left, right);
    var baseKey := if round < 4 then right else left;
    var extendedKey := ExtendKey(baseKey, n);
    var f := FFunction(right, extendedKey);
    if f.Err? {
      s := Err(f.error);
    } else {
      var newRight := Xor(left, f.value.0);
      s := Ok((right, newRight));
    }
    StepMoves(n, round, left, right, s);
  }

  /**
   * `s` is what round `round` does to the state: its error ends the run,
   * its new state starts the next round.
   */
  predicate Moves(n: nat, round: nat, left: Bits, right: Bits, s: Result<(Bits, Bits)>)
    requires 1 <= round <= 4 && HalvesAt(n, round, left, right)
  {
    && (s.Err? ==> Rounds(n, round, left, right) == Err(s.error))
    && (s.Ok? ==> HalvesAt(n, round + 1, s.value.0, s.value.1)
                  && Rounds(n, round, left, right) == Rounds(n, round + 1, s.value.0, s.value.1))
  }

  /** The round function's result is how the run moves on. */
  lemma StepMoves(n: nat, round: nat, left: Bits, right: Bits, s: Result<(Bits, Bits)>)
    requires 1 <= round <= 4 && HalvesAt(n, round, left, right)
    requires StepDefined(n, round, left, right) && s == Step(n, round, left, right)
    ensures Moves(n, round, left, right, s)
  {
    if s.Ok? {
      HalvesNext(n, round, left, right, s.value.1);
    }
  }

  /**
   * A run's result `r`: it succeeds exactly when `accepted`, has `len`
   * bits when it does, and fails only with the empty-key error (where
   * `Feistel.RunFacts` has the too-short error).
   */
  predicate RunFacts(r: Result<Bits>, accepted: bool, len: nat)
  {
    && (r.Ok? <==> accepted)
    && (r.Ok? ==> |r.value| == len)
    && (r.Err? ==> r.error == EmptyKey)
  }

  /**
   * One round from the shape of round `round`: accepted exactly when the
   * right half has two bits or more, which from round 2 on means n >= 4;
   * a rejected round ends the run with the empty-key error.
   */
  lemma StepOutcome(n: nat, round: nat, left: Bits, right: Bits) returns (accepted: bool, newLeft: Bits, newRight: Bits)
    requires 1 <= round <= 4 && HalvesAt(n, round, left, right)
    ensures accepted <==> |right| >= 2
    ensures accepted && round >= 2 ==> n >= 4
    ensures !accepted ==> n < 4 && RunFacts(Rounds(n, round, left, right), false, 2 * (n / 2))
    ensures accepted ==> HalvesAt(n, round + 1, newLeft, newRight)
                         && Rounds(n, round, left, right) == Rounds(n, round + 1, newLeft, newRight)
  {
    HalvesDefined(n, round, left, right);
    var s := Step(n, round, left, right);
    accepted := s.Ok?;
    if accepted {
      newLeft, newRight := s.value.0, s.value.1;
      HalvesNext(n, round, left, right, newRight);
    } else {
      newLeft, newRight := left, right;
    }
  }

  /**
   * From any round on, the run succeeds exactly when n >= 4 (or nothing
   * is left to do), ends with two halves of n/2 bits, and fails only with
   * the empty-key error.
   */
  lemma {:induction false} RoundsOutcome(n: nat, round: nat, left: Bits, right: Bits)
    requires 1 <= round <= 5 && HalvesAt(n, round, left, right)
    ensures RunFacts(Rounds(n, round, left, right), round == 5 || n >= 4, 2 * (n / 2))
    decreases 5 - round
  {
    if round == 5 {
      assert Rounds(n, round, left, right) == Ok(left + right);
    } else {
      var accepted, newLeft, newRight := StepOutcome(n, round, left, right);
      if accepted {
        RoundsOutcome(n, round + 1, newLeft, newRight);
        CarryFacts(Rounds(n, round, left, right), Rounds(n, round + 1, newLeft, newRight), n, round);
      }
    }
  }

  /**
   * Moves `RunFacts` from the next round's run to this round's, in a context
   * that holds nothing else; inlined, the step makes the solver unfold the network.
   */
  lemma CarryFacts(a: Result<Bits>, b: Result<Bits>, n: nat, round: nat)
    requires 1 <= round <= 4 && (round == 4 ==> n >= 4)
    requires a == b && RunFacts(b, round + 1 == 5 || n >= 4, 2 * (n / 2))
    ensures RunFacts(a, round == 5 || n >= 4, 2 * (n / 2))
  {
  }

  /**
   * `feistel_network` succeeds exactly on inputs of four bits or more
   * (each half needs two bits for the round function to have a key);
   * otherwise it raises the empty-key error.  Its output has 2*(n/2)
   * bits: the input length when it is even, one bit short when it is
   * odd (round 2 XORs the longer half into the shorter).
   */
  lemma NetworkOutcome(input: Bits)
    ensures Network(input).Ok? <==> |input| >= 4
    ensures Network(input).Ok? ==> |Network(input).value| == 2 * (|input| / 2)
    ensures Network(input).Err? ==> Network(input).error == EmptyKey
  {
    RoundsOutcome(|input|, 1, input[..|input| / 2], input[|input| / 2..]);
  }
}
