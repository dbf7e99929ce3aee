/**
 * commitment.py: a bit-string commitment built from boxes of 32 bits,
 * each reordered by a permutation derived from the other boxes and then
 * mixed with its neighbours by XOR (`blackbox`), and a Merkle-style tree
 * that folds 256-bit leaves pairwise with that commitment.
 */
module Commitment {
  import opened Bits
  import opened Perms

  datatype Option<T> = None | Some(value: T)

  function Min(a: nat, b: nat): nat
  {
    if a <= b then a else b
  }

  // Boxes

  /**
   * `split_string_into_boxes(bit_string, box_size)`: consecutive slices of
   * `size` bits, the last one possibly shorter.
   */
  function Split(s: Bits, size: nat): (boxes: seq<Bits>)
    requires size > 0
    ensures boxes == [] <==> s == []
    ensures forall i :: 0 <= i < |boxes| ==> 0 < |boxes[i]| <= size
    decreases |s|
  {
    if s == [] then []
    else if |s| <= size then [s]
    else [s[..size]] + Split(s[size..], size)
  }

  /** Box i is the slice `s[size*i : size*i + size]`, cut at the end of `s`. */
  lemma {:induction false} SplitBox(s: Bits, size: nat, i: nat)
    requires size > 0 && i < |Split(s, size)|
    ensures size * i < |s|
    ensures Split(s, size)[i] == s[size * i .. Min(size * i + size, |s|)]
    decreases |s|
  {
    if i > 0 {
      var t := s[size..];
      assert Split(s, size)[i] == Split(t, size)[i - 1];
      SplitBox(t, size, i - 1);
      assert |s| > size && |t| == |s| - size;
      var j := size * (i - 1);
      assert size * i == j + size;
      var hi := Min(j + size, |t|);
      assert hi + size == Min(size * i + size, |s|);
      assert t[j .. hi] == s[j + size .. hi + size];
    }
  }

  /** There are ceil(|s| / size) boxes: the last one starts before the end of `s` and reaches it. */
  lemma {:induction false} SplitCount(s: Bits, size: nat)
    requires size > 0
    ensures |Split(s, size)| == 0 <==> s == []
    ensures |Split(s, size)| > 0 ==> size * (|Split(s, size)| - 1) < |s| <= size * |Split(s, size)|
    decreases |s|
  {
    if |s| > size {
      SplitCount(s[size..], size);
      var k := |Split(s[size..], size)|;
      assert size * k == size * (k - 1) + size;
    }
  }

  /** Joining the boxes gives the string back. */
  lemma {:induction false} SplitConcat(s: Bits, size: nat)
    requires size > 0
    ensures Concat(Split(s, size)) == s
    decreases |s|
  {
    if s != [] && |s| > size {
      SplitConcat(s[size..], size);
      assert s == s[..size] + s[size..];
    } else if s != [] {
      assert Concat([s]) == s + Concat([]);
    }
  }

  /** Every box but the last has `size` bits; the last has between 1 and `size`. */
  lemma SplitSizes(s: Bits, size: nat)
    requires size > 0
    ensures forall i :: 0 <= i < |Split(s, size)| ==>
      0 < |Split(s, size)[i]| <= size && (i < |Split(s, size)| - 1 ==> |Split(s, size)[i]| == size)
  {
    var boxes := Split(s, size);
    SplitCount(s, size);
    forall i | 0 <= i < |boxes|
      ensures 0 < |boxes[i]| <= size && (i < |boxes| - 1 ==> |boxes[i]| == size)
    {
      SplitBox(s, size, i);
      if i < |boxes| - 1 {
        assert size * (i + 1) == size * i + size;
        MulMonotone(size, i + 1, |boxes| - 1);
      }
    }
  }

  lemma MulMonotone(a: nat, b: nat, c: nat)
    requires b <= c
    ensures a * b <= a * c
  {
  }

  /** A string of m whole boxes splits into m boxes of exactly `size` bits. */
  lemma SplitWhole(s: Bits, size: nat, m: nat)
    requires size > 0 && |s| == size * m
    ensures |Split(s, size)| == m
    ensures forall i :: 0 <= i < m ==> |Split(s, size)[i]| == size
  {
    SplitCount(s, size);
    SplitSizes(s, size);
    var k := |Split(s, size)|;
    if k != m {
      if k < m {
        MulMonotone(size, k, m - 1);
      } else {
        MulMonotone(size, m, k - 1);
      }
    }
    if m > 0 {
      SplitBox(s, size, m - 1);
      assert size * (m - 1) + size == size * m;
    }
  }

  // XOR of chunks

  /**
   * `xor_all_elements(elements)`: `functools.reduce(xor_chunks, elements)`,
   * the left fold of `xor_chunks` (which is `Xor`).  With no element the
   * fold has no initial value and raises, so one element is required.
   */
  function XorAll(elements: seq<Bits>): (r: Bits)
    requires |elements| > 0
    ensures forall j :: 0 <= j < |elements| ==> |r| <= |elements[j]|
    ensures exists j :: 0 <= j < |elements| && |r| == |elements[j]|
  {
    if |elements| == 1 then elements[0]
    else
      var init := elements[..|elements| - 1];
      var r := Xor(XorAll(init), elements[|elements| - 1]);
      assert forall j :: 0 <= j < |init| ==> init[j] == elements[j];
      r
  }

  /** How many of `elements` have a '1' at position i. */
  function Ones(elements: seq<Bits>, i: nat): nat
    requires forall j :: 0 <= j < |elements| ==> i < |elements[j]|
  {
    if elements == [] then 0
    else Ones(elements[..|elements| - 1], i) + (if elements[|elements| - 1][i] then 1 else 0)
  }

  /** Bit i of the fold is '1' exactly when an odd number of the elements have a '1' there. */
  lemma {:induction false} XorAllParity(elements: seq<Bits>, i: nat)
    requires |elements| > 0 && i < |XorAll(elements)|
    ensures forall j :: 0 <= j < |elements| ==> i < |elements[j]|
    ensures XorAll(elements)[i] <==> Ones(elements, i) % 2 == 1
  {
    if |elements| > 1 {
      var init := elements[..|elements| - 1];
      var last := elements[|elements| - 1];
      assert forall j :: 0 <= j < |init| ==> init[j] == elements[j];
      assert XorAll(elements) == Xor(XorAll(init), last);
      XorAllParity(init, i);
      assert Ones(elements, i) == Ones(init, i) + (if last[i] then 1 else 0);
      assert XorAll(elements)[i] == (XorAll(init)[i] != last[i]);
    } else {
      assert elements[..0] == [];
      assert Ones(elements, i) == if elements[0][i] then 1 else 0;
    }
  }

  // The permutation derived from a seed

  /** The fixed permutation size (`permutation_size=32`). */
  const PermutationSize: nat := 32

  /** `int(chunk, 2) % permutation_size` for each chunk of the seed. */
  function Indices(z: Bits, chunkSize: nat): (indices: seq<nat>)
    requires chunkSize > 0
    ensures |indices| == |Split(z, chunkSize)|
    ensures forall j :: 0 <= j < |indices| ==> indices[j] < PermutationSize
  {
    var chunks := Split(z, chunkSize);
    seq(|chunks|, j requires 0 <= j < |chunks| => Value(chunks[j]) % PermutationSize)
  }

  /** Position a is sorted before position b: a smaller key, or an equal key and a smaller position. */
  predicate Before(keys: seq<nat>, a: nat, b: nat)
    requires a < |keys| && b < |keys|
  {
    keys[a] < keys[b] || (keys[a] == keys[b] && a < b)
  }

  /** `p` lists positions of `keys` in the order of a stable sort by key. */
  predicate SortedByKey(p: seq<nat>, keys: seq<nat>)
  {
    && Below(p, |keys|)
    && forall i, j :: 0 <= i < j < |p| ==> Before(keys, p[i], p[j])
  }

  /** Insert position x into a list sorted by key, after every position that sorts before it. */
  function Insert(keys: seq<nat>, x: nat, s: seq<nat>): (r: seq<nat>)
    requires x < |keys| && Below(s, |keys|)
    ensures multiset(r) == multiset(s) + multiset{x}
    ensures Below(r, |keys|)
  {
    if s == [] || Before(keys, x, s[0]) then [x] + s
    else
      assert s == [s[0]] + s[1..];
      [s[0]] + Insert(keys, x, s[1..])
  }

  /** `sorted(range(n), key=keys.__getitem__)`: positions 0..n-1 in stable order of their keys. */
  function ArgSort(keys: seq<nat>, n: nat): (r: seq<nat>)
    requires n <= |keys|
    ensures multiset(r) == multiset(Range(n))
    ensures Below(r, n)
    ensures SortedByKey(r, keys)
  {
    if n == 0 then []
    else
      var s := ArgSort(keys, n - 1);
      InsertNext(keys, n, s);
      Insert(keys, n - 1, s)
  }

  /** Inserting n-1 into a stable order of 0..n-2 gives a stable order of 0..n-1. */
  lemma InsertNext(keys: seq<nat>, n: nat, s: seq<nat>)
    requires 0 < n <= |keys|
    requires multiset(s) == multiset(Range(n - 1)) && Below(s, n - 1) && SortedByKey(s, keys)
    ensures multiset(Insert(keys, n - 1, s)) == multiset(Range(n))
    ensures Below(Insert(keys, n - 1, s), n)
    ensures SortedByKey(Insert(keys, n - 1, s), keys)
  {
    var r := Insert(keys, n - 1, s);
    InsertSorted(keys, n - 1, s);
    assert Range(n) == Range(n - 1) + [n - 1];
    MultisetBelow(r, n);
  }

  /** A list with the elements of 0..n-1 names only positions below n. */
  lemma MultisetBelow(r: seq<nat>, n: nat)
    requires multiset(r) == multiset(Range(n))
    ensures Below(r, n)
  {
    forall i | 0 <= i < |r|
      ensures r[i] < n
    {
      assert r[i] in multiset(r);
      RangeMultiplicity(n, r[i]);
    }
  }

  /** Inserting a position after all listed ones keeps the list sorted. */
  lemma {:induction false} InsertSorted(keys: seq<nat>, x: nat, s: seq<nat>)
    requires x < |keys| && SortedByKey(s, keys)
    requires Below(s, x)
    ensures SortedByKey(Insert(keys, x, s), keys)
  {
    var r := Insert(keys, x, s);
    if s == [] || Before(keys, x, s[0]) {
      forall i, j | 0 <= i < j < |r|
        ensures Before(keys, r[i], r[j])
      {
        if i == 0 && j > 1 {
          assert Before(keys, s[0], s[j - 1]);
        }
      }
    } else {
      assert !Before(keys, x, s[0]) && x != s[0];
      assert Before(keys, s[0], x);
      var tail := s[1..];
      assert SortedByKey(tail, keys) by {
        assert forall i, j :: 0 <= i < j < |tail| ==> tail[i] == s[i + 1] && tail[j] == s[j + 1];
      }
      InsertSorted(keys, x, tail);
      var rest := Insert(keys, x, tail);
      assert r == [s[0]] + rest;
      forall j | 0 <= j < |rest|
        ensures Before(keys, s[0], rest[j])
      {
        assert rest[j] in multiset(rest);
        assert rest[j] in multiset(tail) || rest[j] == x;
        if rest[j] != x {
          var k :| 0 <= k < |tail| && tail[k] == rest[j];
          assert tail[k] == s[k + 1];
        }
      }
    }
  }

  /**
   * A stable sort has only one possible result: two lists of the same
   * positions, both sorted by key, are equal.  So `ArgSort` is what
   * `sorted` returns, whatever algorithm it uses.
   */
  lemma {:induction false} SortedUnique(p: seq<nat>, q: seq<nat>, keys: seq<nat>)
    requires SortedByKey(p, keys) && SortedByKey(q, keys)
    requires multiset(p) == multiset(q)
    ensures p == q
    decreases |p|
  {
    assert |p| == |multiset(p)| == |multiset(q)| == |q|;
    if p != [] {
      SortedHeads(p, q, keys);
      SortedTail(p, keys);
      SortedTail(q, keys);
      assert multiset(p[1..]) == multiset(p) - multiset{p[0]} by {
        assert p == [p[0]] + p[1..];
      }
      assert multiset(q[1..]) == multiset(q) - multiset{q[0]} by {
        assert q == [q[0]] + q[1..];
      }
      SortedUnique(p[1..], q[1..], keys);
      assert p == [p[0]] + p[1..] && q == [q[0]] + q[1..];
    }
  }

  /** Both sorted lists start with the position that sorts before all others. */
  lemma SortedHeads(p: seq<nat>, q: seq<nat>, keys: seq<nat>)
    requires SortedByKey(p, keys) && SortedByKey(q, keys)
    requires multiset(p) == multiset(q) && p != [] && q != []
    ensures p[0] == q[0]
  {
    assert p[0] in multiset(q) && q[0] in multiset(p);
    var k :| 0 <= k < |q| && q[k] == p[0];
    var l :| 0 <= l < |p| && p[l] == q[0];
  }

  lemma SortedTail(p: seq<nat>, keys: seq<nat>)
    requires SortedByKey(p, keys) && p != []
    ensures SortedByKey(p[1..], keys)
  {
    assert forall i :: 0 <= i < |p[1..]| ==> p[1..][i] == p[i + 1];
  }

  /** A seed of c*32 bits or more splits into at least 32 chunks of c bits. */
  lemma IndicesCover(z: Bits, chunkSize: nat)
    requires chunkSize > 0 && 32 * chunkSize <= |z|
    ensures |Split(z, chunkSize)| >= PermutationSize
  {
    SplitCount(z, chunkSize);
    var k := |Split(z, chunkSize)|;
    if k < 32 {
      MulMonotone(chunkSize, k, 31);
    }
  }

  /**
   * `generate_permutation_from_z(z_string)`: cut the seed into chunks of
   * |z|/32 bits, take each chunk's value modulo 32 as a key, and sort
   * 0..31 stably by key.  A seed shorter than 32 bits gives a chunk size
   * of 0, on which `range` raises: `None`.
   */
  function GeneratePermutationFromZ(z: Bits): (r: Option<seq<nat>>)
    ensures r.Some? <==> |z| >= PermutationSize
    ensures r.Some? ==> |r.value| == PermutationSize && Below(r.value, PermutationSize)
  {
    var chunkSize := |z| / PermutationSize;
    if chunkSize == 0 then None
    else
      IndicesCover(z, chunkSize);
      var r := ArgSort(Indices(z, chunkSize), PermutationSize);
      assert |r| == |multiset(r)| == |multiset(Range(PermutationSize))| == PermutationSize;
      Some(r)
  }

  /**
   * The generated permutation orders 0..31, each once, by non-decreasing
   * key with ties in ascending position.
   */
  lemma GeneratedPermutation(z: Bits)
    requires |z| >= PermutationSize
    ensures IsPermutation(GeneratePermutationFromZ(z).value, PermutationSize)
    ensures SortedByKey(GeneratePermutationFromZ(z).value, Indices(z, |z| / PermutationSize))
  {
    var chunkSize := |z| / PermutationSize;
    IndicesCover(z, chunkSize);
  }

  /** A permutation of 0..31 names position 31, so it does not fit a box of fewer than 32 bits. */
  lemma PermutationNeedsFullBox(p: seq<nat>, len: nat)
    requires IsPermutation(p, PermutationSize) && len < PermutationSize
    ensures !Below(p, len)
  {
    RangeMultiplicity(PermutationSize, 31);
    assert 31 in multiset(p);
    var k :| 0 <= k < |p| && p[k] == 31;
  }

  // blackbox

  /** `''.join(boxes[:i] + boxes[i+1:])`: every box but box i, joined. */
  function Others(boxes: seq<Bits>, i: nat): (others: Bits)
    requires i < |boxes|
    ensures |others| + |boxes[i]| == |Concat(boxes)|
  {
    assert boxes == boxes[..i] + ([boxes[i]] + boxes[i + 1..]);
    ConcatAppend(boxes[..i], [boxes[i]] + boxes[i + 1..]);
    ConcatAppend(boxes[..i], boxes[i + 1..]);
    Concat(boxes[..i] + boxes[i + 1..])
  }

  /**
   * The seed of a box: the first 105 bits of the others XOR-ed with the
   * next 105, then the bits from 210 on.  Its length is |others| - 105
   * (or 0).
   */
  function Seed(others: Bits): (z: Bits)
    ensures |z| == if |others| <= 105 then 0 else |others| - 105
  {
    var a := Min(105, |others|);
    var b := Min(210, |others|);
    Xor(others[..a], others[a..b]) + others[b..]
  }

  /**
   * `apply_permutation(box, generate_permutation_from_z(seed))`; `None`
   * when the seed is too short (`range` raises) or the box is too short
   * for the permutation (indexing raises).
   */
  function PermuteBox(box: Bits, seed: Bits): (r: Option<Bits>)
    ensures r.Some? ==> |r.value| == PermutationSize
  {
    match GeneratePermutationFromZ(seed)
    case None => None
    case Some(p) => if Below(p, |box|) then Some(Permute(box, p)) else None
  }

  /** Box i after its permutation. */
  function Chunk(boxes: seq<Bits>, i: nat): (r: Option<Bits>)
    requires i < |boxes|
    ensures r.Some? ==> |r.value| == PermutationSize
    ensures |Others(boxes, i)| < 105 + PermutationSize ==> r == None
  {
    PermuteBox(boxes[i], Seed(Others(boxes, i)))
  }

  /**
   * The list `chunks_after_permutation`, built left to right: the first
   * box that fails makes the whole list fail.
   */
  function Collect(results: seq<Option<Bits>>): (r: Option<seq<Bits>>)
    ensures r.Some? ==> |r.value| == |results|
  {
    if results == [] then Some([])
    else match results[0]
      case None => None
      case Some(c) =>
        match Collect(results[1..])
        case None => None
        case Some(cs) => Some([c] + cs)
  }

  /** The list exists exactly when every box permutes, and then holds the permuted boxes in order. */
  lemma {:induction false} CollectAll(results: seq<Option<Bits>>)
    ensures Collect(results).Some? <==> forall j :: 0 <= j < |results| ==> results[j].Some?
    ensures Collect(results).Some? ==>
      && |Collect(results).value| == |results|
      && forall j :: 0 <= j < |results| ==> Collect(results).value[j] == results[j].value
  {
    if results != [] {
      var tail := results[1..];
      CollectAll(tail);
      assert forall j :: 0 <= j < |tail| ==> tail[j] == results[j + 1];
    }
  }

  /** Every box after its permutation, in order. */
  function Chunks(boxes: seq<Bits>): (r: seq<Option<Bits>>)
    ensures |r| == |boxes|
  {
    seq(|boxes|, i requires 0 <= i < |boxes| => Chunk(boxes, i))
  }

  /** The XOR of each window `chunks[i:i+3]` (shorter at the end). */
  function WindowXors(chunks: seq<Bits>): (ws: seq<Bits>)
    ensures |ws| == |chunks|
  {
    seq(|chunks|, i requires 0 <= i < |chunks| => XorAll(chunks[i..Min(i + 3, |chunks|)]))
  }

  /**
   * `blackbox(input_string)`: split into 32-bit boxes, permute each box by
   * a seed drawn from the other boxes, and join the XORs of the windows of
   * three consecutive permuted boxes.
   */
  function Blackbox(input: Bits): (r: Option<Bits>)
    ensures input == [] ==> r == Some([])
  {
    match PermutedBoxes(input)
    case None => None
    case Some(chunks) => Some(Concat(WindowXors(chunks)))
  }

  /** `chunks_after_permutation`: the 32-bit boxes of the input, each permuted. */
  function PermutedBoxes(input: Bits): (r: Option<seq<Bits>>)
    ensures r.Some? ==> |r.value| == |Split(input, 32)|
  {
    Collect(Chunks(Split(input, 32)))
  }

  /** Joining parts of k bits each gives k*|parts| bits. */
  lemma {:induction false} ConcatUniform(parts: seq<Bits>, k: nat)
    requires forall i :: 0 <= i < |parts| ==> |parts[i]| == k
    ensures |Concat(parts)| == k * |parts|
  {
    if parts != [] {
      var rest := parts[1..];
      assert forall i :: 0 <= i < |rest| ==> rest[i] == parts[i + 1];
      ConcatUniform(rest, k);
      assert k * |parts| == k + k * |rest|;
    }
  }

  /** Joining parts of k bits each puts part i at position k*i. */
  lemma ConcatPart(parts: seq<Bits>, k: nat, i: nat)
    requires forall j :: 0 <= j < |parts| ==> |parts[j]| == k
    requires i < |parts|
    ensures k * i + k <= |Concat(parts)|
    ensures Concat(parts)[k * i .. k * i + k] == parts[i]
  {
    var front, back := parts[..i], parts[i + 1..];
    assert parts == front + ([parts[i]] + back);
    ConcatAppend(front, [parts[i]] + back);
    assert ([parts[i]] + back)[1..] == back;
    ConcatUniform(front, k);
  }

  /** Every box but box i, joined, when all boxes are whole: 32 bits for each other box. */
  lemma OthersWhole(boxes: seq<Bits>, i: nat)
    requires forall j :: 0 <= j < |boxes| ==> |boxes[j]| == 32
    requires i < |boxes|
    ensures |Others(boxes, i)| == 32 * (|boxes| - 1)
  {
    var rest := boxes[..i] + boxes[i + 1..];
    assert forall j :: 0 <= j < |rest| ==> |rest[j]| == 32 by {
      forall j | 0 <= j < |rest| ensures |rest[j]| == 32 {
        if j < i {
          assert rest[j] == boxes[j];
        } else {
          assert rest[j] == boxes[j + 1];
        }
      }
    }
    ConcatUniform(rest, 32);
  }

  /** With six whole boxes or more, every seed has at least 55 bits and every box permutes. */
  lemma ChunkWhole(boxes: seq<Bits>, i: nat)
    requires forall j :: 0 <= j < |boxes| ==> |boxes[j]| == 32
    requires 6 <= |boxes| && i < |boxes|
    ensures Chunk(boxes, i).Some?
  {
    OthersWhole(boxes, i);
    var z := Seed(Others(boxes, i));
    assert |z| >= 55;
  }

  /** With one to five whole boxes, every seed has at most 23 bits, too few for a permutation. */
  lemma ChunkFewBoxes(boxes: seq<Bits>, i: nat)
    requires forall j :: 0 <= j < |boxes| ==> |boxes[j]| == 32
    requires |boxes| <= 5 && i < |boxes|
    ensures Chunk(boxes, i) == None
  {
    OthersWhole(boxes, i);
  }

  /** A box of fewer than 32 bits never permutes: either the seed or the indexing fails. */
  lemma ChunkShortBox(boxes: seq<Bits>, i: nat)
    requires i < |boxes| && |boxes[i]| < 32
    ensures Chunk(boxes, i) == None
  {
    var z := Seed(Others(boxes, i));
    if |z| >= PermutationSize {
      GeneratedPermutation(z);
      PermutationNeedsFullBox(GeneratePermutationFromZ(z).value, |boxes[i]|);
    }
  }

  /** A permuted box holds the same bits as the box, rearranged. */
  lemma ChunkRearranges(boxes: seq<Bits>, i: nat)
    requires i < |boxes| && |boxes[i]| <= 32 && Chunk(boxes, i).Some?
    ensures |boxes[i]| == 32
    ensures multiset(Chunk(boxes, i).value) == multiset(boxes[i])
  {
    if |boxes[i]| < 32 {
      ChunkShortBox(boxes, i);
    }
    var z := Seed(Others(boxes, i));
    GeneratedPermutation(z);
    PermutePreservesBits(boxes[i], GeneratePermutationFromZ(z).value);
  }

  /** Windows over whole chunks are whole, so joining them keeps the length. */
  lemma WindowsWhole(chunks: seq<Bits>)
    requires forall j :: 0 <= j < |chunks| ==> |chunks[j]| == 32
    ensures forall j :: 0 <= j < |chunks| ==> |WindowXors(chunks)[j]| == 32
    ensures |Concat(WindowXors(chunks))| == 32 * |chunks|
  {
    var ws := WindowXors(chunks);
    forall j | 0 <= j < |chunks|
      ensures |ws[j]| == 32
    {
      var window := chunks[j..Min(j + 3, |chunks|)];
      var k :| 0 <= k < |window| && |XorAll(window)| == |window[k]|;
      assert window[k] == chunks[j + k];
    }
    ConcatUniform(ws, 32);
  }

  /** Every box permutes: the list of permuted boxes exists, one whole chunk per box. */
  lemma CollectWhole(boxes: seq<Bits>)
    requires forall j :: 0 <= j < |boxes| ==> |boxes[j]| == 32
    requires |boxes| >= 6
    ensures Collect(Chunks(boxes)).Some?
    ensures |Collect(Chunks(boxes)).value| == |boxes|
    ensures forall j :: 0 <= j < |boxes| ==>
      Chunk(boxes, j).Some? && Collect(Chunks(boxes)).value[j] == Chunk(boxes, j).value
    ensures forall j :: 0 <= j < |boxes| ==> |Collect(Chunks(boxes)).value[j]| == 32
  {
    ChunksWhole(boxes);
    CollectSome(Chunks(boxes));
  }

  lemma ChunksWhole(boxes: seq<Bits>)
    requires forall j :: 0 <= j < |boxes| ==> |boxes[j]| == 32
    requires |boxes| >= 6
    ensures forall j :: 0 <= j < |boxes| ==>
      Chunks(boxes)[j] == Chunk(boxes, j) && Chunk(boxes, j).Some? && |Chunk(boxes, j).value| == 32
  {
    forall j | 0 <= j < |boxes|
      ensures Chunks(boxes)[j] == Chunk(boxes, j) && Chunk(boxes, j).Some? && |Chunk(boxes, j).value| == 32
    {
      ChunkWhole(boxes, j);
    }
  }

  lemma CollectSome(results: seq<Option<Bits>>)
    requires forall j :: 0 <= j < |results| ==> results[j].Some?
    ensures Collect(results).Some? && |Collect(results).value| == |results|
    ensures forall j :: 0 <= j < |results| ==> Collect(results).value[j] == results[j].value
  {
    CollectAll(results);
  }

  /** One box that fails makes the whole list fail. */
  lemma CollectFails(boxes: seq<Bits>, i: nat)
    requires i < |boxes| && Chunk(boxes, i) == None
    ensures Collect(Chunks(boxes)) == None
  {
    var results := Chunks(boxes);
    assert results[i] == None;
    CollectNone(results, i);
  }

  lemma CollectNone(results: seq<Option<Bits>>, i: nat)
    requires i < |results| && results[i] == None
    ensures Collect(results) == None
  {
    CollectAll(results);
  }

  lemma BlackboxWhole(input: Bits)
    requires |input| % 32 == 0 && |input| >= 192
    ensures Blackbox(input).Some? && |Blackbox(input).value| == |input|
  {
    var boxes := Split(input, 32);
    SplitWhole(input, 32, |input| / 32);
    CollectWhole(boxes);
    WindowsWhole(Collect(Chunks(boxes)).value);
  }

  lemma BlackboxFewBoxes(input: Bits)
    requires |input| % 32 == 0 && 0 < |input| < 192
    ensures Blackbox(input) == None
  {
    var boxes := Split(input, 32);
    SplitWhole(input, 32, |input| / 32);
    ChunkFewBoxes(boxes, 0);
    CollectFails(boxes, 0);
  }

  lemma BlackboxPartialBox(input: Bits)
    requires |input| % 32 != 0
    ensures Blackbox(input) == None
  {
    var boxes := Split(input, 32);
    SplitCount(input, 32);
    var last := |boxes| - 1;
    SplitBox(input, 32, last);
    assert |boxes[last]| < 32;
    ChunkShortBox(boxes, last);
    CollectFails(boxes, last);
  }

  /**
   * `blackbox` returns exactly on the empty string and on strings of whole
   * 32-bit boxes, at least six of them; it then returns as many bits as it
   * was given.  Five boxes or fewer leave seeds under 32 bits, and a
   * trailing partial box cannot be indexed by a permutation of 32.
   */
  lemma BlackboxOutcome(input: Bits)
    ensures Blackbox(input).Some? <==> Committable(input)
    ensures Blackbox(input).Some? ==> |Blackbox(input).value| == |input|
  {
    if input == [] {
      assert Split(input, 32) == [];
      assert Chunks([]) == [];
    } else if |input| % 32 != 0 {
      BlackboxPartialBox(input);
    } else if |input| < 192 {
      BlackboxFewBoxes(input);
    } else {
      BlackboxWhole(input);
    }
  }

  /**
   * `out` is the mix of `chunks`: block i of `out` is the XOR of chunks
   * i, i+1 and i+2 (fewer at the end).
   */
  predicate Mixed(chunks: seq<Bits>, out: Bits)
  {
    && |out| == 32 * |chunks|
    && forall i :: 0 <= i < |chunks| ==>
      32 * i + 32 <= |out| && out[32 * i .. 32 * i + 32] == XorAll(chunks[i..Min(i + 3, |chunks|)])
  }

  /** Joining the window XORs of whole chunks mixes them; the last block is the last chunk alone. */
  lemma WindowsMix(chunks: seq<Bits>)
    requires forall j :: 0 <= j < |chunks| ==> |chunks[j]| == 32
    ensures Mixed(chunks, Concat(WindowXors(chunks)))
    ensures chunks != [] ==>
      Concat(WindowXors(chunks))[32 * (|chunks| - 1) .. 32 * |chunks|] == chunks[|chunks| - 1]
  {
    var ws := WindowXors(chunks);
    WindowsWhole(chunks);
    forall i | 0 <= i < |chunks|
      ensures 32 * i + 32 <= |Concat(ws)| && Concat(ws)[32 * i .. 32 * i + 32] == ws[i]
    {
      ConcatPart(ws, 32, i);
    }
    if chunks != [] {
      LastWindow(chunks);
    }
  }

  /** The last window holds the last chunk alone. */
  lemma LastWindow(chunks: seq<Bits>)
    requires chunks != []
    ensures WindowXors(chunks)[|chunks| - 1] == chunks[|chunks| - 1]
  {
    var last := |chunks| - 1;
    assert Min(last + 3, |chunks|) == |chunks|;
    assert chunks[last..|chunks|] == [chunks[last]];
    assert WindowXors(chunks)[last] == XorAll([chunks[last]]);
  }

  /**
   * On an accepted non-empty string of m boxes there are m permuted boxes
   * and the output is their mix.
   */
  lemma BlackboxMixes(input: Bits)
    requires Committable(input) && input != []
    ensures PermutedBoxes(input).Some? && |PermutedBoxes(input).value| == |input| / 32
    ensures Blackbox(input).Some? && Mixed(PermutedBoxes(input).value, Blackbox(input).value)
  {
    var boxes := Split(input, 32);
    SplitWhole(input, 32, |input| / 32);
    CollectWhole(boxes);
    WindowsMix(PermutedBoxes(input).value);
  }

  /** Permuted box i holds the bits of box i, rearranged. */
  lemma PermutedBoxRearranges(input: Bits, i: nat)
    requires Committable(input) && 32 * i < |input|
    ensures i < |Split(input, 32)|
    ensures PermutedBoxes(input).Some? && i < |PermutedBoxes(input).value|
    ensures multiset(PermutedBoxes(input).value[i]) == multiset(Split(input, 32)[i])
  {
    var boxes := Split(input, 32);
    SplitWhole(input, 32, |input| / 32);
    CollectWhole(boxes);
    ChunkRearranges(boxes, i);
  }

  /** What `blackbox` accepts: the empty string, or whole boxes, at least six of them. */
  predicate Committable(s: Bits)
  {
    |s| == 0 || (|s| % 32 == 0 && |s| >= 192)
  }

  // The Merkle tree

  /** The leaf width (`chunk_size = 256`). */
  const LeafSize: nat := 256

  /** Every node is accepted by `blackbox`. */
  predicate AllCommittable(nodes: seq<Bits>)
  {
    forall j :: 0 <= j < |nodes| ==> Committable(nodes[j])
  }

  /** `commitment_function(node)`: the commitment of an accepted node, as long as the node. */
  function Commit(node: Bits): (c: Bits)
    requires Committable(node)
    ensures Committable(c) && |c| == |node|
  {
    BlackboxOutcome(node);
    Blackbox(node).value
  }

  /**
   * The parent of `node1` and its partner `node2` (`""` when `node1` has
   * none): the XOR of the commitment of `node1` with that of `node2`
   * reversed, or with its own commitment again.
   */
  function Parent(node1: Bits, node2: Bits): (p: Bits)
    requires Committable(node1) && Committable(node2)
    ensures Committable(p)
    ensures |p| == if node2 == [] then |node1| else Min(|node1|, |node2|)
  {
    if node2 != [] then Xor(Commit(node1), Commit(Reverse(node2)))
    else Xor(Commit(node1), Commit(node1))
  }

  /**
   * One level up: nodes 2j and 2j+1 make parent j; an odd last node is
   * paired with `""`.
   */
  function Level(nodes: seq<Bits>): (next: seq<Bits>)
    requires AllCommittable(nodes)
    ensures |next| == (|nodes| + 1) / 2
    ensures AllCommittable(next)
  {
    seq((|nodes| + 1) / 2, j requires 0 <= j < (|nodes| + 1) / 2 =>
      Parent(nodes[2 * j], if 2 * j + 1 < |nodes| then nodes[2 * j + 1] else []))
  }

  /** A tree can be built: at least one node, and a single node or only accepted ones. */
  predicate Buildable(nodes: seq<Bits>)
  {
    |nodes| > 0 && (|nodes| == 1 || AllCommittable(nodes))
  }

  /** The last level's only node, reached by repeating `Level` until one node is left. */
  function TreeRoot(nodes: seq<Bits>): (root: Bits)
    requires Buildable(nodes)
    ensures |root| <= |nodes[0]|
    decreases |nodes|
  {
    if |nodes| == 1 then nodes[0]
    else
      var next := Level(nodes);
      assert |next[0]| <= |nodes[0]|;
      TreeRoot(next)
  }

  /**
   * The parent of an unpaired node is all zeros whatever the node holds:
   * the node is XOR-ed with its own commitment.
   */
  lemma UnpairedVanishes(nodes: seq<Bits>)
    requires AllCommittable(nodes) && |nodes| % 2 == 1
    ensures Level(nodes)[|nodes| / 2] == seq(|nodes[|nodes| - 1]|, _ => false)
  {
    var k := |nodes| / 2;
    assert 2 * k == |nodes| - 1;
    var node := nodes[2 * k];
    assert Level(nodes)[k] == Parent(node, []);
    ParentUnpaired(node);
  }

  lemma ParentUnpaired(node: Bits)
    requires Committable(node)
    ensures Parent(node, []) == seq(|node|, _ => false)
  {
    XorSelf(Commit(node));
  }

  /**
   * So with an odd number of nodes, the bits of the last one do not reach
   * the next level: replacing it by any node of the same length changes
   * nothing above it.
   */
  lemma LevelIgnoresUnpaired(nodes: seq<Bits>, other: Bits)
    requires AllCommittable(nodes) && |nodes| % 2 == 1
    requires |other| == |nodes[|nodes| - 1]|
    ensures AllCommittable(nodes[|nodes| - 1 := other])
    ensures Level(nodes[|nodes| - 1 := other]) == Level(nodes)
  {
    var changed := nodes[|nodes| - 1 := other];
    assert Committable(other);
    UnpairedVanishes(nodes);
    UnpairedVanishes(changed);
    var a, b := Level(nodes), Level(changed);
    forall j | 0 <= j < |a|
      ensures a[j] == b[j]
    {
      if j < |nodes| / 2 {
        assert nodes[2 * j] == changed[2 * j] && nodes[2 * j + 1] == changed[2 * j + 1];
      }
    }
  }

  /**
   * Hence the root of an odd number of nodes (three or more) does not
   * depend on the bits of the last one.
   */
  lemma RootIgnoresUnpaired(nodes: seq<Bits>, other: Bits)
    requires AllCommittable(nodes) && |nodes| % 2 == 1 && |nodes| >= 3
    requires |other| == |nodes[|nodes| - 1]|
    ensures Buildable(nodes[|nodes| - 1 := other])
    ensures TreeRoot(nodes[|nodes| - 1 := other]) == TreeRoot(nodes)
  {
    LevelIgnoresUnpaired(nodes, other);
  }

  /** Nodes of one width w give a root of width w. */
  lemma {:induction false} TreeRootWidth(nodes: seq<Bits>, w: nat)
    requires Buildable(nodes)
    requires forall j :: 0 <= j < |nodes| ==> |nodes[j]| == w
    ensures |TreeRoot(nodes)| == w
    decreases |nodes|
  {
    if |nodes| > 1 {
      var next := Level(nodes);
      assert forall j :: 0 <= j < |next| ==> |next[j]| == w;
      TreeRootWidth(next, w);
    }
  }

  /** The leaves of `generate_leaf_nodes`: 256-bit slices of the input, the last one possibly shorter. */
  function Leaves(input: Bits): (leaves: seq<Bits>)
    ensures Concat(leaves) == input
    ensures forall i :: 0 <= i < |leaves| ==>
      0 < |leaves[i]| <= LeafSize && (i < |leaves| - 1 ==> |leaves[i]| == LeafSize)
  {
    SplitConcat(input, LeafSize);
    SplitSizes(input, LeafSize);
    Split(input, LeafSize)
  }

  /**
   * The inputs on which building the tree does not raise: a non-empty
   * input of one leaf, or one whose last leaf has 192, 224 or 256 bits.
   */
  predicate MerkleAccepts(input: Bits)
  {
    && |input| > 0
    && (|input| <= LeafSize || |input| % LeafSize == 0 || |input| % LeafSize == 192 || |input| % LeafSize == 224)
  }

  /**
   * `build_tree` succeeds exactly on `MerkleAccepts`: the empty input has
   * no leaf to return, a single leaf is returned as it is, and with two or
   * more leaves every leaf goes through `blackbox`, where only the last
   * one can be refused.
   */
  lemma TreeBuilds(input: Bits)
    ensures Buildable(Leaves(input)) <==> MerkleAccepts(input)
  {
    SplitCount(input, LeafSize);
    if |Leaves(input)| >= 2 {
      ManyLeavesBuild(input);
    }
  }

  /** With two leaves or more, the tree builds exactly when the last leaf is accepted. */
  lemma ManyLeavesBuild(input: Bits)
    requires |Leaves(input)| >= 2
    ensures Buildable(Leaves(input)) <==> MerkleAccepts(input)
  {
    var leaves := Leaves(input);
    var last := |leaves| - 1;
    SplitCount(input, LeafSize);
    SplitBox(input, LeafSize, last);
    var r := |leaves[last]|;
    assert |input| == LeafSize * last + r;
    assert |input| > LeafSize;
    assert |input| % LeafSize == r % LeafSize;
    assert AllCommittable(leaves) <==> Committable(leaves[last]) by {
      assert forall j :: 0 <= j < last ==> Committable(leaves[j]);
    }
    assert Committable(leaves[last]) <==> r == 192 || r == 224 || r == 256;
  }

  /**
   * A single leaf is the root; an input of two or more whole leaves has a
   * root of 256 bits.
   */
  lemma MerkleRootShape(input: Bits)
    requires MerkleAccepts(input)
    ensures Buildable(Leaves(input))
    ensures |input| <= LeafSize ==> TreeRoot(Leaves(input)) == input
    ensures |input| % LeafSize == 0 ==> |TreeRoot(Leaves(input))| == LeafSize
  {
    var leaves := Leaves(input);
    TreeBuilds(input);
    SplitCount(input, LeafSize);
    if |input| <= LeafSize {
      assert |leaves| == 1;
      assert Concat(leaves) == leaves[0] + Concat([]);
    } else if |input| % LeafSize == 0 {
      SplitWhole(input, LeafSize, |input| / LeafSize);
      TreeRootWidth(leaves, LeafSize);
    }
  }

  /**
   * The tree over an input: the input itself, its leaves, and the root
   * the leaves fold to.
   */
  class MerkleTree {
    const inputString: Bits
    var leafNodes: seq<Bits>
    var root: Bits

    /** `MerkleTree(input_string)`; on inputs outside `MerkleAccepts` the source raises. */
    constructor (inputString: Bits)
      requires MerkleAccepts(inputString)
      ensures this.inputString == inputString
      ensures leafNodes == Leaves(inputString)
      ensures Buildable(leafNodes) && root == TreeRoot(leafNodes)
    {
      this.inputString := inputString;
      new;
      leafNodes := GenerateLeafNodes();
      TreeBuilds(inputString);
      root := BuildTree();
    }

    /** `generate_leaf_nodes`: the 256-bit slices of the input, which join back to it. */
    function GenerateLeafNodes(): (leaves: seq<Bits>)
      ensures leaves == Leaves(inputString)
      ensures Concat(leaves) == inputString
    {
      Leaves(inputString)
    }

    /**
     * `build_tree`: add levels until the last one has a single node and
     * return that node.
     */
    method BuildTree() returns (root: Bits)
      requires Buildable(leafNodes)
      ensures root == TreeRoot(leafNodes)
    {
      var tree := [leafNodes];
      while |tree[|tree| - 1]| > 1
        invariant |tree| > 0 && Buildable(tree[|tree| - 1])
        invariant TreeRoot(tree[|tree| - 1]) == TreeRoot(leafNodes)
        decreases |tree[|tree| - 1]|
      {
        var next := Level(tree[|tree| - 1]);
        tree := tree + [next];
      }
      root := tree[|tree| - 1][0];
    }
  }
}
