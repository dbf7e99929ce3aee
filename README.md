# Keyed permutations, two toy Feistel networks and a bit commitment, in Dafny

This project models three experiments that work on bit strings (Python
strings over '0'/'1', here `seq<bool>` with `true` for '1'):

- **feistel.py.** A permutation engine decodes a key as a Lehmer code in the factorial number system (class `Permutation`).
  - A round function reorders the right half of the state by that permutation.
  - A four-round Feistel-style network tiles its key from one half, XORs the permuted right half into the left half and swaps.
  - A test driver runs the network on every w-bit input and counts repeated outputs.
- **aes_vs_feistel_commitment.py.** The same permutation engine, with a second variant of the network.
  - `extend_key` doubles the key and cuts it.
  - The round function extends its key itself, to exactly the `ceil(log2(n!))` bits the engine asks for.
  - Rounds 1-3 take the key from the right half and round 4 from the left.
  - The state moves on as `left, right = right, new_right`.
- **commitment.py.**
  - `blackbox` cuts a string into 32-bit boxes.
  - It reorders each box by a stable argsort of keys drawn from the other boxes.
  - It then XORs every permuted box with the next two.
  - A Merkle-style tree folds 256-bit leaves pairwise with that commitment.

Modules, one per file:

- `Bits`: bit strings, their values, XOR over `zip`, tiling, reversal and joining.
- `Perms`: permutations of 0..n-1 and reordering by one.
- `Lehmer`: the permutation engine.
  - The class `Permutation` at aes_vs_feistel_commitment.py:9-29 is a copy of feistel.py:3-23 (only the error text differs), so both files use this one module.
- `Feistel`: feistel.py.
- `AesFeistel`: aes_vs_feistel_commitment.py.
- `Commitment`: commitment.py, with the class `MerkleTree`.

The exceptions the code raises are modelled as follows:

- The engine's too-short-key error and `int('', 2)` on an empty key are the `Result` values `Err(KeyTooShort(required, actual, n))` and `Err(EmptyKey)`.
- In commitment.py, `range` with step 0, an out-of-range index inside `blackbox` and `reduce` on an empty list are modelled this way:
  - `blackbox` and `generate_permutation_from_z` return `None`.
  - `xor_all_elements` has a precondition.
  - The Merkle tree's constructor carries a precondition (`MerkleAccepts`), and a lemma proves it is exactly the set of inputs on which construction does not raise.
- Loops that never end on an empty key are excluded by preconditions:
  - the key lengthening in feistel.py, reached there only by a one-bit input;
  - `extend_key` in the other file.

`math.log2` is replaced by the exact integer `CeilLog2(m)`, the least k with 2^k >= m.

Behaviour of the code worth noting:

- **Swap in feistel.py.** feistel.py:50 moves the state on as `left, right = new_right, left`: the XOR result becomes the left half and the old left half becomes the right half.
- **Odd-length inputs.** They are not rejected. The `zip` in the XOR (feistel.py:49, aes_vs_feistel_commitment.py:59) cuts the longer operand, so one bit is lost and the output has 2*(n/2) bits. Whether a run fails depends only on the input's length, never on its bits (`Feistel.NetworkOutcome`, `AesFeistel.NetworkOutcome`).
- **The key already long enough.** feistel.py's lengthening loop leaves it as it is rather than cutting it. It is never longer than the input there, so the round key always has exactly len(input) bits.
- **The aes variant never raises the too-short error.** Its key is always cut to exactly the required length. It fails only with `int('', 2)`, when a half has fewer than two bits.

## Model

| member | source | states |
|---|---|---|
| Bits.Value | feistel.py:11 | `int(s, 2)` of a w-bit string is below 2^w |
| Bits.ToBits | feistel.py:66 | `format(i, '0wb')` has w bits and reads back as i |
| Bits.ToBitsValue | feistel.py:66 | writing a string's value back with its own width gives the string back |
| Bits.ValueInjective | feistel.py:65-66 | equal-width strings with equal values are equal, so the test driver's inputs are distinct |
| Bits.Xor | feistel.py:49 | the XOR over `zip` has the shorter operand's length and bit i is a[i] != b[i] |
| Bits.XorSelf | commitment.py:10-11 | `xor_chunks(a, a)` is all zeros |
| Bits.XorCommutes | commitment.py:10-11 | `xor_chunks` is commutative |
| Bits.XorCancel | aes_vs_feistel_commitment.py:59 | XOR-ing twice with an operand of the same length restores the other |
| Bits.XorRestores | aes_vs_feistel_commitment.py:59 | XOR-ing twice with the same operand restores the other, cut to the shorter length |
| Bits.Tile | aes_vs_feistel_commitment.py:32-35 | reference definition of the periodic key: exactly len bits, bit i is key[i mod \|key\|] |
| Bits.TilingUnique | feistel.py:45-46 | a tiling is determined by its key and its length |
| Bits.Reverse | commitment.py:54 | `s[::-1]`: same length, bit i is bit \|s\|-1-i |
| Bits.Concat | commitment.py:28 | `''.join(parts)`; joining a single part gives that part |
| Bits.ConcatAppend | commitment.py:28 | joining two lists of parts is joining each and concatenating |
| Perms.Range | feistel.py:15 | `list(range(n))` has n entries, entry i is i |
| Perms.RangeDistinct | feistel.py:15 | the candidates 0..n-1 are distinct |
| Perms.RangeMultiplicity | feistel.py:15 | 0..n-1 holds each v < n once and nothing else |
| Perms.PermutationElements | feistel.py:14-23 | a permutation of 0..n-1 has n entries, all below n, none repeated |
| Perms.Permute | commitment.py:18-19 | `apply_permutation`: length \|perm\|, position i holds box[perm[i]] |
| Perms.PermuteAppend | feistel.py:27 | reading by a + b is reading by a then by b |
| Perms.PermuteRespectsMultiset | feistel.py:27 | reading by two orderings of the same positions gives the same bits |
| Perms.PermutePreservesBits | commitment.py:18-19 | a permutation of range(len(box)) keeps the box's bits, hence its count of '1's |
| Perms.PermuteIdentity | feistel.py:27 | reading every position in order gives the string back |
| Lehmer.Fact | feistel.py:19 | `math.factorial` is at least 1 |
| Lehmer.CeilLog2 | feistel.py:7 | `ceil(log2(m))` as the least k with 2^k >= m |
| Lehmer.RequiredBits | feistel.py:7 | `ceil(log2(n!))` is the least k with 2^k >= n! |
| Lehmer.EnoughBits | feistel.py:7-8 | k bits are enough for n items exactly when 2^k >= n! |
| Lehmer.Decode | feistel.py:18-22 | the factorial-number-system decoding that the popping loop performs: the digit index // (len-1)! picks the next candidate, the remainder decodes the rest; its properties are the lemmas below |
| Lehmer.DecodePermutes | feistel.py:18-22 | decoding takes every candidate exactly once |
| Lehmer.DecodeStep | feistel.py:19-22 | the pop position index // (len-1)! is in range and the remainder stays below (len-1)! |
| Lehmer.PopOne | feistel.py:19-22 | one pass of the loop: pops item `temp_index // (len-1)!` and keeps the remainder; the popped prefix followed by the decoding of what is left is unchanged, and the remainder fits the smaller factorial |
| Lehmer.PopAll | feistel.py:17-23 | the loop `while items` returns exactly the Lehmer decoding of the starting index over the starting candidates |
| Lehmer.CalculatePermutation | feistel.py:14-23 | the popping loop returns the Lehmer decoding of the index, a permutation of 0..n-1 |
| Lehmer.DecodeZero | feistel.py:18-22 | index 0 decodes to the identity |
| Lehmer.DecodeInjective | feistel.py:18-22 | distinct indices below n! decode to distinct permutations |
| Lehmer.RankDecodes | feistel.py:18-22 | every reordering of the candidates is decoded from the index `Rank` gives, below n! |
| Lehmer.DecodeBijective | feistel.py:14-23 | every permutation of 0..n-1 comes from exactly one index below n! |
| Lehmer.NewPermutation | feistel.py:4-12 | `Permutation(key, n)` (also aes_vs_feistel_commitment.py:10-18): too-short error exactly below ceil(log2 n!) bits; otherwise the empty-key error or the index value mod n! (below n!) and its decoding |
| Lehmer.NewPermutationValid | feistel.py:11-12 | an accepted key yields a permutation of 0..n-1 |
| Lehmer.NewPermutationBelow | feistel.py:11-12 | an accepted permutation has n entries, all below n |
| Lehmer.KeyTooShortIff | feistel.py:7-10 | the too-short error is raised exactly when 2^\|key\| < n! |
| Lehmer.SameIndexSamePermutation | feistel.py:11 | keys with equal values mod n! give the same permutation |
| Feistel.FFunction | feistel.py:25-27 | `f_function` fails exactly as `Permutation` does; otherwise output and permutation have \|right_half\| entries |
| Feistel.FFunctionReads | feistel.py:27 | position i of the output is right_half[perm[i]] |
| Feistel.FFunctionPreservesBits | feistel.py:25-27 | the permutation orders 0..n-1 and the output keeps the right half's bits |
| Feistel.LengthenKey | feistel.py:45-46 | the lengthening loop ends with max(\|key\|, len(input)) bits, bit i being key[i mod \|key\|] |
| Feistel.LengthenStep | feistel.py:46 | one append keeps the key a tiling grown by whole copies |
| Feistel.TilingGrows | feistel.py:46 | appending a prefix to a tiling that ends on a period gives a longer tiling |
| Feistel.RoundKey | feistel.py:45-46 | the round key has max(\|half\|, n) bits |
| Feistel.RoundKeyTiles | feistel.py:45-46 | bit i of the round key is bit i mod \|half\| of the half |
| Feistel.FeistelNetwork | feistel.py:29-54 | the four-round loop computes the network's specification `Network` |
| Feistel.Network | feistel.py:29-54 | `feistel_network(input_bits)`: its output has at most \|input\| bits, and on a non-empty input every failure is the too-short error |
| Feistel.Rounds | feistel.py:36-54 | the rounds from `round` on, then `left + right`: at most \|left\|+\|right\| bits; with n > 0 only the too-short error |
| Feistel.Round | feistel.py:36-50 | one round (key from left in rounds 1-3, from right in round 4, lengthened to n bits; `left, right = new_right, left`) and the rounds after it: at most \|left\|+\|right\| bits; with n > 0 only the too-short error |
| Feistel.RoundAccepts | feistel.py:25-27 | a non-empty round key is accepted exactly when it has ceil(log2 h!) bits, else the too-short error |
| Feistel.RequiredBitsGrow | feistel.py:7 | more items never need fewer key bits |
| Feistel.SteadyRound | feistel.py:45-50 | on two h-bit halves a round is accepted iff n >= ceil(log2 h!) and leaves two h-bit halves |
| Feistel.RoundsSteady | feistel.py:36-50 | from equal halves every round keeps them equal; success iff the key is long enough |
| Feistel.FirstRoundOdd | feistel.py:49-50 | on odd input the first XOR drops one bit and the run succeeds iff n >= ceil(log2 (h+1)!) |
| Feistel.OddRound | feistel.py:49-50 | the first round on an odd input, accepted or not, and the state it leaves |
| Feistel.NetworkOutcome | feistel.py:29-54 | empty input fails with the empty-key error; otherwise success iff the n-bit key suffices for the longer half; output 2*(n/2) bits; failures are too-short errors |
| Feistel.AcceptedWidths | feistel.py:45-48 | an n-bit input (n >= 2) has a long enough round key iff n <= 16 and n != 15 |
| Feistel.NetworkWidths | feistel.py:59-67 | the network succeeds exactly on 2..16 bits except 15 (so on every width the test driver tries) |
| Feistel.Runs | feistel.py:65-67 | one network run per input 0..m-1 written with `bits` bits |
| Feistel.TotalFrame | feistel.py:70-73 | changing an unlisted output's count leaves the listed total alone |
| Feistel.TotalBump | feistel.py:70-73 | counting one more occurrence raises the total by one |
| Feistel.ExcessTotal | feistel.py:76 | Σ(count-1 for count > 1) equals total minus distinct outputs |
| Feistel.RecordOutput | feistel.py:70-73 | the dictionary update increments or inserts 1, keeping the tally of the runs seen |
| Feistel.RunsStep | feistel.py:65-67 | the next run extends the list of runs and succeeds |
| Feistel.CountOutputs | feistel.py:65-73 | every run succeeds and the dictionary tallies all 2^bits outputs |
| Feistel.CollisionCount | feistel.py:65-77 | collision_count = Σ(count-1) = 2^bits - number of distinct outputs |
| Feistel.SumExcess | feistel.py:76 | the summing loop computes Σ(count-1 for count > 1) |
| Feistel.TalliedCounts | feistel.py:70-73 | every listed output has a positive count and the counts add up to the number of runs |
| Feistel.TalliedDistinct | feistel.py:70-73 | the dictionary has one key per distinct output |
| Feistel.DistinctCard | feistel.py:70-73 | a list of distinct outputs has as many entries as elements |
| Feistel.TestBitLengths | feistel.py:58-76 | the collision counts for widths 8, 10, 12, 14, 16, in order |
| Feistel.CollisionsAt | feistel.py:60-76 | the collision count of one width |
| AesFeistel.ExtendKey | aes_vs_feistel_commitment.py:32-35 | `extend_key` returns exactly required_length bits, bit i = key[i mod \|key\|] |
| AesFeistel.DoubleStep | aes_vs_feistel_commitment.py:33-34 | doubling keeps the key a tiling by whole copies |
| AesFeistel.TilePrefix | aes_vs_feistel_commitment.py:35 | cutting a tiling gives the tiling of that length |
| AesFeistel.ExtendTruncates | aes_vs_feistel_commitment.py:32-35 | a key already long enough is simply cut |
| AesFeistel.TiledTiled | aes_vs_feistel_commitment.py:57 | extending to n then to m is extending to m when m <= n or \|key\| divides n |
| AesFeistel.NoBitsNeeded | aes_vs_feistel_commitment.py:39 | ceil(log2 h!) is 0 exactly for h <= 1 |
| AesFeistel.FFunction | aes_vs_feistel_commitment.py:38-43 | never the too-short error; fails (empty key) iff \|right_half\| < 2; lengths are \|right_half\| |
| AesFeistel.FFunctionRearranges | aes_vs_feistel_commitment.py:41-43 | the permutation orders 0..n-1, position i is right_half[perm[i]], the bits are kept |
| AesFeistel.ExtendTwiceSameRound | aes_vs_feistel_commitment.py:57-58 | extending the round key to len(input) first does not change F when the cut stays inside or \|half\| divides len(input) |
| AesFeistel.Step | aes_vs_feistel_commitment.py:52-60 | one round succeeds iff \|right\| >= 2, else the empty-key error; the new left half is the old right half and the new right half has min(\|left\|, \|right\|) bits |
| AesFeistel.Unstep | aes_vs_feistel_commitment.py:52-60 | the inverse of a round 1-3 from its result alone: defined iff the new left half has 2 bits or more, else the empty-key error; returns the new left half as the old right half, and the old left half cut by `zip` |
| AesFeistel.RoundInvertible | aes_vs_feistel_commitment.py:52-60 | rounds 1-3 are undone by old_left = new_right XOR F(new_left), up to zip's cut |
| AesFeistel.HalvesNext | aes_vs_feistel_commitment.py:59-60 | an accepted round moves the halves from (h, n-h) to (n-h, h) to (h, h) |
| AesFeistel.Network | aes_vs_feistel_commitment.py:46-62 | `feistel_network(input_bits)`: its output has 2*(\|input\|/2) bits, and the only failure is the empty-key error |
| AesFeistel.Rounds | aes_vs_feistel_commitment.py:51-62 | the rounds from `round` on, then `left + right`: 2*(n/2) bits, and only the empty-key error |
| AesFeistel.Round | aes_vs_feistel_commitment.py:51-60 | one round and the rounds after it: 2*(n/2) bits, and only the empty-key error |
| AesFeistel.FeistelNetwork | aes_vs_feistel_commitment.py:46-62 | the four-round loop computes the network's specification `Network` |
| AesFeistel.RunRound | aes_vs_feistel_commitment.py:52-60 | the loop body (with `ExtendKey`) does what the round specification says |
| AesFeistel.StepOutcome | aes_vs_feistel_commitment.py:51-60 | a round is accepted iff the right half has at least 2 bits, which from round 2 on needs n >= 4; a rejected round ends the run with the empty-key error |
| AesFeistel.RoundsOutcome | aes_vs_feistel_commitment.py:51-62 | from any round the run succeeds iff n >= 4, ends with 2*(n/2) bits, fails only with the empty key |
| AesFeistel.NetworkOutcome | aes_vs_feistel_commitment.py:46-62 | the network succeeds exactly on n >= 4 bits, returns 2*(n/2) bits, else the empty-key error |
| Commitment.Split | commitment.py:7-8 | `split_string_into_boxes`: no box exactly for the empty string; every box has 1..size bits |
| Commitment.SplitBox | commitment.py:7-8 | box i is `s[size*i : size*i+size]` |
| Commitment.SplitCount | commitment.py:7-8 | there are ceil(len/size) boxes; none for the empty string |
| Commitment.SplitConcat | commitment.py:7-8 | joining the boxes gives the string back |
| Commitment.SplitSizes | commitment.py:7-8 | every box but the last has `size` bits, the last 1..size |
| Commitment.SplitWhole | commitment.py:7-8 | m*size bits give m boxes of exactly size bits |
| Commitment.XorAll | commitment.py:21-22 | the fold's length is the shortest element's |
| Commitment.XorAllParity | commitment.py:21-22 | bit i of the fold is '1' iff an odd number of elements have '1' there |
| Commitment.Indices | commitment.py:14-15 | one key per chunk, each below 32 |
| Commitment.IndicesCover | commitment.py:14-15 | a seed of at least 32 bits gives at least 32 keys |
| Commitment.Insert | commitment.py:16 | inserting adds exactly one position |
| Commitment.ArgSort | commitment.py:16 | `sorted(range(n), key=...)` lists 0..n-1 once each, by key, ties in ascending position |
| Commitment.InsertSorted | commitment.py:16 | inserting a new last position keeps the list stably sorted |
| Commitment.SortedUnique | commitment.py:16 | a stable sort has exactly one result, so `ArgSort` is `sorted`'s |
| Commitment.GeneratePermutationFromZ | commitment.py:13-16 | defined iff \|z\| >= 32 (else `range` fails); then 32 positions below 32 |
| Commitment.GeneratedPermutation | commitment.py:13-16 | the result is a permutation of 0..31 stably sorted by the chunk keys |
| Commitment.PermutationNeedsFullBox | commitment.py:19 | a permutation of 0..31 cannot index a box of fewer than 32 bits |
| Commitment.Others | commitment.py:28-29 | `''.join(boxes[:i] + boxes[i+1:])` has as many bits as all the boxes but box i |
| Commitment.Seed | commitment.py:28-29 | the seed of a box has \|others\| - 105 bits (0 when \|others\| <= 105) |
| Commitment.PermuteBox | commitment.py:27-29 | a permuted box has 32 bits |
| Commitment.Chunk | commitment.py:27-30 | box i after its permutation has 32 bits; it fails when the other boxes hold fewer than 137 bits, as the seed is then under 32 bits |
| Commitment.Collect | commitment.py:26-31 | building the list stops at the first box that fails; when it does not fail it has one entry per box |
| Commitment.CollectAll | commitment.py:26-31 | the list of permuted boxes exists iff every box permutes, and lists them in order |
| Commitment.ChunkWhole | commitment.py:26-30 | with six whole boxes or more every box permutes |
| Commitment.ChunkFewBoxes | commitment.py:26-30 | with one to five whole boxes no box permutes (seed under 32 bits) |
| Commitment.ChunkShortBox | commitment.py:26-30 | a box of fewer than 32 bits never permutes |
| Commitment.ChunkRearranges | commitment.py:26-30 | a permuted box holds its box's bits |
| Commitment.WindowXors | commitment.py:33 | one window XOR per permuted box |
| Commitment.WindowsWhole | commitment.py:33 | the XOR of each window of whole chunks has 32 bits |
| Commitment.LastWindow | commitment.py:33 | the last window XOR is the last permuted box alone |
| Commitment.WindowsMix | commitment.py:33 | output block i is the XOR of chunks i..i+2; the last block is the last chunk alone |
| Commitment.BlackboxWhole | commitment.py:24-33 | whole boxes, six or more: `blackbox` returns as many bits as given |
| Commitment.BlackboxFewBoxes | commitment.py:24-33 | one to five whole boxes: `blackbox` raises |
| Commitment.BlackboxPartialBox | commitment.py:24-33 | a trailing partial box: `blackbox` raises |
| Commitment.Blackbox | commitment.py:24-33 | `blackbox(input_string)`: the empty string gives the empty string; the other cases are `BlackboxOutcome` and `BlackboxMixes` |
| Commitment.PermutedBoxes | commitment.py:25-31 | `chunks_after_permutation`: when every box permutes, one entry per 32-bit box |
| Commitment.BlackboxOutcome | commitment.py:24-33 | `blackbox` returns iff the input is empty or whole boxes totalling 192 bits or more, and then keeps the length |
| Commitment.BlackboxMixes | commitment.py:24-33 | on such input there is one permuted box per box and the output is their window mix |
| Commitment.PermutedBoxRearranges | commitment.py:26-31 | permuted box i holds the bits of box i |
| Commitment.Commit | commitment.py:45-46 | the commitment of an accepted node is accepted and as long as the node |
| Commitment.Parent | commitment.py:52-55 | a parent is accepted, as long as the shorter child (or the node itself when unpaired) |
| Commitment.Level | commitment.py:51-56 | a level of k nodes has ceil(k/2) parents, all accepted |
| Commitment.UnpairedVanishes | commitment.py:54 | an unpaired last node's parent is all zeros |
| Commitment.ParentUnpaired | commitment.py:54 | the parent of a node paired with "" is all zeros |
| Commitment.LevelIgnoresUnpaired | commitment.py:51-56 | the next level does not depend on the bits of an unpaired node |
| Commitment.TreeRoot | commitment.py:48-57 | the last level's only node, no longer than the first node |
| Commitment.RootIgnoresUnpaired | commitment.py:48-57 | with an odd number (3+) of nodes the root does not depend on the last node's bits |
| Commitment.TreeRootWidth | commitment.py:48-57 | nodes of one width give a root of that width |
| Commitment.Leaves | commitment.py:41-43 | leaves are 256-bit slices (the last 1..256) that join back to the input |
| Commitment.ManyLeavesBuild | commitment.py:48-57 | with two leaves or more the tree builds iff the input's last leaf has 192, 224 or 256 bits |
| Commitment.TreeBuilds | commitment.py:48-57 | the tree builds iff the input is non-empty and has one leaf or a last leaf of 192, 224 or 256 bits |
| Commitment.MerkleRootShape | commitment.py:36-57 | one leaf is its own root; whole 256-bit leaves give a 256-bit root |
| Commitment.MerkleTree.constructor | commitment.py:36-39 | stores the input, its leaves and the root they fold to |
| Commitment.MerkleTree.GenerateLeafNodes | commitment.py:41-43 | `generate_leaf_nodes` returns the leaves, which join back to the input |
| Commitment.MerkleTree.BuildTree | commitment.py:48-57 | the level-appending loop returns the root the leaves fold to |

## Left out

- `aes_encrypt` (aes_vs_feistel_commitment.py:65-70): a call into an AES library; not modelled.
- `test_specific_bit_length` and the `__main__` blocks: random inputs, clocks and printing.
- The trace strings of feistel.py's network and the log file and printed report of its test driver.
- `collision_percentage` (feistel.py:78): a floating-point presentation of the collision count, which is modelled.
- `generate_256_bit_string` (commitment.py:4-5): random bits.
- crc_example.py is not part of this model: it depends on an external CRC library and a computer-algebra system.
- Python's `int(s, 2)` accepts underscores, whitespace and prefixes. Bit strings here are sequences of booleans, so malformed characters cannot occur.
- `math.log2` on floats is replaced by the exact `CeilLog2`. Float rounding of log2(n!) is not modelled.
- Feistel.FeistelNetwork: requires that the input is not one bit long. On a one-bit input the empty left half is never lengthened and the source loops forever.
- Feistel.LengthenKey: requires a non-empty key or a zero target, because the source loops forever otherwise.
- AesFeistel.ExtendKey: requires a non-empty key or a zero length, because the source loops forever otherwise.
- Commitment.XorAll: requires at least one element. `functools.reduce` raises on an empty list, and `blackbox` never passes one.
- Commitment.Split: requires a positive box size. `range` with step 0 raises, and every call uses 32, 256 or a positive chunk size.
- Commitment.GeneratePermutationFromZ, Commitment.Blackbox: the ValueError from `range` and the IndexError from `apply_permutation` are both `None`. The model does not say which exception comes first.
- Commitment.MerkleTree.constructor: requires `MerkleAccepts`. The source raises there, and `Commitment.TreeBuilds` proves the condition is exact. The partially built object is not modelled.
- Commitment.MerkleTree.BuildTree: the list of all levels is a local variable. Only the root it returns is stated.
