# UMASH in Dafny

UMASH is a keyed, almost-universal hash with a 64-bit result and a 128-bit fingerprint. Its
repository computes the hash in four ways: an executable specification in Python, batch C code with
a path for each range of lengths, unrolled kernels for long inputs, and an incremental C object that
takes its input in arbitrary pieces. This project gives the hash one definition (`Umash.Hash`),
models each of the four programs in its own form, and proves that all of them compute it, for every
input, key, seed, split into pieces and dispatch decision. On top of that definition it proves the
deterministic half of the design document's collision argument, and it treats the sort and the
statistics of the exact permutation test in the same way.

## How the project is laid out

Arithmetic and data:

- `Words.dfy`, `CarryLess.dfy`: 64-bit words as integers, exclusive or on naturals, and
  multiplication of polynomials over GF(2), with its algebra.
- `ModArith.dfy`: arithmetic modulo 2^64 - 8 with every wrap-around written out, and the lazily
  reduced accumulator.
- `Lanes.dfy`, `Bytes.dfy`: 128-bit values as two 64-bit lanes, and little-endian loads.

The hash:

- `Oh.dfy`: the two block compressors in the closed form of the design document, and the
  shift-and-accumulate schedules that the programs use instead.
- `ShortHash.dfy`, `Finalizer.dfy`: inputs of at most 8 bytes, and the invertible last step.
- `Umash.dfy`: the definition of the hash, for all inputs.

The programs, each a set of methods with loops or a class with mutable fields:

- `Kernels.dfy` (long-input kernels, 128-bit and paired 256-bit), `Batch.dfy` (the batch entry
  points), `Sink.dfy` (the incremental object), `Reference.dfy` (the executable specification),
  `Agreement.dfy` (all of them on the same input), `Preparation.dfy` (making random words into
  valid parameters).

Collisions:

- `PolyHash.dfy` (the polynomial hash in the field, and how many multipliers collide),
  `Universality.dfy` (at most one value of some key word collides), `Shufflers.dfy` (what a
  collision of both compressors forces), `Fingerprints.dfy` (how many key words make both collide),
  `FiniteSets.dfy`.

The exact permutation test:

- `HybridSort.dfy` (the counting / comparison sort), `ExactTest.dfy` (tags and statistics).

## Conventions

- A word is an integer below 2^64. Unsigned overflow is written as `% W`; lengths and indices are
  natural numbers.
- A method that models a loop states its result as a function of its inputs; lemmas then state what
  the design promises about that function.
- `hide` statements keep definitions out of proofs that do not need them; they have no other effect.
- The parameters follow the layout that the code uses: each row of multipliers is the reduced square
  and then the multiplier (`umash.c:1031-1032`). The comment on the field in `umash.h:140` names them
  in the other order.
- `wide` stands for the kernel that the processor dispatch picked. It is an argument of every
  operation that reaches a kernel, and it occurs in no result.
- `Sinks.Sink.fed` is a ghost field with all the bytes fed so far; `Sinks.Sink.Valid` ties the
  machine's fields to it.

## Model

| member | source | states |
|---|---|---|
| `Bytes.LoadWordBytes` | `umash.c:797-798` | byte i of an 8-byte load is the ith byte in memory, lowest first |
| `Bytes.LoadWordValue` | `umash.c:797-798` | an 8-byte load written out as a sum of its bytes |
| `Bytes.LoadChunkBytes` | `umash_reference.py:1096` | bytes 0 to 7 of a chunk are its low lane, bytes 8 to 15 its high lane, both lowest first |
| `ModArith.AddModFastExact` | `umash.c:274-281` | the fast addition is a congruence modulo 2^64 - 8 exactly when the sum is below 2^65 - 8, the range its documentation gives |
| `ModArith.AddModSlowReduces` | `umash.c:283-325` | the slow addition reduces fully modulo 2^64 - 8, for all pairs of words |
| `ModArith.MulModFastExact` | `umash.c:327-334` | the fast multiplication is a congruence exactly when the product is below 2^125 |
| `ModArith.HornerDoubleUpdateExact` | `umash.c:336-342` | from a reduced accumulator and multipliers below 2^61, the update is exactly (m0 (acc + x) + m1 y) mod (2^64 - 8), reduced |
| `ModArith.HornerDoubleUpdateValue` | `t/umash_test_only.h:34-41` | the same with the formula and the modulus written out |
| `ModArith.BumpExact` | `umash_long.inc:264-275` | adding the fixup to a hash half never exceeds the 2^64 - 8 that the next fast addition tolerates, and is a congruence |
| `ModArith.AddCarriesExact` | `umash_long.inc:300-319` | for two products with high halves below 2^61, base and fixup together lose no carry, and the fixup is at most 3 |
| `ModArith.SplitEval` | `umash_long.inc:244-248` | evaluating a valid accumulator is full reduction of base + 8 fixup |
| `ModArith.SplitUpdateExact` | `umash_long.inc:254-319` | the lazy update keeps the fixup at most 3 and evaluates to the exact Horner step of the value before, for every base |
| `ModArith.SplitUpdateValue` | `t/umash_test_only.h:48-58` | the same from base and fixup at most 3, with the formula written out |
| `CarryLess.GfMulNonzero` | `umash_reference.py:810-816` | carry-less multiplication has no zero divisors |
| `CarryLess.GfMulInjective` | `umash_reference.py:810-816` | multiplication by a nonzero polynomial is injective on both sides |
| `Lanes.ClmulBound` | `umash.c:124-128` | the product of two words fits 127 bits, so the top lane's top bit is clear |
| `Oh.PhValue` | `umash_reference.py:1098-1103` | both lanes of PH are the carry-less product of the chunk's two words, each with its own key word |
| `Oh.EnhValue` | `umash_reference.py:1103-1106` | the lanes of ENH from the 128-bit product of the two keyed words: the tag is added to the high half, then the low half is folded in |
| `Oh.ShuffleSchedule` | `umash.c:588-626` | for every chunk count, shifting an accumulator once per chunk with the last PH value held back, adding the plain sum and shifting once more is the sum of the shuffled PH values of the closed form |
| `Oh.CompressSnoc` | `umash_reference.py:1138-1149` | both closed-form compressors of a block, from the running sums over all its chunks but the last |
| `ShortHash.LoadHalfBytes` | `umash.c:694-711` | byte i of a 2- or 4-byte load is the ith byte in memory, lowest first |
| `ShortHash.PackedLong` | `umash.c:689-726` | for 4 to 8 bytes: the last four on top of the sum modulo 2^32 of the first four and the last four, byte by byte |
| `ShortHash.PackedShort` | `umash.c:694-726` | the packing of 0, 1, 2 and 3 bytes, byte by byte |
| `ShortHash.ShortDecodes` | `umash_reference.py:942-963` | the short hash is the one word that decodes to the packed bytes, by shifts of 31, 27 and 30, two literal inverse multipliers, and seed plus the key word of the input's length |
| `ShortHash.SecondShortDecodes` | `umash.c:743-769` | the second short hash is the one word that decodes with the key word four further on |
| `ShortHash.VecToU64Injective` | `umash_reference.py:880-884` | the packed value is unique among inputs of the same length |
| `ShortHash.ShortCollision` | `umash_reference.py:922-938` | two short inputs collide if and only if the exclusive or of their noises is that of their partially mixed values |
| `ShortHash.ShortInjective` | `umash_reference.py:922-926` | for every key and seed, short inputs of the same length never collide |
| `ShortHash.ShortVariantsAgree` | `umash.c:728-769` | the fused C hash and the short fingerprint are the reference mixing at key offsets 0 and 4 |
| `Finalizer.Doubling` | `t/test_finalize.py:16-23` | an exclusive or with two rotations, composed with itself, doubles both rotation counts |
| `Finalizer.UnfinalizeInverts` | `t/test_finalize.py:16-31` | six rounds with doubling counts invert the finalizer on both sides |
| `Finalizer.FinalizeBits` | `umash.c:782-786` | bit i of the result is the exclusive or of bits i, i + 56 and i + 31 modulo 64 of the argument |
| `Umash.BlockBytes` | `umash_reference.py:1012-1037` | every byte of every chunk of a block: chunk k starts 16 k bytes into the block, and the last one ends where the block ends, or repeats the first 8 bytes of an input below 16 |
| `Umash.ShortHashDecodes` | `umash_reference.py:1279-1284` | either hash of an input of at most 8 bytes decodes to its packed bytes, with key words four apart |
| `Umash.PolyStepField` | `umash_reference.py:1201-1214` | one double update modulo 2^64 - 8 with the reduced square is two Horner updates modulo 2^61 - 1 |
| `Umash.PolyStepExactly` | `umash_reference.py:257-262` | modulo 2^64 - 8 itself the double update is the polynomial's exactly when the multiple of 2^61 - 1 dropped from the square, times the factor it would meet, is divisible by 8 |
| `Umash.NotThePolynomial` | `umash_reference.py:257-262` | a multiplier and a block for which it is not |
| `Umash.PolyConcat` | `umash_reference.py:1193-1218` | folding a prefix and then a suffix from its result folds the whole stream |
| `Umash.FullBlocksLocal` | `umash_reference.py:1040-1057` | the compressed values of complete blocks do not depend on later input |
| `Kernels.OhBlockGeneric` | `umash_long.inc:395-593` | the unrolled compressor of the portable kernel is the primary compressor |
| `Kernels.OhBlockFprintGeneric` | `umash_long.inc:652-760` | the portable fingerprint schedule, which does not shift the 15th PH value in, gives both compressors |
| `Kernels.OhBlockPaired` | `umash_long.inc:766-871` | summing even and odd chunks in separate lanes is the primary compressor |
| `Kernels.PairedShiftStep` | `umash_long.inc:964-1000` | shifting an even and an odd product by the same amount places both, when the even lane is shifted once more at the end |
| `Kernels.OhBlockFprintPaired` | `umash_long.inc:873-1059` | the paired schedule, with its variable shifts, gives both compressors |
| `Kernels.MultipleBlocks` | `umash_long.inc:338-593` | for every positive block count and initial word, either kernel returns the fully reduced fold of the blocks |
| `Kernels.FprintMultipleBlocks` | `umash_long.inc:595-760` | the same for both hashes of a fingerprint |
| `Batch.OhVarblock` | `umash.c:529-571` | one block with a read-behind tail is the primary compressor of its specified chunks |
| `Batch.OhVarblockFprint` | `umash.c:574-653` | the same for both compressors in one pass |
| `Batch.MediumIsLong` | `umash.c:788-809` | the path for 9 to 16 bytes is the long hash of one redundant chunk |
| `Batch.FpMediumIsLong` | `umash.c:811-851` | the same for a fingerprint |
| `Batch.LastBlock` | `umash.c:897-909` | the last block, partial or full, under its wrapped size tag, completes the hash |
| `Batch.UmashLong` | `umash.c:853-910` | the long path, by kernels or block by block, is the hash, for every length from 16 bytes |
| `Batch.UmashFpLong` | `umash.c:912-980` | the same for a fingerprint |
| `Batch.UmashFprint` | `umash.c:1382-1396` | the batch fingerprint is both hashes of the input, of any length |
| `Batch.UmashFull` | `umash.c:1344-1380` | the batch hash is the hash that was asked for |
| `Sinks.Sink.Init` | `umash.c:1398-1427` | a new hashing state stands for the empty input |
| `Sinks.Sink.FpInit` | `umash.c:1429-1457` | a new fingerprinting state stands for the empty input |
| `Sinks.Sink.Reachable` | `umash.c:1077-1342` | the ranges of the fields in every reachable state: reduced accumulators, even counter up to 30, block size 8 times the counter, at most 16 pending bytes, and at least one once 16 bytes were fed |
| `Sinks.Sink.UpdatePoly` | `umash.c:1077-1100` | folds the open block into the active polynomial accumulators and clears it |
| `Sinks.Sink.ConsumePh` | `umash.c:1120-1145` | a PH chunk extends the open block: its sum, its checksum, and its shifted sum one chunk behind |
| `Sinks.Sink.ConsumeEnh` | `umash.c:1146-1186` | the closing chunk turns both sums into the two compressors of the block's chunks under the wrapped size tag |
| `Sinks.CloseStep` | `umash.c:1188-1201` | closing a full block continues the fold of blocks; closing the last one gives the hash |
| `Sinks.Sink.CloseChunks` | `umash.c:1146-1186` | after the closing chunk, one polynomial update per active hash gives the fold of blocks, or the accumulator of the whole input |
| `Sinks.Sink.EndBlock` | `umash.c:1194-1198` | that update, and a cleared block that keeps the invariant |
| `Sinks.Sink.NextChunk` | `umash.c:1188-1201` | the block size wraps, the counter moves on, and a complete block is folded in |
| `Sinks.Sink.ConsumeBuf` | `umash.c:1106-1201` | consuming a chunk keeps the state's invariant 16 bytes further on, or completes the hash when final |
| `Sinks.FoldContinues` | `umash.c:1207-1277` | a kernel run over the caller's bytes continues the fold of everything fed before |
| `Sinks.Sink.BlockKernels` | `umash.c:1217-1251` | the kernels, started from the sink's accumulators, keep the invariant over any number of blocks |
| `Sinks.Sink.HashBlock` | `umash.c:1253-1273` | one block hashed in place of the open one keeps the invariant |
| `Sinks.Sink.BlockUpdate` | `umash.c:1207-1277` | consumes whole blocks, and always leaves at least one byte for the caller |
| `Sinks.Sink.ConsumeSome` | `umash.c:1313-1337` | one round over the caller's data keeps the invariant and the last 16 consumed bytes in the window |
| `Sinks.Sink.ConsumeRest` | `umash.c:1311-1342` | leaves 1 to 16 bytes pending, with the 16 before them in the window |
| `Sinks.Sink.Update` | `umash.c:1279-1342` | feeding any bytes, none included, appends them to the input that the state stands for |
| `Sinks.Sink.Copy` | `umash.c:1496-1527` | a byte copy stands for the same input and shares nothing |
| `Sinks.Sink.TailIsLast16` | `umash.c:1462-1469` | the window read from the number of pending bytes on is the last 16 bytes of the input, across the two chunks it spans |
| `Sinks.Sink.Flush` | `umash.c:1462-1469` | pumping the last chunk through leaves the finished accumulators of the whole input |
| `Sinks.Sink.FpDigestSink` | `umash.c:1496-1527` | the fingerprint of everything fed, without changing the state |
| `Sinks.Sink.Digest` | `umash.c:1529-1551` | the wanted hash of everything fed, also for exactly 16 bytes, without changing the state |
| `Reference.Gfmul` | `umash_reference.py:810-816` | the bit loop is carry-less multiplication |
| `Reference.RotlLoop` | `umash_reference.py:1245-1251` | the bit loop is rotation, for any count |
| `Reference.FinalizeLoop` | `umash_reference.py:1254-1256` | the finalizer, by the two bit loops |
| `Reference.ChunkBytes` | `umash_reference.py:1012-1037` | the chunk stream: every 16 bytes, with a last chunk that reads back or repeats |
| `Reference.BlockifyChunks` | `umash_reference.py:1040-1057` | blocks of 16 chunks with their byte counts, the last one never empty |
| `Reference.BlocksAgree` | `umash_reference.py:1012-1057` | block by block, the two streams are the chunks and sizes that the C code reads in place |
| `Reference.OhMixOneBlock` | `umash_reference.py:1089-1109` | the mixed values on 128-bit integers: PH, ENH with the tag, and the checksum's PH |
| `Reference.ShuffleJoins` | `umash_reference.py:1112-1135` | the shuffler on integers acts on the lanes |
| `Reference.OhCompressOneBlock` | `umash_reference.py:1138-1149` | the two loops are the two closed-form compressors |
| `Reference.OhCompressAll` | `umash_reference.py:1152-1158` | every block under the seed and its own wrapped size |
| `Reference.OneUpdate` | `umash_reference.py:1201-1214` | the double update, and that the program's own assertion holds |
| `Reference.PolyReduceLoop` | `umash_reference.py:1193-1218` | the loop folds the lanes of the values |
| `Reference.UmashLong` | `umash_reference.py:1271-1276` | chunks, blocks, compression, polynomial and finalizer compose to the long hash |
| `Reference.ReferenceHash` | `umash_reference.py:1279-1284` | the executable specification is the hash, for all inputs |
| `Agreement.FeedHash` | `t/test_umash_incremental.py:69-100` | for every list of pieces, a digest after any prefix and one at the end are the hashes of the bytes so far |
| `Agreement.FeedFingerprint` | `t/test_umash_incremental.py:69-100` | the same for fingerprints |
| `Agreement.Compare` | `t/test_umash_incremental.py:69-84` | incremental, batch and reference hashes of the same bytes are equal, for every split and dispatch decision |
| `PolyHash.PrimeMeans` | `umash_reference.py:306` | primality in the hypotheses means that a product of naturals equals p only if one factor is 1 |
| `PolyHash.Euclid` | `umash_reference.py:300-309` | a prime that divides a product divides a factor |
| `PolyHash.RootCount` | `umash_reference.py:300-309` | a polynomial with a nonzero coefficient modulo a prime has at most as many roots as its degree |
| `PolyHash.PolyReduceIsCarterWegman` | `umash_reference.py:264-282` | for any number of blocks and initial value, the accumulator modulo 2^61 - 1 is initial f^d plus the documented sum of y_j f^(1 + d - j) |
| `PolyHash.CollidesIsRoot` | `umash_reference.py:300-309` | a multiplier collides if and only if it annihilates the difference polynomial |
| `PolyHash.SameInFieldMeans` | `umash_reference.py:300-309` | two streams are the same in the field if and only if all their low and high halves agree modulo 2^61 - 1 |
| `PolyHash.FewColliders` | `umash_reference.py:300-309` | if 2^61 - 1 is prime, at most 2n - 1 valid multipliers collide on two streams of n blocks that differ in the field; if they do not differ, all collide |
| `PolyHash.ColliderMeans` | `umash_reference.py:306-309` | a multiplier is counted if and only if it is in range and both accumulators agree modulo 2^61 - 1 |
| `PolyHash.ZerosInFront` | `umash_reference.py:300-309` | leading zero blocks do not change the fold, so that streams of different lengths compare |
| `PolyHash.FewHashColliders` | `umash_reference.py:300-309` | the same bound for the multipliers that give two long inputs the same hash, finalizer included |
| `PolyHash.HashColliderMeans` | `umash_reference.py:306-309` | a multiplier is counted if and only if it is in range and both inputs have the same hash |
| `Universality.PhSpreads` | `umash_reference.py:325-330` | PH values of two different words, as one key word varies, have each exclusive or at most once |
| `Universality.EnhSpreads` | `umash_reference.py:340-346` | ENH values of two chunks with different low words agree for at most one value of the other key word, under any tags |
| `Universality.CollidesMeans` | `umash_reference.py:340-346` | a collision is equality of the two primary, or of the two secondary, compressor values |
| `Universality.OneKeyWord` | `umash_reference.py:340-351` | two different blocks of the same chunk count: with all other key words fixed, at most one value of one word makes the primary compressor collide |
| `Universality.TagsNeverCollide` | `umash_reference.py:353-355` | the same chunks under different tags never collide, whatever the key |
| `Universality.LongerBlock` | `umash_reference.py:357-363` | different chunk counts: unless the last keyed low word is zero, at most one value of the last key word collides |
| `Universality.OneTwistingWord` | `umash_reference.py:602-605` | blocks with different checksums: at most one value of a twisting word makes the secondary compressor collide |
| `Universality.OneChecksumKey` | `umash_reference.py:607-611` | blocks of different chunk counts: with all other words fixed, their checksums match for at most one value of the two key words of the longer block's last chunk |
| `Shufflers.ShuffleXor` | `umash_reference.py:534-545` | the shufflers are linear |
| `Shufflers.MixInjective` | `umash_reference.py:534-545` | x -> x ^ s(x) is injective for every shuffler but the identity |
| `Shufflers.MixInverts` | `umash_reference.py:534-545` | it is a bijection: 64 rounds of substitution compute the one preimage |
| `Shufflers.ShufflersAgree` | `umash_reference.py:701-715` | two shufflers agree on a value if and only if the low bits of each lane are zero, with the exact number of bits |
| `Shufflers.ShufflersCoset` | `umash_reference.py:687-715` | any prescribed difference of two shuffled values is attained, if at all, on one coset of that space |
| `Shufflers.CollisionEquations` | `umash_reference.py:629-636` | with matching checksums, both compressors collide if and only if the plain and the shuffled differences of the two blocks cancel |
| `Shufflers.OnePhChunk` | `umash_reference.py:618-651` | blocks that differ in one PH chunk and the last one: both compressors collide if and only if the PH values and the ENH values coincide separately |
| `Fingerprints.LastDiffersToo` | `umash_reference.py:620-623` | with matching checksums a block cannot differ in one PH chunk alone: the last chunk differs too |
| `Fingerprints.OneCollidingPair` | `umash_reference.py:618-656` | blocks of the same chunk count and checksum that differ in one PH chunk and the last one, under any tags: with all other key words fixed, at most one pair of values of one word of each chunk makes both compressors collide |
| `Shufflers.BothEquations` | `umash_reference.py:664-675` | with matching checksums and any other differences and tags, both compressors collide if and only if the plain and the shuffled differences of the PH sums both equal the difference of the ENH values |
| `Shufflers.ChecksumKeys` | `umash_reference.py:608-611` | the difference of two blocks' checksums is the same under every key, so equal checksums are a property of the blocks |
| `Shufflers.TwoKeysCollide` | `umash_reference.py:658-715` | blocks of the same chunk count and checksum with any differences and tags: from a key under which both compressors collide, another key for two PH chunks i < j makes both collide again if and only if both chunks' differences change by the same amount and that amount is in the space where the two shufflers agree |
| `Shufflers.TwoPhChunks` | `umash_reference.py:671-683` | the case y = z = 0 of the two equations, where all other chunks and the tags are equal: both collide if and only if the two differences are equal and in that space |
| `Fingerprints.PhTopClear` | `umash_reference.py:718-723` | a PH value never has its top bit set |
| `Fingerprints.PairDetermined` | `umash_reference.py:725-728` | where the blocks differ, the changes of the two chunks' differences determine the two varied key words |
| `Fingerprints.FewCollidingPairs` | `umash_reference.py:709-728` | blocks of the same chunk count and checksum that differ in the PH chunks i and j, and anywhere else, under any tags: with all other key words fixed, both compressors collide for at most 2^(127 - 2 Depth) of the 2^128 values of one word of each chunk, never for more than 2^29, the halved null space of the passage |
| `Fingerprints.CollidingPairMeans` | `umash_reference.py:664-675` | a pair of words is counted if and only if both compressors give both blocks the same value under the key with these words |
| `Preparation.PreparedIsValid` | `umash.h:204-216` | on success both multipliers are in range and all OH words distinct; the spare words used, at most two, are no fewer than the repeats |
| `Preparation.RepeatsCost` | `umash.c:1035-1039` | every repeated OH word costs a spare word |
| `Preparation.DeduplicateDraws` | `umash.c:1003-1039` | each OH word is the first of its own value and the spare words then left that differs from all words before it, the spare words are used in order, and failure means that some word has no such candidate |
| `Preparation.PreparedDraws` | `umash.c:1003-1039` | the spare words serve the first multiplier, then the second, then the repeated words, in one order, each up to the first that will do; what failure means at each stage |
| `Preparation.ValidIsKept` | `umash.c:1014-1039` | words that need no repair are kept, multipliers in masked form, and no spare word is used |
| `Preparation.PickIsFirst` | `umash.c:1017-1028` | rejection sampling picks the first candidate that is valid once masked, and fails only if there is none |
| `Preparation.MultipliersKept` | `umash.c:1014-1033` | each multiplier is the first valid one among its own word and the spare words that the one before left; one that is valid at once is kept |
| `Preparation.PreparedIsFixed` | `umash.c:1014-1039` | prepared multipliers and words pass through the checks unchanged, whatever the spare words, and use none |
| `Preparation.SquareReduces` | `umash.c:1030-1031` | reducing the fast product afterwards gives the square in the field |
| `Preparation.ParamsBuffer.ValueIsRepeated` | `umash.c:982-992` | membership among the first words |
| `Preparation.ParamsBuffer.PrepareRow` | `umash.c:1014-1033` | terminates; the row holds the multiplier that rejection sampling picks and its square modulo 2^61 - 1, and the other row is untouched |
| `Preparation.ParamsBuffer.PrepareOh` | `umash.c:1035-1039` | terminates; the words are the deduplicated ones |
| `Preparation.ParamsBuffer.Prepare` | `umash.c:994-1042` | in memory, preparation is its specification, with the square slots as spare words; on success the struct is ready, and a ready struct is left as it is, squares included |
| `Preparation.ParamsBuffer.PrepareTwice` | `umash.h:204-216` | preparation is idempotent on the struct: after a success a second call succeeds and leaves it as the first one did |
| `HybridSort.SortedUnique` | `bench/exact_test.c:303-310` | there is one sorted permutation only |
| `HybridSort.ShrinkStops` | `bench/exact_test.c:204-226` | the search ends in a window that spans at most the input's length, and that one more step outwards would not fit |
| `HybridSort.DenseRangeIsDense` | `bench/exact_test.c:168-175` | whatever the draws, the range is empty or lies between two observed values at most the input's length apart |
| `HybridSort.DenseRangeCoversSample` | `bench/exact_test.c:228-238` | a sampled range that is kept holds more than a tenth of the sample |
| `HybridSort.SampleValues` | `bench/exact_test.c:190-199` | the sample is the minimum twice, then the observation at each draw times the length over 2^64 |
| `HybridSort.ShrinkIsGreedy` | `bench/exact_test.c:204-226` | the search is a path of windows: each too wide one drops its low end if that has the wider gap, and its high end otherwise |
| `HybridSort.DenseRangeIsGreedy` | `bench/exact_test.c:176-242` | a narrow enough range is kept as it is; otherwise the search runs on the sorted sample from its ends, and its last window is kept if and only if it spans a tenth of the sample |
| `HybridSort.DrawSample` | `bench/exact_test.c:187-199` | the minimum twice, then the observations at scaled draws, each within bounds |
| `HybridSort.NarrowWindow` | `bench/exact_test.c:202-238` | the loop computes the window and the range |
| `HybridSort.FindDenseRange` | `bench/exact_test.c:176-242` | the range, for any draws |
| `HybridSort.WrappedTest` | `bench/exact_test.c:257-258` | one unsigned comparison of a wrapped difference tests both ends of the range |
| `HybridSort.CompressCountSort` | `bench/exact_test.c:244-265` | slides the outliers left in order and counts every other value |
| `HybridSort.CountingConserves` | `bench/exact_test.c:244-265` | outliers and counts together are the input's multiset, and fill its length |
| `HybridSort.MergeCountsIntoOutliers` | `bench/exact_test.c:267-301` | in place: low outliers, counted values, high outliers, each slot written once although source and target of the move overlap |
| `HybridSort.MergeSorts` | `bench/exact_test.c:267-301` | merging sorted outliers with the counts is the sorted permutation of the input |
| `HybridSort.HybridSort` | `bench/exact_test.c:303-343` | for every array, every draws and all bounds on its values, the array ends up sorted, with its multiset |
| `ExactTest.TagIsShifted` | `bench/exact_test.c:349-366` | the wrapping tag is twice (observation plus offset) modulo 2^63, plus the class, with the formula written out |
| `ExactTest.TagAllValues` | `bench/exact_test.c:360-368` | every element after tagging, by index: class A's with the first offset, class B's with the second and the low bit set |
| `ExactTest.OffsetSort` | `bench/exact_test.c:345-373` | tags both classes in place with running bounds, then sorts all the tags |
| `ExactTest.SortedClasses` | `bench/exact_test.h:49-68` | each class, read off the sorted tags, is the sorted permutation of its shifted observations |
| `ExactTest.SortedTagsKeepClasses` | `bench/exact_test.h:49-68` | both classes are complete in the sorted tags |
| `ExactTest.NextIsA` | `bench/exact_test.c:375-393` | with ties broken for class A, the class B tags seen so far are exactly those below the next class A tag |
| `ExactTest.CountPairs` | `bench/exact_test.c:375-397` | one pass over sorted tags counts the pairs with A above B |
| `ExactTest.PairsSorted` | `bench/exact_test.c:375-400` | the number of pairs does not depend on the order of either class |
| `ExactTest.PairsCounted` | `bench/exact_test.c:375-400` | the number of pairs is the size of the set of index pairs with the first element above the second |
| `ExactTest.SortedTagsCountPairs` | `bench/exact_test.c:345-400` | that count is the number of pairs of original observations with (a + a_offset) mod 2^63 above (b + b_offset) mod 2^63 |
| `ExactTest.GtProb` | `bench/exact_test.c:375-400` | the fraction of pairs, or not a number when a class is empty |
| `ExactTest.SelectNext` | `bench/exact_test.c:478-488` | a counter hits zero exactly at its rank, and does not come back after it wraps |
| `ExactTest.SelectStep` | `bench/exact_test.c:478-488` | each tag moves the counter and the value of its own class, and leaves the other class alone |
| `ExactTest.SelectRanks` | `bench/exact_test.c:478-488` | the loop picks the element of the requested rank of each class, and stops after both |
| `ExactTest.ClampedRank` | `bench/exact_test.c:469-476` | the element at the clamped index of a sorted class: at most rank elements are below it and more than rank are not above it, and past the end it is the largest |
| `ExactTest.StatisticUnsorted` | `bench/exact_test.h:97-102` | that property does not depend on the order of the class |
| `ExactTest.QuantileDiff` | `bench/exact_test.c:455-494` | the signed difference of the two elements at the clamped ranks, each the order statistic of its class, and zero when a class is empty |
| `ExactTest.SumIsAdditive` | `bench/exact_test.c:432-440` | sums are additive over concatenation and the sum of one element is that element |
| `ExactTest.SumTrimmed` | `bench/exact_test.c:432-440` | each class's sum is over exactly the ranks that are not truncated |
| `ExactTest.TruncatedMeanDiff` | `bench/exact_test.c:409-453` | the difference of the truncated means, the same by either of the two final formulas |
| `ExactTest.ShiftedPairsCounted` | `bench/exact_test.h:42-71` | the pairs of shifted observations, as a set of index pairs of the array before tagging |
| `ExactTest.SortThenGtProb` | `bench/exact_test.h:42-71` | sorting and counting composed: the number of index pairs (i, j) with (a[i] + a_offset) mod 2^63 above (a[m + j] + b_offset) mod 2^63 in the array before the call, over m n |
| `ExactTest.SortThenQuantileDiff` | `bench/exact_test.h:97-104` | sorting and selecting composed: the difference of the order statistics of the observations (a[i] + a_offset) mod 2^63 and (a[m + j] + b_offset) mod 2^63 before the call |
| `ExactTest.SortThenTruncatedMeanDiff` | `bench/exact_test.h:83-95` | sorting and truncating composed: the difference of the truncated means of the shifted observations |

## Left out

- Kernels.MultipleBlocks: the unrolled PH sequences are written as loops over the chunk index; the
  choice of key words in registers, prefetching and compiler barriers are not modelled.
- Kernels.OhBlockPaired: 256-bit registers are pairs of 128-bit values with per-lane shifts; the
  instructions themselves are not modelled.
- Sinks.Sink.ConsumeBuf: the chunk is passed by value, which is what moving an overlapping part of
  the window to its front amounts to; the pointer into the window itself is not modelled.
- Sinks.Sink.Init: the parameters are a value, so that changing them while a sink borrows them is not
  modelled; the fields that only repeat parameters are not stored again.
- PolyHash.FewColliders: that 2^61 - 1 is prime is a hypothesis.
- Universality.OneKeyWord: the statement is about each setting of the other key words; probabilities
  as measures, and the counting over whole keys that follows, are not stated.
- Fingerprints.FewCollidingPairs: a count for each setting of the other key words; the probability over
  whole keys that the document draws from it is not stated.
- Preparation.ParamsBuffer.Prepare: on failure the contents of the struct are not specified, as in
  the source.
- HybridSort.Qsort: the C library's qsort is modelled by its result.
- HybridSort.DrawSample: the sample size, 3 plus a floating-point square root, is the number of draws
  plus two; every draw is an arbitrary word.
- HybridSort.HybridSort: the null pointer for an empty range is an array of length zero, and
  allocation does not fail.
- ExactTest.QuantileDiff: the two ranks, which the source computes in floating point from a quantile,
  are arbitrary natural numbers; the range checks on the quantile are not modelled. Division and
  difference are on real numbers, without rounding.
- ExactTest.TruncatedMeanDiff: the two truncation counts, which the source computes in floating
  point, are arbitrary up to the size of the class.
- The generator xoshiro256+, the shuffle of the permutation test, its biased flips, and the
  complement `exact_test_lte_prob`.
- Salsa20 and `umash_params_derive`, whose retry loop has no termination measure.
- Key generation in the reference, which excludes the multiplier 1; here the range of the C code
  holds.
- Inline assembly, NEON, big-endian loads, the atomics of the processor dispatch, and tracing.
- The Monte Carlo driver, the sampler service, benchmarks, and the statistics in `t/csm.py`.
