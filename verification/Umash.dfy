/**
 * UMASH as a function of the key, the seed and the input bytes. The reference program, the
 * batch code, the long-input kernels and the incremental sink are each proved against it.
 */
module Umash {
  import opened Words
  import opened ModArith
  import opened Lanes
  import opened Bytes
  import opened Oh
  import Finalizer
  import ShortHash

  const CHUNK: nat := 16
  const BLOCK: nat := 256

  /** A multiplier of the polynomial hash, below 2^61 - 1. */
  type Field = f: int | 0 <= f < 0x1FFF_FFFF_FFFF_FFFF

  // ---------------------------------------------------------------- polynomial hash

  function Square(f: Field): Field {
    f * f % P
  }

  /** The double-pumped Horner update, with the squared multiplier reduced modulo 2^61 - 1. */
  function PolyStep(f: Field, acc: nat, y: V128): (r: nat)
    ensures r < M
  {
    Step(Square(f), f, acc, y.lo, y.hi)
  }

  /** In the field, one double update is two Horner updates, whatever the reductions before. */
  lemma PolyStepField(f: Field, acc: nat, y: V128)
    ensures PolyStep(f, acc, y) % P == f * (f * (acc + y.lo) + y.hi) % P
  {
    StepNonNegative(Square(f), f, acc, y);
    ModModP(Square(f) * (acc + y.lo) + f * y.hi);
    FieldStep(f, acc + y.lo, y.hi);
  }

  lemma StepNonNegative(a: nat, b: nat, acc: nat, y: V128)
    ensures a * (acc + y.lo) + b * y.hi >= 0
  {
  }

  lemma FieldStep(f: Field, a: nat, b: nat)
    ensures (Square(f) * a + f * b) % P == f * (f * a + b) % P
  {
    ModMul(f * f, a, P);
    ModAdd(Square(f) * a, f * b, P);
    ModAdd(f * f * a, f * b, P);
    assert f * f * a + f * b == f * (f * a + b);
  }

  /** Adding multiples of 2^61 - 1 changes a value modulo 2^64 - 8, except in steps of eight. */
  lemma EightMultiples(x: int, n: int)
    ensures (x + P * n) % M == x % M <==> n % 8 == 0
  {
    var q, r := n / 8, n % 8;
    assert x + P * n == x + P * r + M * q;
    ModAddMultiple(x + P * r, q, M);
    ModAdd(x + P * r, -x, M);
    ModAdd(x, -x, M);
  }

  /** Modulo 2^64 - 8 itself, the update is the polynomial's exactly under this condition. */
  lemma PolyStepExactly(f: Field, acc: nat, y: V128)
    ensures PolyStep(f, acc, y) == f * (f * (acc + y.lo) + y.hi) % M
       <==> f * f / P * (acc + y.lo) % 8 == 0
  {
    var k, a := f * f / P, acc + y.lo;
    var x := Square(f) * a + f * y.hi;
    assert f * f == P * k + Square(f);
    ExpandStep(f, k, Square(f), a, y.hi);
    EightMultiples(x, k * a);
  }

  lemma ExpandStep(f: int, k: int, s: int, a: int, h: int)
    requires f * f == P * k + s
    ensures f * (f * a + h) == s * a + f * h + P * (k * a)
  {
    assert f * (f * a) == f * f * a;
  }

  /** The update does not evaluate the polynomial modulo 2^64 - 8. */
  lemma NotThePolynomial()
    ensures var f := 0x1000_0000_0000_0001;
            PolyStep(f, 0, V128(1, 0)) != f * (f * (0 + 1) + 0) % M
  {
    var f: Field := 0x1000_0000_0000_0001;
    PolyStepExactly(f, 0, V128(1, 0));
  }

  function PolyReduce(f: Field, ys: seq<V128>, initial: nat): (r: nat)
    ensures ys != [] || initial < M ==> r < M
  {
    if ys == [] then initial
    else var n := |ys| - 1; PolyStep(f, PolyReduce(f, ys[..n], initial), ys[n])
  }

  lemma PolySnoc(f: Field, ys: seq<V128>, y: V128, initial: nat)
    ensures PolyReduce(f, ys + [y], initial) == PolyStep(f, PolyReduce(f, ys, initial), y)
  {
    hide PolyStep;
    assert (ys + [y])[..|ys|] == ys;
  }

  // ---------------------------------------------------------------- chunks and blocks

  /** The first `m` chunks from offset `off`. */
  function ChunksAt(data: bytes, off: nat, m: nat): (cs: seq<V128>)
    requires off + CHUNK * m <= |data|
    ensures |cs| == m
  {
    if m == 0 then []
    else ChunksAt(data, off, m - 1) + [LoadChunk(data[off + 16 * (m - 1)..off + 16 * m])]
  }

  /** The last 16 bytes before `end`; inputs of 8 to 15 bytes repeat some of their bytes. */
  function TailChunk(data: bytes, end: nat): V128
    requires 8 <= end <= |data|
  {
    if end >= 16 then LoadChunk(data[end - 16..end])
    else V128(LoadWord(data[..8]), LoadWord(data[end - 8..end]))
  }

  /** The chunks of a block of `n` bytes at `off`: the last one reads back if it would be short. */
  function BlockChunks(data: bytes, off: nat, n: nat): (cs: Chunks)
    requires 1 <= n <= BLOCK && 8 <= off + n <= |data|
    ensures |cs| == (n - 1) / 16 + 1
  {
    ChunksAt(data, off, (n - 1) / 16) + [TailChunk(data, off + n)]
  }

  /** The size tag wraps, so that a full block has the seed itself for a tag. */
  function Tag(seed: u64, n: nat): u64 {
    Xor64(seed, n % BLOCK)
  }

  function BlockOh(key: OhKey, seed: u64, data: bytes, off: nat, n: nat, secondary: bool): V128
    requires 1 <= n <= BLOCK && 8 <= off + n <= |data|
  {
    OhCompress(key, Tag(seed, n), BlockChunks(data, off, n), secondary)
  }

  /** The OH values of `j` full blocks from `off`. */
  function FullBlocks(key: OhKey, seed: u64, data: bytes, off: nat, j: nat, secondary: bool)
      : (ys: seq<V128>)
    requires off + BLOCK * j <= |data|
    ensures |ys| == j
  {
    if j == 0 then []
    else FullBlocks(key, seed, data, off, j - 1, secondary)
         + [BlockOh(key, seed, data, off + BLOCK * (j - 1), BLOCK, secondary)]
  }

  /** All the blocks of an input; only the last one may be partial, and it is never empty. */
  function OhOutputs(key: OhKey, seed: u64, data: bytes, secondary: bool): (ys: seq<V128>)
    requires |data| > 8
    ensures |ys| == (|data| - 1) / BLOCK + 1
  {
    var q := (|data| - 1) / BLOCK;
    FullBlocks(key, seed, data, 0, q, secondary)
    + [BlockOh(key, seed, data, BLOCK * q, |data| - BLOCK * q, secondary)]
  }

  // ---------------------------------------------------------------- the hash

  function LongHash(f: Field, key: OhKey, seed: u64, data: bytes, secondary: bool): u64
    requires |data| > 8
  {
    Finalizer.Finalize(PolyReduce(f, OhOutputs(key, seed, data, secondary), 0))
  }

  function Hash(f: Field, key: OhKey, seed: u64, data: bytes, secondary: bool): u64 {
    if |data| <= 8 then
      ShortHash.UmashShort(if secondary then key[ShortHash.OH_SHORT_HASH_SHIFT..] else key, seed, data)
    else LongHash(f, key, seed, data, secondary)
  }

  lemma {:induction false} ChunkAt(data: bytes, off: nat, m: nat, k: nat)
    requires off + CHUNK * m <= |data| && k < m
    ensures ChunksAt(data, off, m)[k] == LoadChunk(data[off + 16 * k..off + 16 * k + 16])
    decreases m
  {
    hide LoadChunk;
    if k < m - 1 {
      ChunkAt(data, off, m - 1, k);
    }
  }

  lemma TailBytes(data: bytes, end: nat, b: nat)
    requires 8 <= end <= |data| && b < 16
    ensures ByteOf(TailChunk(data, end), b) == if end >= 16 || b >= 8 then data[end - 16 + b] else data[b]
  {
    hide LoadWord, Pow2;
    if end >= 16 {
      LoadChunkBytes(data[end - 16..end], b);
    } else if b >= 8 {
      LoadWordBytes(data[end - 8..end], b - 8);
    } else {
      LoadWordBytes(data[..8], b);
    }
  }

  /** The bytes of every chunk of a block; the last one reads the 16 bytes before the block's end. */
  lemma BlockBytes(data: bytes, off: nat, n: nat, k: nat, b: nat)
    requires 1 <= n <= BLOCK && 8 <= off + n <= |data| && k <= (n - 1) / 16 && b < 16
    ensures k < |BlockChunks(data, off, n)|
    ensures ByteOf(BlockChunks(data, off, n)[k], b)
         == if k < (n - 1) / 16 then data[off + 16 * k + b]
            else if off + n >= 16 || b >= 8 then data[off + n - 16 + b]
            else data[b]
  {
    hide LoadChunk, ChunksAt, TailChunk, ByteOf;
    if k < (n - 1) / 16 {
      ChunkAt(data, off, (n - 1) / 16, k);
      LoadChunkBytes(data[off + 16 * k..off + 16 * k + 16], b);
    } else {
      TailBytes(data, off + n, b);
    }
  }

  /** A short input's hash is the one word that decodes to its packed bytes. */
  lemma ShortHashDecodes(f: Field, key: OhKey, seed: u64, data: bytes, secondary: bool, h: u64)
    requires |data| <= 8
    ensures h == Hash(f, key, seed, data, secondary)
       <==> ShortHash.Unshort(h, (seed + key[|data| + if secondary then 4 else 0]) % W)
            == ShortHash.VecToU64(data)
  {
    hide ShortHash.Unshort, ShortHash.VecToU64, ShortHash.UmashShort;
    ShortHash.ShortDecodes(if secondary then key[4..] else key, seed, data, h);
  }

  // ---------------------------------------------------------------- growing inputs

  lemma {:induction false} ChunksLocal(data: bytes, more: bytes, off: nat, m: nat)
    requires off + CHUNK * m <= |data|
    ensures ChunksAt(data + more, off, m) == ChunksAt(data, off, m)
    decreases m
  {
    hide LoadChunk;
    if m > 0 {
      ChunksLocal(data, more, off, m - 1);
      assert (data + more)[off + 16 * (m - 1)..off + 16 * m] == data[off + 16 * (m - 1)..off + 16 * m];
    }
  }

  lemma BlockLocal(data: bytes, more: bytes, off: nat, n: nat)
    requires 1 <= n <= BLOCK && 8 <= off + n <= |data|
    ensures BlockChunks(data + more, off, n) == BlockChunks(data, off, n)
  {
    hide LoadChunk, LoadWord, ChunksAt;
    var end := off + n;
    ChunksLocal(data, more, off, (n - 1) / 16);
    assert (data + more)[..8] == data[..8];
    if end >= 16 {
      assert (data + more)[end - 16..end] == data[end - 16..end];
    }
    assert (data + more)[end - 8..end] == data[end - 8..end];
  }

  /** Blocks that are complete do not depend on the bytes that follow. */
  lemma {:induction false} FullBlocksLocal(key: OhKey, seed: u64, data: bytes, more: bytes,
                                           off: nat, j: nat, secondary: bool)
    requires off + BLOCK * j <= |data|
    ensures FullBlocks(key, seed, data + more, off, j, secondary)
         == FullBlocks(key, seed, data, off, j, secondary)
    decreases j
  {
    hide BlockChunks, OhCompress, Tag;
    if j > 0 {
      FullBlocksLocal(key, seed, data, more, off, j - 1, secondary);
      BlockLocal(data, more, off + BLOCK * (j - 1), BLOCK);
    }
  }

  // ---------------------------------------------------------------- inputs behind a prefix

  lemma {:induction false} ChunksShift(prefix: bytes, data: bytes, off: nat, m: nat)
    requires off + CHUNK * m <= |data|
    ensures ChunksAt(prefix + data, |prefix| + off, m) == ChunksAt(data, off, m)
    decreases m
  {
    hide LoadChunk;
    if m > 0 {
      ChunksShift(prefix, data, off, m - 1);
      var a, b := off + 16 * (m - 1), off + 16 * m;
      assert (prefix + data)[|prefix| + a..|prefix| + b] == data[a..b];
    }
  }

  /** A block with 16 bytes behind its end reads the same bytes wherever it lies. */
  lemma BlockShift(prefix: bytes, data: bytes, off: nat, n: nat)
    requires 1 <= n <= BLOCK && 16 <= off + n <= |data|
    ensures BlockChunks(prefix + data, |prefix| + off, n) == BlockChunks(data, off, n)
  {
    hide LoadChunk, ChunksAt;
    var end := off + n;
    ChunksShift(prefix, data, off, (n - 1) / 16);
    assert (prefix + data)[|prefix| + end - 16..|prefix| + end] == data[end - 16..end];
  }

  lemma {:induction false} FullBlocksShift(key: OhKey, seed: u64, prefix: bytes, data: bytes,
                                           off: nat, j: nat, secondary: bool)
    requires off + BLOCK * j <= |data|
    ensures FullBlocks(key, seed, prefix + data, |prefix| + off, j, secondary)
         == FullBlocks(key, seed, data, off, j, secondary)
    decreases j
  {
    hide BlockChunks, OhCompress, Tag;
    if j > 0 {
      FullBlocksShift(key, seed, prefix, data, off, j - 1, secondary);
      BlockShift(prefix, data, off + BLOCK * (j - 1), BLOCK);
    }
  }

  /** A run of full blocks continues another one. */
  lemma {:induction false} FullBlocksConcat(key: OhKey, seed: u64, data: bytes, off: nat,
                                            i: nat, j: nat, secondary: bool)
    requires off + BLOCK * (i + j) <= |data|
    ensures FullBlocks(key, seed, data, off, i + j, secondary)
         == FullBlocks(key, seed, data, off, i, secondary)
            + FullBlocks(key, seed, data, off + BLOCK * i, j, secondary)
    decreases j
  {
    hide BlockOh;
    if j > 0 {
      FullBlocksConcat(key, seed, data, off, i, j - 1, secondary);
      assert off + BLOCK * (i + j - 1) == off + BLOCK * i + BLOCK * (j - 1);
    }
  }

  /** Folding a prefix and then the rest is folding the whole stream. */
  lemma {:induction false} PolyConcat(f: Field, xs: seq<V128>, ys: seq<V128>, initial: nat)
    ensures PolyReduce(f, xs + ys, initial) == PolyReduce(f, ys, PolyReduce(f, xs, initial))
    decreases |ys|
  {
    hide PolyStep;
    if ys == [] {
      assert xs + ys == xs;
    } else {
      var n := |ys| - 1;
      PolyConcat(f, xs, ys[..n], initial);
      assert (xs + ys)[..|xs| + n] == xs + ys[..n];
    }
  }

  /** An input made of whole blocks is just its full blocks. */
  lemma WholeBlocks(key: OhKey, seed: u64, data: bytes, secondary: bool)
    requires |data| >= BLOCK && |data| % BLOCK == 0
    ensures OhOutputs(key, seed, data, secondary)
         == FullBlocks(key, seed, data, 0, |data| / BLOCK, secondary)
  {
    hide BlockOh;
    assert (|data| - 1) / BLOCK == |data| / BLOCK - 1;
  }

  /** The chunks of a full block, without the last one's special role. */
  lemma FullBlockChunks(data: bytes, off: nat)
    requires off + BLOCK <= |data|
    ensures BlockChunks(data, off, BLOCK) == ChunksAt(data, off, 16)
  {
    hide LoadChunk;
  }

  // ---------------------------------------------------------------- one block at a time

  lemma ChunksNext(data: bytes, off: nat, m: nat)
    requires off + 16 * (m + 1) <= |data|
    ensures ChunksAt(data, off, m + 1)
         == ChunksAt(data, off, m) + [LoadChunk(data[off + 16 * m..off + 16 * (m + 1)])]
  {
  }

  /** Both compressors from the running sums over all the chunks but the last. */
  lemma BlockOhFolds(key: OhKey, seed: u64, data: bytes, off: nat, n: nat)
    requires 1 <= n <= BLOCK && 8 <= off + n <= |data|
    ensures var m := (n - 1) / 16;
            var cs := ChunksAt(data, off, m);
            var enh := Enh(key, m, TailChunk(data, off + n), Tag(seed, n));
            && BlockOh(key, seed, data, off, n, false) == VXor(PhFold(key, cs), enh)
            && BlockOh(key, seed, data, off, n, true)
               == VXor(VXor(VShift(VXor(DelayedFold(key, cs), PhFold(key, cs))),
                            LrcPh(key, BlockChunks(data, off, n))),
                       enh)
  {
    hide ChunksAt, TailChunk, Tag, PhFold, DelayedFold, LrcPh, Enh, VXor, VShift,
         OhPrimary, OhSecondary;
    var m := (n - 1) / 16;
    CompressSnoc(key, Tag(seed, n), ChunksAt(data, off, m), TailChunk(data, off + n));
  }

  lemma FullTag(seed: u64)
    ensures Tag(seed, BLOCK) == seed
  {
    XorZero(seed);
  }

  // ---------------------------------------------------------------- machine parameters

  /** A precomputed square and the multiplier itself. */
  datatype Multipliers = Multipliers(sq: u64, f: u64) {
    predicate Valid() {
      f < P && sq == f * f % P
    }
  }

  /** The parameters of both hashes, which share their OH words. */
  datatype Params = Params(poly0: Multipliers, poly1: Multipliers, oh: OhKey) {
    predicate Valid() {
      poly0.Valid() && poly1.Valid()
    }
  }

  /** The machine's Horner step is the specified one. */
  lemma HornerIsPolyStep(m: Multipliers, acc: u64, y: V128)
    requires m.Valid() && acc < M
    ensures HornerDoubleUpdate(acc, m.sq, m.f, y.lo, y.hi) == PolyStep(m.f, acc, y)
  {
    hide HornerDoubleUpdate, Step;
    HornerDoubleUpdateExact(acc, m.sq, m.f, y.lo, y.hi);
  }

  /** A lazily reduced accumulator stands for `acc` modulo 2^64 - 8. */
  predicate Represents(a: SplitAccumulator, acc: nat) {
    a.Valid() && a.Value() % M == acc % M
  }

  lemma SplitUpdateIsStep(m: Multipliers, a: SplitAccumulator, y: V128)
    requires m.Valid() && a.Valid()
    ensures var r := a.Update(m.sq, m.f, y.lo, y.hi);
            r.Valid() && r.Eval() == PolyStep(m.f, a.Value(), y)
  {
    hide SplitAccumulator.Update, SplitAccumulator.Eval, Step;
    SplitUpdateExact(a, m.sq, m.f, y.lo, y.hi);
  }

  /** The lazy step is the specified one up to the reduction that it postpones. */
  lemma SplitIsPolyStep(m: Multipliers, a: SplitAccumulator, acc: nat, y: V128)
    requires m.Valid() && Represents(a, acc)
    ensures Represents(a.Update(m.sq, m.f, y.lo, y.hi), PolyStep(m.f, acc, y))
  {
    hide SplitAccumulator.Update, SplitAccumulator.Eval, SplitAccumulator.Value, Step, Square;
    SplitUpdateIsStep(m, a, y);
    SplitEval(a.Update(m.sq, m.f, y.lo, y.hi));
    StepCongruent(Square(m.f), m.f, a.Value(), acc, y.lo, y.hi);
  }

  lemma SplitFinish(a: SplitAccumulator, acc: nat)
    requires Represents(a, acc) && acc < M
    ensures a.Eval() == acc
  {
    hide SplitAccumulator.Eval;
    SplitEval(a);
  }
}
