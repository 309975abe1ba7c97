/** The batch entry points and their length-specialised paths. */
module Batch {
  import opened Words
  import opened ModArith
  import opened Lanes
  import opened Bytes
  import opened Oh
  import opened Umash
  import opened ShortHash
  import opened Kernels
  import opened Finalizer

  // ---------------------------------------------------------------- block compressors

  /** Compresses one block of up to 256 bytes at `block`, reading behind to fill its last chunk. */
  method OhVarblock(params: OhKey, tag: u64, data: bytes, block: nat, nBytes: nat)
    returns (ret: V128)
    requires 1 <= nBytes <= BLOCK && 16 <= block + nBytes <= |data|
    ensures ret == OhCompress(params, tag, BlockChunks(data, block, nBytes), false)
  {
    hide Ph, Enh, VXor, LoadChunk, ClmulCross, Clmul, KeyChunk, PhFold, ChunksAt, Lrc, ShiftFold,
         DelayedFold, Whiten, OhPrimary, OhSecondary;
    var remaining := 1 + (nBytes - 1) % 16;
    var endFullPairs := (nBytes - remaining) / 8;
    var lastPtr := block + nBytes - 16;
    var ptr := block;
    var acc := ZERO;
    ghost var cs: Chunks := ChunksAt(data, block, 0);
    FoldsEmpty(params, data, block);
    var i := 0;
    while i < endFullPairs
      invariant i <= endFullPairs && i % 2 == 0 && ptr == block + 8 * i
      invariant cs == ChunksAt(data, block, i / 2) && acc == PhFold(params, cs)
    {
      var x := LoadChunk(data[ptr..ptr + 16]);
      ChunksNext(data, block, i / 2);
      FoldSnoc(params, cs, x);
      PhIsCross(params, i / 2, x);
      cs := cs + [x];
      ptr := ptr + 16;
      x := VXor(x, KeyChunk(params, i / 2));
      acc := VXor(acc, ClmulCross(x));
      i := i + 2;
    }
    var last := LoadChunk(data[lastPtr..lastPtr + 16]);
    var enhLo, enhHi := EnhChunk(params, i / 2, tag, last);
    ret := VXor(acc, V128(enhLo, Xor64(enhHi, enhLo)));
    CompressSnoc(params, tag, cs, last);
  }

  lemma FoldsEmpty(key: OhKey, data: bytes, off: nat)
    requires off <= |data|
    ensures ChunksAt(data, off, 0) == []
    ensures PhFold(key, []) == ShiftFold(key, []) == DelayedFold(key, []) == ZERO
    ensures Lrc(key, []) == V128(key[32], key[33])
  {
  }

  /** The primary and the secondary compressor in one pass. */
  method OhVarblockFprint(params: OhKey, tag: u64, data: bytes, block: nat, nBytes: nat)
    returns (dst0: V128, dst1: V128)
    requires 1 <= nBytes <= BLOCK && 16 <= block + nBytes <= |data|
    ensures dst0 == OhCompress(params, tag, BlockChunks(data, block, nBytes), false)
    ensures dst1 == OhCompress(params, tag, BlockChunks(data, block, nBytes), true)
  {
    hide Ph, Enh, VXor, LoadChunk, ClmulCross, Clmul, KeyChunk, PhFold, ChunksAt, Lrc, ShiftFold,
         DelayedFold, Whiten, VShift, OhPrimary, OhSecondary;
    var remaining := 1 + (nBytes - 1) % 16;
    var endFullPairs := (nBytes - remaining) / 8;
    var lastPtr := block + nBytes - 16;
    var ptr := block;
    var acc, accShifted := ZERO, ZERO;
    var lrc := KeyChunk(params, 16);
    ghost var cs: Chunks := ChunksAt(data, block, 0);
    FoldsEmpty(params, data, block);
    LrcStart(params);
    var i := 0;
    while i < endFullPairs
      invariant i <= endFullPairs && i % 2 == 0 && ptr == block + 8 * i
      invariant cs == ChunksAt(data, block, i / 2)
      invariant acc == PhFold(params, cs) && lrc == Lrc(params, cs)
      invariant i < endFullPairs ==> accShifted == ShiftFold(params, cs)
      invariant i == endFullPairs ==> accShifted == DelayedFold(params, cs)
    {
      var x := LoadChunk(data[ptr..ptr + 16]);
      ChunksNext(data, block, i / 2);
      FoldSnoc(params, cs, x);
      PhIsCross(params, i / 2, x);
      KeyChunkWhitens(params, i / 2, x);
      cs := cs + [x];
      ptr := ptr + 16;
      x := VXor(x, KeyChunk(params, i / 2));
      lrc := VXor(lrc, x);
      x := ClmulCross(x);
      acc := VXor(acc, x);
      // The last chunk leaves the loop before it is shifted in.
      if i + 2 < endFullPairs {
        accShifted := VXor(accShifted, x);
        accShifted := VShift(accShifted);
      }
      i := i + 2;
    }
    var last := LoadChunk(data[lastPtr..lastPtr + 16]);
    KeyChunkWhitens(params, i / 2, last);
    FoldSnoc(params, cs, last);
    lrc := VXor(lrc, VXor(last, KeyChunk(params, i / 2)));
    accShifted := VXor(accShifted, acc);
    accShifted := VShift(accShifted);
    ClmulCrossIs(lrc);
    accShifted := VXor(accShifted, ClmulCross(lrc));
    var enhLo, enhHi := EnhChunk(params, i / 2, tag, last);
    enhHi := Xor64(enhHi, enhLo);
    dst0 := VXor(acc, V128(enhLo, enhHi));
    dst1 := VXor(accShifted, V128(enhLo, enhHi));
    CompressSnoc(params, tag, cs, last);
  }

  lemma LrcStart(key: OhKey)
    ensures KeyChunk(key, 16) == V128(key[32], key[33])
  {
  }

  // ---------------------------------------------------------------- 9 to 16 bytes

  function UmashMedium(mul: Multipliers, oh: OhKey, seed: u64, data: bytes): u64
    requires 8 < |data| <= 16
  {
    var n := |data|;
    var x := (LoadWord(data[..8]) + oh[0]) % W;
    var y := (LoadWord(data[n - 8..]) + oh[1]) % W;
    var (hi, enhLo) := Mul128(x, y);
    var enhHi := Xor64((hi + Xor64(seed, n)) % W, enhLo);
    Finalize(HornerDoubleUpdate(0, mul.sq, mul.f, enhLo, enhHi))
  }

  function UmashFpMedium(params: Params, seed: u64, data: bytes): (u64, u64)
    requires 8 < |data| <= 16
  {
    var n := |data|;
    var oh := params.oh;
    var x, y := LoadWord(data[..8]), LoadWord(data[n - 8..]);
    var lrc0 := Xor64(oh[32], Xor64(x, oh[0]));
    var lrc1 := Xor64(oh[33], Xor64(y, oh[1]));
    var mixedLrc := Clmul(lrc0, lrc1);
    var (hi, enhLo) := Mul128((oh[0] + x) % W, (oh[1] + y) % W);
    var enhHi := Xor64((hi + Xor64(seed, n)) % W, enhLo);
    (Finalize(HornerDoubleUpdate(0, params.poly0.sq, params.poly0.f, enhLo, enhHi)),
     Finalize(HornerDoubleUpdate(0, params.poly1.sq, params.poly1.f,
                                 Xor64(enhLo, mixedLrc.lo), Xor64(enhHi, mixedLrc.hi))))
  }

  /** A single chunk has no PH part. */
  lemma SingleChunk(key: OhKey, seed: u64, data: bytes)
    requires 8 < |data| <= 16
    ensures var c := V128(LoadWord(data[..8]), LoadWord(data[|data| - 8..]));
            var enh := Enh(key, 0, c, Xor64(seed, |data|));
            && OhOutputs(key, seed, data, false) == [enh]
            && OhOutputs(key, seed, data, true)
               == [VXor(Clmul(Xor64(key[32], Xor64(c.lo, key[0])), Xor64(key[33], Xor64(c.hi, key[1]))),
                        enh)]
  {
    hide Enh, LoadWord, Clmul, Xor;
    var n := |data|;
    var c := V128(LoadWord(data[..8]), LoadWord(data[n - 8..]));
    var enh := Enh(key, 0, c, Xor64(seed, n));
    assert TailChunk(data, n) == c by {
      assert data[n - 8..n] == data[n - 8..];
      if n == 16 {
        assert data[0..16][..8] == data[..8] && data[0..16][8..] == data[8..];
      }
    }
    assert BlockChunks(data, 0, n) == [c];
    SingleCompress(key, Xor64(seed, n), c);
    assert Tag(seed, n) == Xor64(seed, n);
  }

  lemma SingleCompress(key: OhKey, tag: u64, c: V128)
    ensures OhPrimary(key, tag, [c]) == Enh(key, 0, c, tag)
    ensures OhSecondary(key, tag, [c])
         == VXor(Clmul(Xor64(key[32], Xor64(c.lo, key[0])), Xor64(key[33], Xor64(c.hi, key[1]))),
                 Enh(key, 0, c, tag))
  {
    hide Enh, Clmul, VXor;
    FoldSnoc(key, [], c);
    assert [c] == [] + [c];
    VXorZero(Enh(key, 0, c, tag));
    VXorZero(LrcPh(key, [c]));
    LrcSingle(key, c);
  }

  lemma LrcSingle(key: OhKey, c: V128)
    ensures LrcPh(key, [c])
         == Clmul(Xor64(key[32], Xor64(c.lo, key[0])), Xor64(key[33], Xor64(c.hi, key[1])))
  {
    hide Clmul, Whiten, VXor, PhFold, ShiftFold, DelayedFold, Lrc;
    var none: Chunks := [];
    FoldSnoc(key, none, c);
    assert none + [c] == [c];
    LrcNone(key);
    WhitenFirst(key, c);
    VXorLanes(V128(key[32], key[33]), Whiten(key, 0, c));
  }

  lemma LrcNone(key: OhKey)
    ensures Lrc(key, []) == V128(key[32], key[33])
  {
  }

  lemma VXorLanes(x: V128, y: V128)
    ensures VXor(x, y) == V128(Xor64(x.lo, y.lo), Xor64(x.hi, y.hi))
  {
  }

  lemma WhitenFirst(key: OhKey, c: V128)
    ensures Whiten(key, 0, c) == V128(Xor64(c.lo, key[0]), Xor64(c.hi, key[1]))
  {
    hide Xor;
  }

  /** The medium path is the long hash of a single redundant chunk. */
  lemma MediumIsLong(mul: Multipliers, oh: OhKey, seed: u64, data: bytes)
    requires mul.Valid() && 8 < |data| <= 16
    ensures UmashMedium(mul, oh, seed, data) == LongHash(mul.f, oh, seed, data, false)
  {
    hide LoadWord, Finalize, HornerDoubleUpdate, OhOutputs, Xor, PolyStep;
    var c := V128(LoadWord(data[..8]), LoadWord(data[|data| - 8..]));
    var enh := Enh(oh, 0, c, Xor64(seed, |data|));
    SingleChunk(oh, seed, data);
    SingleOutput(mul, enh);
  }

  lemma SingleOutput(mul: Multipliers, y: V128)
    requires mul.Valid()
    ensures PolyReduce(mul.f, [y], 0) == HornerDoubleUpdate(0, mul.sq, mul.f, y.lo, y.hi)
  {
    hide HornerDoubleUpdate, PolyStep;
    var none: seq<V128> := [];
    PolySnoc(mul.f, none, y, 0);
    assert none + [y] == [y];
    HornerIsPolyStep(mul, 0, y);
  }

  lemma FpMediumIsLong(params: Params, seed: u64, data: bytes)
    requires params.Valid() && 8 < |data| <= 16
    ensures UmashFpMedium(params, seed, data)
         == (LongHash(params.poly0.f, params.oh, seed, data, false),
             LongHash(params.poly1.f, params.oh, seed, data, true))
  {
    hide LoadWord, Finalize, HornerDoubleUpdate, OhOutputs, Xor, PolyStep, Clmul;
    var oh := params.oh;
    var c := V128(LoadWord(data[..8]), LoadWord(data[|data| - 8..]));
    var enh := Enh(oh, 0, c, Xor64(seed, |data|));
    var mixed := Clmul(Xor64(oh[32], Xor64(c.lo, oh[0])), Xor64(oh[33], Xor64(c.hi, oh[1])));
    SingleChunk(oh, seed, data);
    SingleOutput(params.poly0, enh);
    SingleOutput(params.poly1, VXor(mixed, enh));
    VXorComm(mixed, enh);
  }

  // ---------------------------------------------------------------- more than 16 bytes

  const MULTIPLE_BLOCKS_THRESHOLD: nat := 1024

  /** The last, possibly partial block on top of the full ones. */
  lemma LastBlock(m: Multipliers, key: OhKey, seed: u64, data: bytes, q: nat, secondary: bool,
                  acc: u64, oh: V128)
    requires m.Valid() && |data| > 8 && BLOCK * q < |data| <= BLOCK * (q + 1)
    requires acc == FoldBlocks(m.f, key, seed, data, 0, q, secondary, 0)
    requires var n := |data| - BLOCK * q;
             oh == OhCompress(key, Xor64(seed, n % 256), BlockChunks(data, BLOCK * q, n), secondary)
    ensures Finalize(HornerDoubleUpdate(acc, m.sq, m.f, oh.lo, oh.hi))
         == LongHash(m.f, key, seed, data, secondary)
  {
    hide PolyStep, PolyReduce, HornerDoubleUpdate, BlockChunks, OhCompress, Finalize, Xor64,
         FullBlocks;
    assert (|data| - 1) / BLOCK == q;
    PolySnoc(m.f, FullBlocks(key, seed, data, 0, q, secondary), oh, 0);
    FoldReduced(m.f, key, seed, data, q, secondary);
    HornerIsPolyStep(m, acc, oh);
  }

  /** One full block more, by the eagerly reduced update. */
  lemma NextBlock(m: Multipliers, key: OhKey, seed: u64, data: bytes, q: nat, secondary: bool,
                  acc: u64, oh: V128)
    requires m.Valid() && BLOCK * (q + 1) <= |data|
    requires acc == FoldBlocks(m.f, key, seed, data, 0, q, secondary, 0)
    requires oh == OhCompress(key, seed, BlockChunks(data, BLOCK * q, BLOCK), secondary)
    ensures acc < M
    ensures HornerDoubleUpdate(acc, m.sq, m.f, oh.lo, oh.hi)
         == FoldBlocks(m.f, key, seed, data, 0, q + 1, secondary, 0)
  {
    hide PolyStep, HornerDoubleUpdate, BlockChunks, OhCompress, Tag;
    FullTag(seed);
    PolySnoc(m.f, FullBlocks(key, seed, data, 0, q, secondary), oh, 0);
    HornerIsPolyStep(m, acc, oh);
  }

  lemma FoldReduced(f: Field, key: OhKey, seed: u64, data: bytes, q: nat, secondary: bool)
    requires BLOCK * q <= |data|
    ensures FoldBlocks(f, key, seed, data, 0, q, secondary, 0) < M
  {
    hide BlockOh, PolyStep;
  }

  method UmashLong(wide: bool, mul: Multipliers, oh: OhKey, seed: u64, data: bytes)
    returns (r: u64)
    requires mul.Valid() && |data| >= 16
    ensures r == LongHash(mul.f, oh, seed, data, false)
  {
    hide FoldBlocks, BlockChunks, OhCompress, HornerDoubleUpdate, PolyStep, PolyReduce, OhOutputs,
         Finalize, Tag, FullBlocks, Xor64, LongHash;
    var acc: u64 := 0;
    var ptr, nBytes := 0, |data|;
    FoldStartsAtZero(mul.f, oh, seed, data, false);
    if nBytes >= MULTIPLE_BLOCKS_THRESHOLD {
      var nBlock := nBytes / BLOCK;
      nBytes := nBytes % BLOCK;
      acc := MultipleBlocks(wide, acc, mul, oh, seed, data, 0, nBlock);
      ptr := nBlock * BLOCK;
      if nBytes == 0 {
        WholeFold(mul.f, oh, seed, data, false);
        return Finalize(acc);
      }
    } else {
      while nBytes > BLOCK
        invariant ptr % BLOCK == 0 && ptr + nBytes == |data| && nBytes > 0
        invariant acc == FoldBlocks(mul.f, oh, seed, data, 0, ptr / BLOCK, false, 0)
      {
        var compressed := OhVarblock(oh, seed, data, ptr, BLOCK);
        NextBlock(mul, oh, seed, data, ptr / BLOCK, false, acc, compressed);
        ptr := ptr + BLOCK;
        nBytes := nBytes - BLOCK;
        acc := HornerDoubleUpdate(acc, mul.sq, mul.f, compressed.lo, compressed.hi);
      }
    }
    var compressed := OhVarblock(oh, Xor64(seed, nBytes % 256), data, ptr, nBytes);
    LastBlock(mul, oh, seed, data, ptr / BLOCK, false, acc, compressed);
    acc := HornerDoubleUpdate(acc, mul.sq, mul.f, compressed.lo, compressed.hi);
    r := Finalize(acc);
  }

  lemma FoldStartsAtZero(f: Field, key: OhKey, seed: u64, data: bytes, secondary: bool)
    ensures FoldBlocks(f, key, seed, data, 0, 0, secondary, 0) == 0
  {
  }

  /** Whole blocks only: the kernel has already done everything. */
  lemma WholeFold(f: Field, key: OhKey, seed: u64, data: bytes, secondary: bool)
    requires |data| >= BLOCK && |data| % BLOCK == 0
    ensures FoldBlocks(f, key, seed, data, 0, |data| / BLOCK, secondary, 0) < M
    ensures Finalize(FoldBlocks(f, key, seed, data, 0, |data| / BLOCK, secondary, 0))
         == LongHash(f, key, seed, data, secondary)
  {
    hide PolyReduce, OhOutputs, FullBlocks, Finalize;
    WholeBlocks(key, seed, data, secondary);
  }

  method UmashFpLong(wide: bool, params: Params, seed: u64, data: bytes)
    returns (r: (u64, u64))
    requires params.Valid() && |data| >= 16
    ensures r.0 == LongHash(params.poly0.f, params.oh, seed, data, false)
    ensures r.1 == LongHash(params.poly1.f, params.oh, seed, data, true)
  {
    hide FoldBlocks, BlockChunks, OhCompress, HornerDoubleUpdate, PolyStep, PolyReduce, OhOutputs,
         Finalize, Tag, FullBlocks, Xor64, LongHash;
    var oh, m0, m1 := params.oh, params.poly0, params.poly1;
    var acc0: u64, acc1: u64 := 0, 0;
    var ptr, nBytes := 0, |data|;
    FoldStartsAtZero(m0.f, oh, seed, data, false);
    FoldStartsAtZero(m1.f, oh, seed, data, true);
    if nBytes >= MULTIPLE_BLOCKS_THRESHOLD {
      var nBlock := nBytes / BLOCK;
      nBytes := nBytes % BLOCK;
      var poly := FprintMultipleBlocks(wide, (0, 0), m0, m1, oh, seed, data, 0, nBlock);
      acc0, acc1 := poly.0, poly.1;
      ptr := nBlock * BLOCK;
      if nBytes == 0 {
        WholeFold(m0.f, oh, seed, data, false);
        WholeFold(m1.f, oh, seed, data, true);
        return (Finalize(acc0), Finalize(acc1));
      }
    } else {
      while nBytes > BLOCK
        invariant ptr % BLOCK == 0 && ptr + nBytes == |data| && nBytes > 0
        invariant acc0 == FoldBlocks(m0.f, oh, seed, data, 0, ptr / BLOCK, false, 0)
        invariant acc1 == FoldBlocks(m1.f, oh, seed, data, 0, ptr / BLOCK, true, 0)
      {
        var c0, c1 := OhVarblockFprint(oh, seed, data, ptr, BLOCK);
        NextBlock(m0, oh, seed, data, ptr / BLOCK, false, acc0, c0);
        NextBlock(m1, oh, seed, data, ptr / BLOCK, true, acc1, c1);
        acc0 := HornerDoubleUpdate(acc0, m0.sq, m0.f, c0.lo, c0.hi);
        acc1 := HornerDoubleUpdate(acc1, m1.sq, m1.f, c1.lo, c1.hi);
        ptr := ptr + BLOCK;
        nBytes := nBytes - BLOCK;
      }
    }
    var c0, c1 := OhVarblockFprint(oh, Xor64(seed, nBytes % 256), data, ptr, nBytes);
    LastBlock(m0, oh, seed, data, ptr / BLOCK, false, acc0, c0);
    LastBlock(m1, oh, seed, data, ptr / BLOCK, true, acc1, c1);
    acc0 := HornerDoubleUpdate(acc0, m0.sq, m0.f, c0.lo, c0.hi);
    acc1 := HornerDoubleUpdate(acc1, m1.sq, m1.f, c1.lo, c1.hi);
    r := (Finalize(acc0), Finalize(acc1));
  }

  // ---------------------------------------------------------------- entry points

  method UmashFprint(wide: bool, params: Params, seed: u64, data: bytes) returns (fp: (u64, u64))
    requires params.Valid()
    ensures fp.0 == Hash(params.poly0.f, params.oh, seed, data, false)
    ensures fp.1 == Hash(params.poly1.f, params.oh, seed, data, true)
  {
    hide UmashFpShort, UmashFpMedium, UmashShort, LongHash;
    if |data| <= 16 {
      if |data| <= 8 {
        ShortVariantsAgree(params.oh, seed, data);
        return UmashFpShort(params.oh, seed, data);
      }
      FpMediumIsLong(params, seed, data);
      return UmashFpMedium(params, seed, data);
    }
    fp := UmashFpLong(wide, params, seed, data);
  }

  method UmashFull(wide: bool, params: Params, seed: u64, which: int, data: bytes) returns (r: u64)
    requires params.Valid()
    ensures r == if which == 0 then Hash(params.poly0.f, params.oh, seed, data, false)
                 else Hash(params.poly1.f, params.oh, seed, data, true)
  {
    hide UmashShortFused, UmashMedium, UmashShort, LongHash, UmashFpShort;
    if which != 0 {
      var fp := UmashFprint(wide, params, seed, data);
      return fp.1;
    }
    if |data| <= 16 {
      if |data| <= 8 {
        ShortVariantsAgree(params.oh, seed, data);
        return UmashShortFused(params.oh, seed, data);
      }
      MediumIsLong(params.poly0, params.oh, seed, data);
      return UmashMedium(params.poly0, params.oh, seed, data);
    }
    r := UmashLong(wide, params.poly0, params.oh, seed, data);
  }
}
