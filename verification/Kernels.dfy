/** Long-input kernels: lazily reduced accumulators over runs of full 256-byte blocks. */
module Kernels {
  import opened Words
  import opened ModArith
  import opened Lanes
  import opened Bytes
  import opened Oh
  import opened Umash

  /** The key words of chunk `i`, as one vector. */
  function KeyChunk(key: OhKey, i: nat): V128
    requires 2 * i + 1 < 34
  {
    V128(key[2 * i], key[2 * i + 1])
  }

  lemma KeyChunkWhitens(key: OhKey, i: nat, x: V128)
    requires i < 16
    ensures VXor(x, KeyChunk(key, i)) == Whiten(key, i, x)
  {
  }

  /** ENH of the last chunk of a block, in general-purpose registers. */
  method EnhChunk(key: OhKey, i: nat, tag: u64, c: V128) returns (enhLo: u64, enhHi: u64)
    requires i < 16
    ensures V128(enhLo, Xor64(enhHi, enhLo)) == Enh(key, i, c, tag)
  {
    hide Xor, Mul128;
    var (hi, lo) := Mul128((c.lo + key[2 * i]) % W, (c.hi + key[2 * i + 1]) % W);
    enhLo := lo;
    enhHi := (hi + tag) % W;
  }

  // ---------------------------------------------------------------- 64-bit kernels

  /** The compressor of the generic kernel: 15 PH chunks in order, then ENH. */
  method OhBlockGeneric(key: OhKey, seed: u64, data: bytes, block: nat) returns (oh: V128)
    requires block + BLOCK <= |data|
    ensures oh == BlockOh(key, seed, data, block, BLOCK, false)
  {
    hide Ph, Enh, VXor, LoadChunk, ClmulCross, Clmul;
    var ptr := block;
    var acc := ZERO;
    var i := 0;
    while i < 15
      invariant i <= 15 && ptr == block + 16 * i
      invariant acc == PhFold(key, ChunksAt(data, block, i))
    {
      var x := LoadChunk(data[ptr..ptr + 16]);
      FoldSnoc(key, ChunksAt(data, block, i), x);
      ClmulCrossIs(Whiten(key, i, x));
      PhIsCross(key, i, x);
      ptr := ptr + 16;
      x := VXor(x, KeyChunk(key, i));
      acc := VXor(acc, ClmulCross(x));
      i := i + 1;
    }
    var last := LoadChunk(data[ptr..ptr + 16]);
    var enhLo, enhHi := EnhChunk(key, 15, seed, last);
    oh := VXor(acc, V128(enhLo, Xor64(enhHi, enhLo)));
    BlockOhFolds(key, seed, data, block, BLOCK);
    FullTag(seed);
  }

  /** PH as the machine computes it: whiten, then multiply the lanes. */
  lemma PhIsCross(key: OhKey, i: nat, x: V128)
    requires i < 16
    ensures ClmulCross(VXor(x, KeyChunk(key, i))) == Ph(key, i, x)
  {
    hide VXor, ClmulCross, Clmul;
    ClmulCrossIs(Whiten(key, i, x));
  }

  // ---------------------------------------------------------------- fingerprint kernels

  /** The compressors of the generic fingerprint kernel: the last chunk through PH is not shifted in. */
  method OhBlockFprintGeneric(key: OhKey, seed: u64, data: bytes, block: nat)
    returns (oh0: V128, oh1: V128)
    requires block + BLOCK <= |data|
    ensures oh0 == BlockOh(key, seed, data, block, BLOCK, false)
    ensures oh1 == BlockOh(key, seed, data, block, BLOCK, true)
  {
    hide Ph, Enh, VXor, VShift, LoadChunk, ClmulCross, Clmul, Whiten, LrcPh, KeyChunk;
    var ptr := block;
    var acc, accShifted := ZERO, ZERO;
    var lrc := V128(key[32], key[33]);
    ghost var cs: Chunks := [];
    var i := 0;
    while i < 15
      invariant i <= 15 && ptr == block + 16 * i && cs == ChunksAt(data, block, i)
      invariant acc == PhFold(key, cs) && lrc == Lrc(key, cs)
      invariant accShifted == if i < 15 then ShiftFold(key, cs) else DelayedFold(key, cs)
    {
      var x := LoadChunk(data[ptr..ptr + 16]);
      FoldSnoc(key, cs, x);
      PhIsCross(key, i, x);
      KeyChunkWhitens(key, i, x);
      cs := cs + [x];
      ptr := ptr + 16;
      x := VXor(x, KeyChunk(key, i));
      lrc := VXor(lrc, x);
      x := ClmulCross(x);
      acc := VXor(acc, x);
      if i != 14 {
        accShifted := VXor(accShifted, x);
        accShifted := VShift(accShifted);
      }
      i := i + 1;
    }
    var last := LoadChunk(data[ptr..ptr + 16]);
    KeyChunkWhitens(key, 15, last);
    FoldSnoc(key, cs, last);
    lrc := VXor(lrc, VXor(last, KeyChunk(key, 15)));
    oh0, oh1 := FinishFprint(key, seed, data, block, acc, accShifted, lrc);
  }

  /** The end of both fingerprint kernels, once the sums over the PH chunks are known. */
  method FinishFprint(key: OhKey, seed: u64, data: bytes, block: nat,
                      acc: V128, accShifted: V128, lrc: V128)
    returns (oh0: V128, oh1: V128)
    requires block + BLOCK <= |data|
    requires acc == PhFold(key, ChunksAt(data, block, 15))
    requires accShifted == DelayedFold(key, ChunksAt(data, block, 15))
    requires lrc == Lrc(key, BlockChunks(data, block, BLOCK))
    ensures oh0 == BlockOh(key, seed, data, block, BLOCK, false)
    ensures oh1 == BlockOh(key, seed, data, block, BLOCK, true)
  {
    hide Ph, Enh, VXor, VShift, LoadChunk, ClmulCross, Clmul, ChunksAt, BlockOh;
    var shifted := VXor(accShifted, acc);
    shifted := VShift(shifted);
    ClmulCrossIs(lrc);
    shifted := VXor(shifted, ClmulCross(lrc));
    var enhLo, enhHi := EnhChunk(key, 15, seed, LoadChunk(data[block + 240..block + 256]));
    enhHi := Xor64(enhHi, enhLo);
    oh0 := VXor(acc, V128(enhLo, enhHi));
    oh1 := VXor(shifted, V128(enhLo, enhHi));
    BlockOhFolds(key, seed, data, block, BLOCK);
    FullTag(seed);
  }

  // ---------------------------------------------------------------- paired lanes

  /** A 256-bit register: two 128-bit halves. */
  datatype V256 = V256(even: V128, odd: V128)

  function Xor256(x: V256, y: V256): V256 {
    V256(VXor(x.even, y.even), VXor(x.odd, y.odd))
  }

  function Load256(data: bytes, ptr: nat): V256
    requires ptr + 32 <= |data|
  {
    V256(LoadChunk(data[ptr..ptr + 16]), LoadChunk(data[ptr + 16..ptr + 32]))
  }

  function Key256(key: OhKey, i: nat): V256
    requires 2 * i + 3 < 34
  {
    V256(KeyChunk(key, i), KeyChunk(key, i + 1))
  }

  function ClmulCross256(x: V256): V256 {
    V256(ClmulCross(x.even), ClmulCross(x.odd))
  }

  function Shl256(x: V256, s: nat): V256 {
    V256(VShl(x.even, s), VShl(x.odd, s))
  }

  /** Adds an even and an odd term to the two halves of a sum. */
  lemma PairSum(even: V128, odd: V128, sum: V128, a: V128, b: V128)
    requires VXor(even, odd) == sum
    ensures VXor(VXor(even, a), VXor(odd, b)) == VXor(VXor(sum, a), b)
  {
    hide VXor;
    VXorSwap(even, a, odd, b);
    VXorAssoc(sum, a, b);
  }

  lemma ChunksPair(data: bytes, off: nat, m: nat)
    requires off + 16 * (m + 2) <= |data|
    ensures ChunksAt(data, off, m + 2)
         == ChunksAt(data, off, m)
            + [Load256(data, off + 16 * m).even] + [Load256(data, off + 16 * m).odd]
  {
    hide LoadChunk;
    assert ChunksAt(data, off, m + 2) == ChunksAt(data, off, m + 1)
      + [LoadChunk(data[off + 16 * (m + 1)..off + 16 * (m + 2)])];
  }

  /** The compressor of the vectorised kernel sums even and odd chunks in separate lanes. */
  method OhBlockPaired(key: OhKey, seed: u64, data: bytes, block: nat) returns (oh: V128)
    requires block + BLOCK <= |data|
    ensures oh == BlockOh(key, seed, data, block, BLOCK, false)
  {
    hide Ph, Enh, VXor, LoadChunk, ClmulCross, Clmul, KeyChunk, PhFold, ChunksAt, BlockOh, Lrc,
         ShiftFold, DelayedFold, Whiten, PairedShift;
    var ptr := block;
    var acc2 := V256(ZERO, ZERO);
    ghost var cs: Chunks := [];
    PairedStart(key);
    var i := 0;
    while i < 14
      invariant i <= 14 && i % 2 == 0 && ptr == block + 16 * i && cs == ChunksAt(data, block, i)
      invariant VXor(acc2.even, acc2.odd) == PhFold(key, cs)
    {
      var x := Load256(data, ptr);
      ChunksPair(data, block, i);
      FoldSnoc(key, cs, x.even);
      FoldSnoc(key, cs + [x.even], x.odd);
      PhIsCross(key, i, x.even);
      PhIsCross(key, i + 1, x.odd);
      PairSum(acc2.even, acc2.odd, PhFold(key, cs), Ph(key, i, x.even), Ph(key, i + 1, x.odd));
      cs := cs + [x.even] + [x.odd];
      ptr := ptr + 32;
      x := Xor256(x, Key256(key, i));
      x := ClmulCross256(x);
      acc2 := Xor256(acc2, x);
      i := i + 2;
    }
    var x := LoadChunk(data[ptr..ptr + 16]);
    FoldSnoc(key, cs, x);
    ChunksNext(data, block, 14);
    PhIsCross(key, 14, x);
    x := VXor(x, KeyChunk(key, 14));
    x := ClmulCross(x);
    VXorComm(x, VXor(acc2.even, acc2.odd));
    x := VXor(x, VXor(acc2.even, acc2.odd));
    var enhLo, enhHi := EnhChunk(key, 15, seed, LoadChunk(data[ptr + 16..ptr + 32]));
    oh := VXor(x, V128(enhLo, Xor64(enhHi, enhLo)));
    BlockOhFolds(key, seed, data, block, BLOCK);
    FullTag(seed);
  }

  /** What the two shifted lanes hold: the even one is a place behind. */
  ghost predicate PairedShift(key: OhKey, cs: Chunks, acc: V256)
    requires |cs| <= 14
  {
    PlacedFold(key, cs, 14) == VShift(VXor(VShift(acc.even), acc.odd))
  }

  /** Shifting an even and an odd product by the same amount places both. */
  lemma PairedShiftStep(key: OhKey, cs: Chunks, acc: V256, x: V256)
    requires |cs| <= 12 && PairedShift(key, cs, acc)
    ensures var m := |cs|;
            var p := V256(Ph(key, m, x.even), Ph(key, m + 1, x.odd));
            PairedShift(key, cs + [x.even] + [x.odd], Xor256(acc, Shl256(p, 12 - m)))
  {
    hide Ph, VXor, VShift, VShl;
    var m := |cs|;
    var p, q := Ph(key, m, x.even), Ph(key, m + 1, x.odd);
    var ps, qs := VShl(p, 12 - m), VShl(q, 12 - m);
    var cs1 := cs + [x.even];
    var cs2 := cs1 + [x.odd];
    assert cs1[..m] == cs && cs2[..m + 1] == cs1;
    var s := PlacedFold(key, cs, 14);
    assert PlacedFold(key, cs2, 14) == VXor(VXor(s, VShl(p, 14 - m)), VShl(q, 13 - m));

    VShiftXor(acc.even, ps);
    VShiftShl(p, 12 - m);
    VShiftShl(p, 13 - m);
    VShiftShl(q, 12 - m);
    PairSum(VShift(acc.even), acc.odd, VXor(VShift(acc.even), acc.odd), VShift(ps), qs);
    VShiftXor(VXor(VXor(VShift(acc.even), acc.odd), VShift(ps)), qs);
    VShiftXor(VXor(VShift(acc.even), acc.odd), VShift(ps));
  }

  lemma PairedShiftEnd(key: OhKey, cs: Chunks, acc: V256, x: V128)
    requires |cs| == 14 && PairedShift(key, cs, acc)
    ensures VShift(VXor(VShift(acc.even), acc.odd)) == DelayedFold(key, cs + [x])
  {
    hide Ph, VXor, VShift, VShl;
    assert (cs + [x])[..14] == cs;
    ShiftFoldPlaces(key, cs);
  }

  /** Both compressors of the vectorised kernel. */
  method OhBlockFprintPaired(key: OhKey, seed: u64, data: bytes, block: nat)
    returns (oh0: V128, oh1: V128)
    requires block + BLOCK <= |data|
    ensures oh0 == BlockOh(key, seed, data, block, BLOCK, false)
    ensures oh1 == BlockOh(key, seed, data, block, BLOCK, true)
  {
    hide Ph, Enh, VXor, VShift, VShl, LoadChunk, ClmulCross, Clmul, Whiten, LrcPh, KeyChunk,
         PairedShift, PhFold, Lrc, ChunksAt, ShiftFold, DelayedFold, BlockOh;
    var ptr := block;
    var acc2, accShifted2 := V256(ZERO, ZERO), V256(ZERO, ZERO);
    var lrc2 := V256(KeyChunk(key, 16), ZERO);
    ghost var cs: Chunks := [];
    PairedStart(key);
    var i := 0;
    while i < 14
      invariant i <= 14 && i % 2 == 0 && ptr == block + 16 * i && cs == ChunksAt(data, block, i)
      invariant VXor(acc2.even, acc2.odd) == PhFold(key, cs)
      invariant VXor(lrc2.even, lrc2.odd) == Lrc(key, cs)
      invariant PairedShift(key, cs, accShifted2)
    {
      var x := Load256(data, ptr);
      ChunksPair(data, block, i);
      FoldSnoc(key, cs, x.even);
      FoldSnoc(key, cs + [x.even], x.odd);
      PhIsCross(key, i, x.even);
      PhIsCross(key, i + 1, x.odd);
      KeyChunkWhitens(key, i, x.even);
      KeyChunkWhitens(key, i + 1, x.odd);
      PairSum(acc2.even, acc2.odd, PhFold(key, cs), Ph(key, i, x.even), Ph(key, i + 1, x.odd));
      PairSum(lrc2.even, lrc2.odd, Lrc(key, cs), Whiten(key, i, x.even), Whiten(key, i + 1, x.odd));
      PairedShiftStep(key, cs, accShifted2, x);
      cs := cs + [x.even] + [x.odd];
      ptr := ptr + 32;
      x := Xor256(x, Key256(key, i));
      lrc2 := Xor256(lrc2, x);
      x := ClmulCross256(x);
      acc2 := Xor256(acc2, x);
      x := Shl256(x, 12 - i);
      accShifted2 := Xor256(accShifted2, x);
      i := i + 2;
    }
    var x := Load256(data, ptr);
    ChunksPair(data, block, 14);
    ChunksNext(data, block, 14);
    FoldSnoc(key, cs, x.even);
    FoldSnoc(key, cs + [x.even], x.odd);
    PhIsCross(key, 14, x.even);
    KeyChunkWhitens(key, 14, x.even);
    KeyChunkWhitens(key, 15, x.odd);
    PairSum(lrc2.even, lrc2.odd, Lrc(key, cs), Whiten(key, 14, x.even), Whiten(key, 15, x.odd));
    PairedShiftEnd(key, cs, accShifted2, x.even);
    FullBlockChunks(data, block);
    x := Xor256(x, Key256(key, 14));
    lrc2 := Xor256(lrc2, x);
    var lrc := VXor(lrc2.even, lrc2.odd);
    var accShifted := VXor(VShift(accShifted2.even), accShifted2.odd);
    accShifted := VShift(accShifted);
    var acc := VXor(acc2.even, acc2.odd);
    acc := VXor(acc, ClmulCross(x.even));
    oh0, oh1 := FinishFprint(key, seed, data, block, acc, accShifted, lrc);
  }

  lemma PairedStart(key: OhKey)
    ensures VXor(ZERO, ZERO) == PhFold(key, [])
    ensures VXor(KeyChunk(key, 16), ZERO) == Lrc(key, [])
    ensures PairedShift(key, [], V256(ZERO, ZERO))
  {
    hide VXor;
    VXorZero(ZERO);
    VXorZero(KeyChunk(key, 16));
  }

  // ---------------------------------------------------------------- runs of blocks

  /** The polynomial accumulator after `j` full blocks. */
  function FoldBlocks(f: Field, key: OhKey, seed: u64, data: bytes, off: nat, j: nat,
                      secondary: bool, initial: nat): nat
    requires off + BLOCK * j <= |data|
  {
    PolyReduce(f, FullBlocks(key, seed, data, off, j, secondary), initial)
  }

  lemma FoldStart(f: Field, key: OhKey, seed: u64, data: bytes, off: nat, secondary: bool,
                  initial: u64)
    requires off <= |data|
    ensures Represents(SplitAccumulator(initial, 0),
                       FoldBlocks(f, key, seed, data, off, 0, secondary, initial))
  {
  }

  lemma FoldNext(mul: Multipliers, key: OhKey, seed: u64, data: bytes, off: nat, j: nat,
                 secondary: bool, initial: nat, a: SplitAccumulator, oh: V128)
    requires mul.Valid() && off + BLOCK * (j + 1) <= |data|
    requires Represents(a, FoldBlocks(mul.f, key, seed, data, off, j, secondary, initial))
    requires oh == BlockOh(key, seed, data, off + BLOCK * j, BLOCK, secondary)
    ensures Represents(a.Update(mul.sq, mul.f, oh.lo, oh.hi),
                       FoldBlocks(mul.f, key, seed, data, off, j + 1, secondary, initial))
  {
    hide BlockOh, Represents, SplitAccumulator.Update, PolyStep, PolyReduce;
    var ys := FullBlocks(key, seed, data, off, j, secondary);
    PolySnoc(mul.f, ys, oh, initial);
    SplitIsPolyStep(mul, a, PolyReduce(mul.f, ys, initial), oh);
  }

  lemma FoldFinish(f: Field, key: OhKey, seed: u64, data: bytes, off: nat, j: nat,
                   secondary: bool, initial: nat, a: SplitAccumulator)
    requires j > 0 && off + BLOCK * j <= |data|
    requires Represents(a, FoldBlocks(f, key, seed, data, off, j, secondary, initial))
    ensures a.Eval() == FoldBlocks(f, key, seed, data, off, j, secondary, initial)
  {
    hide Represents, SplitAccumulator.Eval, BlockOh, PolyStep;
    SplitFinish(a, FoldBlocks(f, key, seed, data, off, j, secondary, initial));
  }

  /**
   * Updates a hash state for `nBlocks` full blocks. `wide` says which of the two compressors the
   * processor dispatch picked; the result does not depend on it.
   */
  method MultipleBlocks(wide: bool, initial: u64, mul: Multipliers, key: OhKey, seed: u64,
                        data: bytes, off: nat, nBlocks: nat)
    returns (r: u64)
    requires mul.Valid() && nBlocks > 0 && off + BLOCK * nBlocks <= |data|
    ensures r == FoldBlocks(mul.f, key, seed, data, off, nBlocks, false, initial)
  {
    hide BlockOh, SplitAccumulator.Update, SplitAccumulator.Eval, Represents, FoldBlocks;
    var ret := SplitAccumulator(initial, 0);
    var blocks := off;
    var remaining := nBlocks;
    ghost var done := 0;
    FoldStart(mul.f, key, seed, data, off, false, initial);
    while remaining > 0
      invariant done + remaining == nBlocks && blocks == off + BLOCK * done
      invariant Represents(ret, FoldBlocks(mul.f, key, seed, data, off, done, false, initial))
    {
      var oh;
      if wide {
        oh := OhBlockPaired(key, seed, data, blocks);
      } else {
        oh := OhBlockGeneric(key, seed, data, blocks);
      }
      blocks := blocks + BLOCK;
      FoldNext(mul, key, seed, data, off, done, false, initial, ret, oh);
      ret := ret.Update(mul.sq, mul.f, oh.lo, oh.hi);
      remaining := remaining - 1;
      done := done + 1;
    }
    FoldFinish(mul.f, key, seed, data, off, nBlocks, false, initial, ret);
    r := ret.Eval();
  }

  /** Updates both hash states for `nBlocks` full blocks. */
  method FprintMultipleBlocks(wide: bool, initial: (u64, u64), mul0: Multipliers, mul1: Multipliers,
                              key: OhKey, seed: u64, data: bytes, off: nat, nBlocks: nat)
    returns (r: (u64, u64))
    requires mul0.Valid() && mul1.Valid() && nBlocks > 0 && off + BLOCK * nBlocks <= |data|
    ensures r.0 == FoldBlocks(mul0.f, key, seed, data, off, nBlocks, false, initial.0)
    ensures r.1 == FoldBlocks(mul1.f, key, seed, data, off, nBlocks, true, initial.1)
  {
    hide BlockOh, SplitAccumulator.Update, SplitAccumulator.Eval, Represents, FoldBlocks;
    var acc0, acc1 := SplitAccumulator(initial.0, 0), SplitAccumulator(initial.1, 0);
    var block := off;
    var remaining := nBlocks;
    ghost var done := 0;
    FoldStart(mul0.f, key, seed, data, off, false, initial.0);
    FoldStart(mul1.f, key, seed, data, off, true, initial.1);
    while remaining > 0
      invariant done + remaining == nBlocks && block == off + BLOCK * done
      invariant Represents(acc0, FoldBlocks(mul0.f, key, seed, data, off, done, false, initial.0))
      invariant Represents(acc1, FoldBlocks(mul1.f, key, seed, data, off, done, true, initial.1))
    {
      var oh0, oh1;
      if wide {
        oh0, oh1 := OhBlockFprintPaired(key, seed, data, block);
      } else {
        oh0, oh1 := OhBlockFprintGeneric(key, seed, data, block);
      }
      block := block + BLOCK;
      FoldNext(mul0, key, seed, data, off, done, false, initial.0, acc0, oh0);
      FoldNext(mul1, key, seed, data, off, done, true, initial.1, acc1, oh1);
      acc0 := acc0.Update(mul0.sq, mul0.f, oh0.lo, oh0.hi);
      acc1 := acc1.Update(mul1.sq, mul1.f, oh1.lo, oh1.hi);
      remaining := remaining - 1;
      done := done + 1;
    }
    FoldFinish(mul0.f, key, seed, data, off, nBlocks, false, initial.0, acc0);
    FoldFinish(mul1.f, key, seed, data, off, nBlocks, true, initial.1, acc1);
    r := (acc0.Eval(), acc1.Eval());
  }
}
