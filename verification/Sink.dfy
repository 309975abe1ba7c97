/** The incremental hashing state: a 32-byte window over the input and an open OH block. */
module Sinks {
  import opened Words
  import opened ModArith
  import opened Lanes
  import opened Bytes
  import opened Oh
  import opened Umash
  import opened ShortHash
  import opened Kernels
  import opened Finalizer
  import opened Batch

  /** The hashing fields of a sink that change from chunk to chunk. */
  datatype State = State(acc0: u64, acc1: u64, ohIter: nat, blockSize: nat, ohAcc: V128,
                         lrc: V128, prev: V128, twistedAcc: V128)

  /** The chunks of the block that is open after `consumed` bytes. */
  function OpenChunks(data: bytes, consumed: nat): (cs: Chunks)
    requires consumed <= |data|
  {
    ChunksAt(data, consumed - consumed % BLOCK, consumed % BLOCK / 16)
  }

  /** The PH value that has not been shifted in yet. */
  function LastPh(key: OhKey, cs: Chunks): V128 {
    if cs == [] then ZERO else Ph(key, |cs| - 1, cs[|cs| - 1])
  }

  /**
   * What the state holds after `consumed` bytes of `data`: the polynomial accumulators fold the
   * finished blocks, `ohAcc` sums the PH values of the open block, and the twisted fields hold
   * its checksum and its shifted sum, one chunk behind.
   */
  ghost predicate Holds(params: Params, seed: u64, twisted: bool, st: State, data: bytes,
                        consumed: nat)
    requires params.Valid()
  {
    && consumed <= |data| && consumed % 16 == 0
    && st.ohIter == 2 * (consumed % BLOCK / 16)
    && st.blockSize == 8 * st.ohIter
    && PrimaryHolds(params, seed, st, data, consumed)
    && (twisted ==> TwistedHolds(params, seed, st, data, consumed))
  }

  ghost predicate PrimaryHolds(params: Params, seed: u64, st: State, data: bytes, consumed: nat)
    requires params.Valid() && consumed <= |data|
  {
    && st.acc0 == FoldBlocks(params.poly0.f, params.oh, seed, data, 0, consumed / BLOCK, false, 0)
    && st.ohAcc == PhFold(params.oh, OpenChunks(data, consumed))
  }

  ghost predicate TwistedHolds(params: Params, seed: u64, st: State, data: bytes, consumed: nat)
    requires params.Valid() && consumed <= |data|
  {
    var cs := OpenChunks(data, consumed);
    && st.acc1 == FoldBlocks(params.poly1.f, params.oh, seed, data, 0, consumed / BLOCK, true, 0)
    && st.lrc == Lrc(params.oh, cs)
    && st.prev == LastPh(params.oh, cs)
    && st.twistedAcc == DelayedFold(params.oh, cs)
  }

  // ---------------------------------------------------------------- steps of the state

  /** An empty open block. */
  lemma OpenEmpty(key: OhKey, data: bytes, consumed: nat)
    requires consumed <= |data| && consumed % BLOCK == 0
    ensures OpenChunks(data, consumed) == []
    ensures PhFold(key, []) == LastPh(key, []) == DelayedFold(key, []) == ZERO
    ensures Lrc(key, []) == V128(key[32], key[33])
  {
  }

  lemma HoldsInitially(params: Params, seed: u64, twisted: bool, st: State, data: bytes)
    requires params.Valid()
    requires st == State(0, 0, 0, 0, ZERO, V128(params.oh[32], params.oh[33]), ZERO, ZERO)
    ensures Holds(params, seed, twisted, st, data, 0)
  {
    OpenEmpty(params.oh, data, 0);
  }

  /** More input does not change what has been consumed. */
  lemma HoldsGrows(params: Params, seed: u64, twisted: bool, st: State, data: bytes,
                   more: bytes, consumed: nat)
    requires params.Valid() && Holds(params, seed, twisted, st, data, consumed)
    ensures Holds(params, seed, twisted, st, data + more, consumed)
  {
    hide PhFold, LastPh, DelayedFold, Lrc, ChunksAt, FullBlocks, PolyReduce;
    ChunksLocal(data, more, consumed - consumed % BLOCK, consumed % BLOCK / 16);
    FullBlocksLocal(params.oh, seed, data, more, 0, consumed / BLOCK, false);
    FullBlocksLocal(params.oh, seed, data, more, 0, consumed / BLOCK, true);
  }

  lemma NextCounter(consumed: nat)
    requires consumed % 16 == 0 && consumed % BLOCK < 240
    ensures (consumed + 16) / BLOCK == consumed / BLOCK
    ensures (consumed + 16) % BLOCK == consumed % BLOCK + 16
    ensures (consumed % BLOCK + 16) / 16 == consumed % BLOCK / 16 + 1
    ensures 16 * (consumed % BLOCK / 16) == consumed % BLOCK
  {
    DivModUnique(consumed / BLOCK, consumed % BLOCK + 16, BLOCK);
    assert consumed % BLOCK == 16 * (consumed / 16 - 16 * (consumed / BLOCK));
  }

  /** One more chunk in a block that stays open. */
  lemma OpenNext(key: OhKey, data: bytes, consumed: nat)
    requires consumed % 16 == 0 && consumed % BLOCK < 240 && consumed + 16 <= |data|
    ensures (consumed + 16) / BLOCK == consumed / BLOCK
    ensures (consumed + 16) % BLOCK == consumed % BLOCK + 16
    ensures var cs := OpenChunks(data, consumed);
            var c := LoadChunk(data[consumed..consumed + 16]);
            && |cs| == consumed % BLOCK / 16
            && OpenChunks(data, consumed + 16) == cs + [c]
            && LastPh(key, cs + [c]) == Ph(key, |cs|, c)
            && DelayedFold(key, cs + [c]) == VShift(VXor(DelayedFold(key, cs), LastPh(key, cs)))
  {
    hide Ph, LoadChunk, VXor, VShift, PhFold, Lrc, ChunksAt;
    var cs := OpenChunks(data, consumed);
    var c := LoadChunk(data[consumed..consumed + 16]);
    NextCounter(consumed);
    ChunksNext(data, consumed - consumed % BLOCK, consumed % BLOCK / 16);
    FoldSnoc(key, cs, c);
    if cs == [] {
      FoldsEmpty(key, data, 0);
      VXorZero(ZERO);
      VShiftIsShl(ZERO);
      VShlZero(ZERO, 1);
    }
  }

  lemma ChunkIndex(consumed: nat, b: nat)
    requires consumed % 16 == 0 && 1 <= b <= 16
    ensures consumed % BLOCK <= 240 && consumed % BLOCK % 16 == 0
    ensures (consumed % BLOCK + b - 1) / 16 == consumed % BLOCK / 16
  {
    CounterFacts(consumed);
    DivModUnique(consumed % BLOCK / 16, b - 1, 16);
  }

  lemma BlockCount(nBytes: nat)
    requires nBytes > BLOCK
    ensures var k := (nBytes - 1) / BLOCK;
            k > 0 && k * BLOCK % BLOCK == 0 && k * BLOCK < nBytes <= k * BLOCK + BLOCK
  {
    DivModUnique((nBytes - 1) / BLOCK, 0, BLOCK);
  }

  /** The ENH step closes a block, at its 16th chunk or at the end of the input. */
  lemma ClosedChunks(data: bytes, consumed: nat, b: nat)
    requires consumed % 16 == 0 && 1 <= b <= 16 <= consumed + b <= |data|
    ensures |OpenChunks(data, consumed)| == consumed % BLOCK / 16 < 16
    ensures consumed % BLOCK + b <= BLOCK
    ensures BlockChunks(data, consumed - consumed % BLOCK, consumed % BLOCK + b)
         == OpenChunks(data, consumed) + [LoadChunk(data[consumed + b - 16..consumed + b])]
  {
    hide LoadChunk, ChunksAt, TailChunk;
    ChunkIndex(consumed, b);
    TailInside(data, consumed + b);
  }

  lemma TailInside(data: bytes, end: nat)
    requires 16 <= end <= |data|
    ensures TailChunk(data, end) == LoadChunk(data[end - 16..end])
  {
    hide LoadChunk;
  }

  /** Closing a block updates the polynomial: for a full block, and at the end of the input. */
  lemma CloseStep(m: Multipliers, key: OhKey, seed: u64, data: bytes, consumed: nat, b: nat,
                  secondary: bool, acc: u64, y: V128)
    requires m.Valid() && consumed % 16 == 0 && 1 <= b <= 16 <= consumed + b <= |data|
    requires acc == FoldBlocks(m.f, key, seed, data, 0, consumed / BLOCK, secondary, 0)
    requires |OpenChunks(data, consumed)| < 16
    requires y == OhCompress(key, Xor64(seed, (consumed % BLOCK + b) % 256),
                             OpenChunks(data, consumed)
                             + [LoadChunk(data[consumed + b - 16..consumed + b])], secondary)
    ensures consumed % BLOCK + b == BLOCK ==>
              HornerDoubleUpdate(acc, m.sq, m.f, y.lo, y.hi)
              == FoldBlocks(m.f, key, seed, data, 0, (consumed + b) / BLOCK, secondary, 0)
    ensures consumed + b == |data| ==>
              Finalize(HornerDoubleUpdate(acc, m.sq, m.f, y.lo, y.hi))
              == LongHash(m.f, key, seed, data, secondary)
  {
    hide FoldBlocks, BlockChunks, OpenChunks, LoadChunk, OhCompress, HornerDoubleUpdate, LongHash,
         Finalize, Xor;
    var q := consumed / BLOCK;
    ClosedChunks(data, consumed, b);
    if consumed % BLOCK + b == BLOCK {
      FullTag(seed);
      NextBlock(m, key, seed, data, q, secondary, acc, y);
    }
    if consumed + b == |data| {
      LastBlock(m, key, seed, data, q, secondary, acc, y);
    }
  }

  /** What one more polynomial update makes of a compressed block that ends at `end`. */
  ghost predicate Closes(m: Multipliers, key: OhKey, seed: u64, acc: u64, y: V128, secondary: bool,
                         final: bool, data: bytes, end: nat)
    requires m.Valid()
  {
    var r := HornerDoubleUpdate(acc, m.sq, m.f, y.lo, y.hi);
    if final then |data| > 8 && Finalize(r) == LongHash(m.f, key, seed, data, secondary)
    else && end <= |data| && end % BLOCK == 0
         && r == FoldBlocks(m.f, key, seed, data, 0, end / BLOCK, secondary, 0)
  }

  /** A state that has just closed a block holds all of the input up to its end. */
  lemma HoldsAfterBlock(params: Params, seed: u64, twisted: bool, st: State, data: bytes,
                        consumed: nat)
    requires params.Valid() && consumed <= |data| && consumed % BLOCK == 0
    requires st.ohIter == 0 && st.blockSize == 0 && st.ohAcc == ZERO
    requires st.acc0
          == FoldBlocks(params.poly0.f, params.oh, seed, data, 0, consumed / BLOCK, false, 0)
    requires twisted ==>
               && st.acc1
                  == FoldBlocks(params.poly1.f, params.oh, seed, data, 0, consumed / BLOCK, true, 0)
               && st.lrc == V128(params.oh[32], params.oh[33])
               && st.prev == st.twistedAcc == ZERO
    ensures Holds(params, seed, twisted, st, data, consumed)
  {
    hide FoldBlocks;
    OpenEmpty(params.oh, data, consumed);
  }

  /** The counters and the accumulators of a state, for closing its open block. */
  lemma HeldFields(params: Params, seed: u64, twisted: bool, st: State, data: bytes, consumed: nat)
    requires params.Valid() && Holds(params, seed, twisted, st, data, consumed)
    ensures consumed % 16 == 0 && st.ohIter <= 30
    ensures st.blockSize == 8 * st.ohIter == consumed % BLOCK
    ensures (consumed + 16) % BLOCK == 0 <==> st.ohIter == 30
    ensures st.acc0
         == FoldBlocks(params.poly0.f, params.oh, seed, data, 0, consumed / BLOCK, false, 0)
    ensures twisted ==>
              st.acc1
              == FoldBlocks(params.poly1.f, params.oh, seed, data, 0, consumed / BLOCK, true, 0)
  {
    hide FoldBlocks, OpenChunks;
    CounterFacts(consumed);
  }

  lemma CounterFacts(consumed: nat)
    requires consumed % 16 == 0
    ensures consumed % BLOCK == 16 * (consumed % BLOCK / 16) <= 240
    ensures (consumed + 16) % BLOCK == 0 <==> consumed % BLOCK == 240
  {
    var k, r := consumed / 256, consumed % 256;
    assert r == 16 * (consumed / 16 - 16 * k);
    if r == 240 {
      DivModUnique(k + 1, 0, 256);
    } else {
      DivModUnique(k, r + 16, 256);
    }
  }

  /** The sums of the open block, and the place of the next chunk in the key. */
  lemma HeldOpen(params: Params, seed: u64, twisted: bool, st: State, data: bytes, consumed: nat)
    requires params.Valid() && Holds(params, seed, twisted, st, data, consumed)
    ensures consumed <= |data| && consumed % 16 == 0
    ensures var cs := OpenChunks(data, consumed);
            && |cs| == consumed % BLOCK / 16 < 16
            && st.ohIter == 2 * |cs| && st.blockSize == consumed % BLOCK
            && st.ohAcc == PhFold(params.oh, cs)
            && (twisted ==> st.lrc == Lrc(params.oh, cs) && st.twistedAcc == DelayedFold(params.oh, cs))
  {
    hide FoldBlocks, PhFold, Lrc, DelayedFold, LastPh;
    CounterFacts(consumed);
  }

  /** The ENH step of the secondary compressor, up to the ENH value itself. */
  lemma CloseTwisted(key: OhKey, tag: u64, cs: Chunks, c: V128)
    requires |cs| < 16
    ensures var w := VXor(Lrc(key, cs), VXor(c, V128(key[2 * |cs|], key[2 * |cs| + 1])));
            VXor(VXor(VShift(VXor(PhFold(key, cs), DelayedFold(key, cs))), Clmul(w.lo, w.hi)),
                 Enh(key, |cs|, c, tag))
            == OhSecondary(key, tag, cs + [c])
  {
    hide PhFold, Lrc, DelayedFold, VXor, VShift, Clmul, Enh, OhPrimary, OhSecondary, Whiten;
    CompressSnoc(key, tag, cs, c);
    FoldSnoc(key, cs, c);
    KeyChunkWhitens(key, |cs|, c);
    VXorComm(PhFold(key, cs), DelayedFold(key, cs));
  }

  lemma EvenCounter(consumed: nat, ohIter: nat)
    requires consumed % 16 == 0 && 8 * ohIter == consumed % BLOCK
    ensures ohIter % 2 == 0 && BLOCK * (consumed / BLOCK) <= consumed
  {
    CounterFacts(consumed);
  }

  /** The fields of the open block, when it is empty. */
  lemma HeldEmpty(params: Params, seed: u64, twisted: bool, st: State, data: bytes, consumed: nat)
    requires params.Valid() && Holds(params, seed, twisted, st, data, consumed)
    requires st.ohIter == 0
    ensures consumed % BLOCK == 0 && st.ohAcc == ZERO
    ensures twisted ==>
              st.lrc == V128(params.oh[32], params.oh[33]) && st.prev == st.twistedAcc == ZERO
  {
    hide FoldBlocks;
    HeldFields(params, seed, twisted, st, data, consumed);
    OpenEmpty(params.oh, data, consumed);
  }

  /** A kernel run over the caller's data continues the fold of everything before it. */
  lemma FoldContinues(f: Field, key: OhKey, seed: u64, prefix: bytes, data: bytes, off: nat,
                      j: nat, secondary: bool)
    requires (|prefix| + off) % BLOCK == 0 && off + BLOCK * j <= |data|
    ensures var q := (|prefix| + off) / BLOCK;
            FoldBlocks(f, key, seed, prefix + data, 0, q + j, secondary, 0)
            == FoldBlocks(f, key, seed, data, off, j, secondary,
                          FoldBlocks(f, key, seed, prefix + data, 0, q, secondary, 0))
  {
    hide PolyReduce, FullBlocks;
    var q := (|prefix| + off) / BLOCK;
    var d := prefix + data;
    FullBlocksConcat(key, seed, d, 0, q, j, secondary);
    FullBlocksShift(key, seed, prefix, data, off, j, secondary);
    PolyConcat(f, FullBlocks(key, seed, d, 0, q, secondary),
               FullBlocks(key, seed, d, BLOCK * q, j, secondary), 0);
  }

  /** Two 64-bit loads make up the chunk. */
  lemma LoadsAgree(chunk: bytes)
    requires |chunk| == 16
    ensures LoadChunk(chunk) == V128(LoadWord(chunk[..8]), LoadWord(chunk[8..]))
  {
  }

  // ---------------------------------------------------------------- the sink object

  class Sink {
    const params: Params
    const seed: u64
    /** 0 for the first hash, 1 for the second, 2 for a fingerprint. */
    const hashWanted: int
    /** New bytes go to the second half; the first half keeps the previous chunk. */
    const buf: array<byte>

    var acc0: u64
    var acc1: u64
    var ohIter: nat
    var bufsz: nat
    var blockSize: nat
    var largeUmash: bool
    var ohAcc: V128
    var lrc: V128
    var prev: V128
    var twistedAcc: V128

    /** Every byte fed so far. */
    ghost var fed: bytes

    ghost function View(): State
      reads this
    {
      State(acc0, acc1, ohIter, blockSize, ohAcc, lrc, prev, twistedAcc)
    }

    /** The previous chunk. */
    function Front(): bytes
      requires buf.Length == 32
      reads buf
    {
      buf[..16]
    }

    /** The first `n` bytes that wait to be consumed. */
    function Pending(n: nat): bytes
      requires buf.Length == 32 && n <= 16
      reads buf
    {
      buf[16..16 + n]
    }

    ghost predicate Config() {
      params.Valid() && 0 <= hashWanted <= 2 && buf.Length == 32
    }

    ghost predicate Valid()
      reads this, buf
    {
      && Config()
      && bufsz <= |fed|
      && bufsz <= 16
      && Holds(params, seed, hashWanted != 0, View(), fed, |fed| - bufsz)
      && Pending(bufsz) == fed[|fed| - bufsz..]
      && largeUmash == (|fed| >= 16)
      && (largeUmash ==> bufsz >= 1)
      && (!largeUmash ==> bufsz == |fed|)
      && (|fed| - bufsz >= 16 ==> Front() == fed[|fed| - bufsz - 16..|fed| - bufsz])
    }

    /** The ranges that the machine's fields keep in every state that updates can reach. */
    lemma Reachable()
      requires Valid()
      ensures acc0 < M && (hashWanted != 0 ==> acc1 < M)
      ensures ohIter % 2 == 0 && ohIter <= 30 && blockSize == 8 * ohIter == (|fed| - bufsz) % BLOCK
      ensures largeUmash <==> |fed| >= 16
      ensures largeUmash ==> 1 <= bufsz <= 16
      ensures Pending(bufsz) == fed[|fed| - bufsz..]
      ensures |fed| - bufsz >= 16 ==> Front() == fed[|fed| - bufsz - 16..|fed| - bufsz]
    {
      hide Holds, FoldBlocks, Front, Pending;
      var consumed := |fed| - bufsz;
      HeldFields(params, seed, hashWanted != 0, View(), fed, consumed);
      EvenCounter(consumed, ohIter);
      FoldReduced(params.poly0.f, params.oh, seed, fed, consumed / BLOCK, false);
      FoldReduced(params.poly1.f, params.oh, seed, fed, consumed / BLOCK, true);
    }

    lemma EmptyState()
      requires params.Valid() && 0 <= hashWanted <= 2 && buf.Length == 32 && fed == [] && !largeUmash
      requires acc0 == acc1 == ohIter == bufsz == blockSize == 0
      requires ohAcc == prev == twistedAcc == ZERO && lrc == V128(params.oh[32], params.oh[33])
      ensures Valid()
    {
      hide Holds, Front;
      HoldsInitially(params, seed, hashWanted != 0, View(), fed);
    }

    constructor Init(params: Params, seed: u64, which: int)
      requires params.Valid()
      ensures Valid() && fresh(buf) && fed == []
      ensures this.params == params && this.seed == seed
      ensures hashWanted == if which == 0 then 0 else 1
    {
      hide *;
      this.params, this.seed, hashWanted := params, seed, if which == 0 then 0 else 1;
      buf := new byte[32](_ => 0);
      acc0, acc1, ohIter, bufsz, blockSize, largeUmash := 0, 0, 0, 0, 0, false;
      ohAcc, prev, twistedAcc := ZERO, ZERO, ZERO;
      lrc := V128(params.oh[32], params.oh[33]);
      fed := [];
      new;
      EmptyState();
    }

    constructor FpInit(params: Params, seed: u64)
      requires params.Valid()
      ensures Valid() && fresh(buf) && fed == []
      ensures this.params == params && this.seed == seed && hashWanted == 2
    {
      hide *;
      this.params, this.seed, hashWanted := params, seed, 2;
      buf := new byte[32](_ => 0);
      acc0, acc1, ohIter, bufsz, blockSize, largeUmash := 0, 0, 0, 0, 0, false;
      ohAcc, prev, twistedAcc := ZERO, ZERO, ZERO;
      lrc := V128(params.oh[32], params.oh[33]);
      fed := [];
      new;
      EmptyState();
    }

    /** Folds the open block into the polynomial hashes and clears it. */
    method UpdatePoly()
      requires Config()
      modifies this`acc0, this`acc1, this`ohAcc, this`lrc, this`prev, this`twistedAcc
      ensures acc0 == old(HornerDoubleUpdate(acc0, params.poly0.sq, params.poly0.f, ohAcc.lo, ohAcc.hi))
      ensures ohAcc == ZERO
      ensures hashWanted != 0 ==>
                && acc1 == old(HornerDoubleUpdate(acc1, params.poly1.sq, params.poly1.f,
                                                  twistedAcc.lo, twistedAcc.hi))
                && lrc == V128(params.oh[32], params.oh[33])
                && prev == twistedAcc == ZERO
      ensures hashWanted == 0 ==>
                acc1 == old(acc1) && lrc == old(lrc) && prev == old(prev) && twistedAcc == old(twistedAcc)
    {
      hide HornerDoubleUpdate;
      acc0 := HornerDoubleUpdate(acc0, params.poly0.sq, params.poly0.f, ohAcc.lo, ohAcc.hi);
      ohAcc := ZERO;
      if hashWanted == 0 {
        return;
      }
      acc1 := HornerDoubleUpdate(acc1, params.poly1.sq, params.poly1.f, twistedAcc.lo, twistedAcc.hi);
      lrc, prev, twistedAcc := V128(params.oh[32], params.oh[33]), ZERO, ZERO;
    }

    /** A chunk that goes through PH: the block stays open. */
    method ConsumePh(x: u64, y: u64, ghost data: bytes, ghost consumed: nat)
      requires Config() && Holds(params, seed, hashWanted != 0, View(), data, consumed)
      requires consumed % BLOCK < 240 && consumed + 16 <= |data|
      requires V128(x, y) == LoadChunk(data[consumed..consumed + 16])
      modifies this`ohAcc, this`lrc, this`prev, this`twistedAcc
      ensures Holds(params, seed, hashWanted != 0,
                    View().(ohIter := ohIter + 2, blockSize := blockSize + 16), data, consumed + 16)
    {
      hide LoadChunk, PhFold, Lrc, LastPh, DelayedFold, OpenChunks, FoldBlocks, VXor, VShift, Xor,
           Clmul;
      OpenNext(params.oh, data, consumed);
      FoldSnoc(params.oh, OpenChunks(data, consumed), V128(x, y));
      var m0 := Xor64(x, params.oh[ohIter]);
      var m1 := Xor64(y, params.oh[ohIter + 1]);
      VXorLanes(V128(x, y), V128(params.oh[ohIter], params.oh[ohIter + 1]));
      var h := Clmul(m0, m1);
      ohAcc := VXor(ohAcc, h);
      if hashWanted == 0 {
        return;
      }
      VXorLanes(lrc, V128(m0, m1));
      lrc := V128(Xor64(lrc.lo, m0), Xor64(lrc.hi, m1));
      twistedAcc := VXor(twistedAcc, prev);
      twistedAcc := VShift(twistedAcc);
      prev := h;
    }

    /** The last chunk of a block: ENH with the size tag, and the checksum's PH. */
    method ConsumeEnh(x: u64, y: u64, ghost data: bytes, ghost consumed: nat)
      requires Config() && Holds(params, seed, hashWanted != 0, View(), data, consumed)
      requires 1 <= bufsz <= 16 <= consumed + bufsz <= |data|
      requires V128(x, y) == LoadChunk(data[consumed + bufsz - 16..consumed + bufsz])
      modifies this`ohAcc, this`twistedAcc
      ensures |OpenChunks(data, consumed)| < 16
      ensures var cs := OpenChunks(data, consumed) + [V128(x, y)];
              var tag := Xor64(seed, (consumed % BLOCK + bufsz) % 256);
              && ohAcc == OhCompress(params.oh, tag, cs, false)
              && (hashWanted != 0 ==> twistedAcc == OhCompress(params.oh, tag, cs, true))
    {
      hide LoadChunk, PhFold, Lrc, DelayedFold, OpenChunks, VXor, VShift, Xor, Clmul, Enh, Holds,
           OhPrimary, OhSecondary;
      ghost var cs := OpenChunks(data, consumed);
      HeldOpen(params, seed, hashWanted != 0, View(), data, consumed);
      ClosedChunks(data, consumed, bufsz);
      var tag := Xor64(seed, (blockSize + bufsz) % 256);
      CompressSnoc(params.oh, tag, cs, V128(x, y));
      var enhLo, enhHi := EnhChunk(params.oh, ohIter / 2, tag, V128(x, y));
      enhHi := Xor64(enhHi, enhLo);
      if hashWanted != 0 {
        var k := V128(params.oh[ohIter], params.oh[ohIter + 1]);
        var w := VXor(lrc, VXor(V128(x, y), k));
        var lrcHash := Clmul(w.lo, w.hi);
        var oh := VShift(VXor(ohAcc, twistedAcc));
        oh := VXor(oh, lrcHash);
        CloseTwisted(params.oh, tag, cs, V128(x, y));
        twistedAcc := VXor(oh, V128(enhLo, enhHi));
      }
      ohAcc := VXor(ohAcc, V128(enhLo, enhHi));
    }

    /**
     * Consumes a 16-byte chunk, read from the window or from the caller's data. `final` marks the
     * last chunk of the input, which may overlap the one before.
     */
    method ConsumeBuf(chunk: bytes, final: bool, ghost data: bytes, ghost consumed: nat)
      requires Config() && Holds(params, seed, hashWanted != 0, View(), data, consumed)
      requires 1 <= bufsz <= 16 <= consumed + bufsz <= |data|
      requires chunk == data[consumed + bufsz - 16..consumed + bufsz]
      requires if final then consumed + bufsz == |data| else bufsz == 16
      modifies this`acc0, this`acc1, this`ohIter, this`bufsz, this`blockSize, this`ohAcc, this`lrc,
               this`prev, this`twistedAcc, buf
      ensures bufsz == 0
      ensures Front() == chunk && Pending(16) == old(Pending(16))
      ensures !final ==> Holds(params, seed, hashWanted != 0, View(), data, consumed + 16)
      ensures final ==> Finalize(acc0) == LongHash(params.poly0.f, params.oh, seed, data, false)
      ensures final && hashWanted != 0 ==>
                Finalize(acc1) == LongHash(params.poly1.f, params.oh, seed, data, true)
    {
      hide LoadWord, LoadChunk, LongHash, Finalize, Holds, Front, Pending, Closing, FoldBlocks;
      LoadsAgree(chunk);
      HeldFields(params, seed, hashWanted != 0, View(), data, consumed);
      var x, y := LoadWord(chunk[..8]), LoadWord(chunk[8..]);
      if ohIter < 30 && !final {
        ConsumePh(x, y, data, consumed);
      } else {
        CloseChunks(x, y, final, data, consumed);
      }
      MoveToFront(chunk);
      NextChunk(final, data, consumed);
    }

    /** Moves on to the next chunk, in a new block if this one is complete. */
    method NextChunk(final: bool, ghost data: bytes, ghost consumed: nat)
      requires Config() && ohIter <= 30
      requires if ohIter == 30 || final then Closing(final, data, consumed + 16)
               else && bufsz == 16 && blockSize <= 224
                    && Holds(params, seed, hashWanted != 0,
                             View().(ohIter := ohIter + 2, blockSize := blockSize + 16), data, consumed + 16)
      modifies this`acc0, this`acc1, this`ohIter, this`bufsz, this`blockSize, this`ohAcc, this`lrc,
               this`prev, this`twistedAcc
      ensures bufsz == 0
      ensures !final ==> Holds(params, seed, hashWanted != 0, View(), data, consumed + 16)
      ensures final ==> |data| > 8
      ensures final ==> Finalize(acc0) == LongHash(params.poly0.f, params.oh, seed, data, false)
      ensures final && hashWanted != 0 ==>
                Finalize(acc1) == LongHash(params.poly1.f, params.oh, seed, data, true)
    {
      hide Holds, LongHash, Finalize, Closing;
      blockSize := (blockSize + bufsz) % 256;
      bufsz := 0;
      ohIter := ohIter + 2;
      if ohIter == 32 || final {
        EndBlock(final, data, consumed + 16);
      }
    }

    /** The polynomial accumulators are one update away from a finished block, or from the hash. */
    ghost predicate Closing(final: bool, data: bytes, end: nat)
      requires Config()
      reads this`acc0, this`acc1, this`ohAcc, this`twistedAcc
    {
      && Closes(params.poly0, params.oh, seed, acc0, ohAcc, false, final, data, end)
      && (hashWanted != 0 ==> Closes(params.poly1, params.oh, seed, acc1, twistedAcc, true, final, data, end))
    }

    /** The last chunk of a block, full or final. */
    method CloseChunks(x: u64, y: u64, final: bool, ghost data: bytes, ghost consumed: nat)
      requires Config() && Holds(params, seed, hashWanted != 0, View(), data, consumed)
      requires 1 <= bufsz <= 16 <= consumed + bufsz <= |data|
      requires V128(x, y) == LoadChunk(data[consumed + bufsz - 16..consumed + bufsz])
      requires if final then consumed + bufsz == |data| else bufsz == 16 && ohIter == 30
      modifies this`ohAcc, this`twistedAcc
      ensures Closing(final, data, consumed + 16)
    {
      hide LoadChunk, OpenChunks, FoldBlocks, Xor64, LongHash, OhCompress, Finalize,
           HornerDoubleUpdate, Holds;
      HeldFields(params, seed, hashWanted != 0, View(), data, consumed);
      ConsumeEnh(x, y, data, consumed);
      CloseStep(params.poly0, params.oh, seed, data, consumed, bufsz, false, acc0, ohAcc);
      if hashWanted != 0 {
        CloseStep(params.poly1, params.oh, seed, data, consumed, bufsz, true, acc1, twistedAcc);
      }
    }

    /** The open block is complete: its sums go into the polynomial hashes. */
    method EndBlock(final: bool, ghost data: bytes, ghost end: nat)
      requires Config() && Closing(final, data, end)
      modifies this`acc0, this`acc1, this`ohIter, this`blockSize, this`ohAcc, this`lrc, this`prev,
               this`twistedAcc
      ensures !final ==> Holds(params, seed, hashWanted != 0, View(), data, end)
      ensures final ==> |data| > 8
      ensures final ==> Finalize(acc0) == LongHash(params.poly0.f, params.oh, seed, data, false)
      ensures final && hashWanted != 0 ==>
                Finalize(acc1) == LongHash(params.poly1.f, params.oh, seed, data, true)
    {
      hide FoldBlocks, LongHash, Finalize, HornerDoubleUpdate, Holds;
      UpdatePoly();
      blockSize := 0;
      ohIter := 0;
      if !final {
        HoldsAfterBlock(params, seed, hashWanted != 0, View(), data, end);
      }
    }

    /** Keeps the consumed chunk for the read-behind of a later short one. */
    method MoveToFront(chunk: bytes)
      requires buf.Length == 32 && |chunk| == 16
      modifies buf
      ensures Front() == chunk && Pending(16) == old(Pending(16))
    {
      for i := 0 to 16
        invariant buf[..i] == chunk[..i] && buf[16..] == old(buf[16..])
      {
        buf[i] := chunk[i];
      }
    }

    /** Runs the long-input kernels over `nBlocks` full blocks of the caller's data. */
    method BlockKernels(wide: bool, data: bytes, off: nat, nBlocks: nat, ghost prefix: bytes)
      requires Config() && ohIter == 0 && blockSize == 0 && nBlocks > 0
      requires off + BLOCK * nBlocks <= |data|
      requires Holds(params, seed, hashWanted != 0, View(), prefix + data, |prefix| + off)
      modifies this`acc0, this`acc1
      ensures Holds(params, seed, hashWanted != 0, View(), prefix + data,
                    |prefix| + off + nBlocks * BLOCK)
    {
      hide Holds, FoldBlocks;
      ghost var d, start := prefix + data, |prefix| + off;
      HeldFields(params, seed, hashWanted != 0, View(), d, start);
      HeldEmpty(params, seed, hashWanted != 0, View(), d, start);
      FoldContinues(params.poly0.f, params.oh, seed, prefix, data, off, nBlocks, false);
      FoldContinues(params.poly1.f, params.oh, seed, prefix, data, off, nBlocks, true);
      if hashWanted != 0 {
        var poly := FprintMultipleBlocks(wide, (acc0, acc1), params.poly0, params.poly1,
                                         params.oh, seed, data, off, nBlocks);
        acc0, acc1 := poly.0, poly.1;
      } else {
        acc0 := MultipleBlocks(wide, acc0, params.poly0, params.oh, seed, data, off, nBlocks);
      }
      assert (start + nBlocks * BLOCK) / BLOCK == start / BLOCK + nBlocks;
      HoldsAfterBlock(params, seed, hashWanted != 0, View(), d, start + nBlocks * BLOCK);
    }

    /** Hashes one full block of the caller's data in place of the open block. */
    method HashBlock(data: bytes, ptr: nat, ghost prefix: bytes)
      requires Config() && ohIter == 0 && blockSize == 0 && ptr + BLOCK <= |data|
      requires Holds(params, seed, hashWanted != 0, View(), prefix + data, |prefix| + ptr)
      modifies this`acc0, this`acc1, this`ohAcc, this`lrc, this`prev, this`twistedAcc
      ensures Holds(params, seed, hashWanted != 0, View(), prefix + data, |prefix| + ptr + BLOCK)
    {
      hide Holds, FoldBlocks, HornerDoubleUpdate, OhCompress, BlockChunks, PolyStep;
      ghost var d, start := prefix + data, |prefix| + ptr;
      HeldFields(params, seed, hashWanted != 0, View(), d, start);
      HeldEmpty(params, seed, hashWanted != 0, View(), d, start);
      BlockShift(prefix, data, ptr, BLOCK);
      if hashWanted != 0 {
        var h0, h1 := OhVarblockFprint(params.oh, seed, data, ptr, BLOCK);
        ohAcc, twistedAcc := h0, h1;
        NextBlock(params.poly1, params.oh, seed, d, start / BLOCK, true, acc1, h1);
      } else {
        ohAcc := OhVarblock(params.oh, seed, data, ptr, BLOCK);
      }
      NextBlock(params.poly0, params.oh, seed, d, start / BLOCK, false, acc0, ohAcc);
      UpdatePoly();
      HoldsAfterBlock(params, seed, hashWanted != 0, View(), d, start + BLOCK);
    }

    /**
     * Hashes full blocks straight from the caller's data, when no block is open. The last block,
     * partial or not, is left for the caller.
     */
    method BlockUpdate(wide: bool, data: bytes, off: nat, nBytes: nat, ghost prefix: bytes)
      returns (consumed: nat)
      requires Config() && bufsz == 0 && blockSize == 0 && ohIter == 0
      requires nBytes >= BLOCK && off + nBytes == |data|
      requires Holds(params, seed, hashWanted != 0, View(), prefix + data, |prefix| + off)
      modifies this`acc0, this`acc1, this`ohAcc, this`lrc, this`prev, this`twistedAcc
      ensures consumed % BLOCK == 0 && consumed < nBytes <= consumed + BLOCK
      ensures Holds(params, seed, hashWanted != 0, View(), prefix + data, |prefix| + off + consumed)
    {
      hide Holds;
      if nBytes > BLOCK {
        BlockCount(nBytes);
      }
      if nBytes > MULTIPLE_BLOCKS_THRESHOLD {
        var nBlocks := (nBytes - 1) / BLOCK;
        BlockKernels(wide, data, off, nBlocks, prefix);
        return nBlocks * BLOCK;
      }
      consumed := 0;
      var remaining := nBytes;
      while remaining > BLOCK
        invariant consumed + remaining == nBytes && remaining > 0 && consumed % BLOCK == 0
        invariant ohIter == 0 && blockSize == 0
        invariant Holds(params, seed, hashWanted != 0, View(), prefix + data,
                        |prefix| + off + consumed)
      {
        HashBlock(data, off + consumed, prefix);
        consumed := consumed + BLOCK;
        remaining := remaining - BLOCK;
      }
    }

    /** Appends bytes to the `pos` ones that are pending in the second half of the window. */
    method Store(pos: nat, bytes: bytes)
      requires buf.Length == 32 && pos + |bytes| <= 16
      modifies buf
      ensures Pending(pos + |bytes|) == old(Pending(pos)) + bytes
      ensures Front() == old(Front())
    {
      for i := 0 to |bytes|
        invariant buf[16..16 + pos + i] == old(buf[16..16 + pos]) + bytes[..i]
        invariant buf[..16] == old(buf[..16])
      {
        buf[16 + pos + i] := bytes[i];
      }
      assert bytes[..|bytes|] == bytes;
    }

    /** One round of the caller's data: a run of full blocks, or a single chunk. */
    method ConsumeSome(wide: bool, data: bytes, ptr: nat, nBytes: nat, ghost prefix: bytes)
      returns (consumed: nat)
      requires Config() && nBytes > 16 && ptr + nBytes == |data| && bufsz == 0
      requires Holds(params, seed, hashWanted != 0, View(), prefix + data, |prefix| + ptr)
      modifies this`acc0, this`acc1, this`ohIter, this`bufsz, this`blockSize, this`ohAcc, this`lrc,
               this`prev, this`twistedAcc, buf
      ensures 16 <= consumed < nBytes && bufsz == 0
      ensures Holds(params, seed, hashWanted != 0, View(), prefix + data, |prefix| + ptr + consumed)
      ensures Front() == data[ptr + consumed - 16..ptr + consumed]
    {
      hide Holds, Front, Pending, FoldBlocks, LongHash, Finalize;
      HeldFields(params, seed, hashWanted != 0, View(), prefix + data, |prefix| + ptr);
      if ohIter == 0 && nBytes > BLOCK {
        consumed := BlockUpdate(wide, data, ptr, nBytes, prefix);
        MoveToFront(data[ptr + consumed - 16..ptr + consumed]);
      } else {
        consumed := 16;
        bufsz := 16;
        SliceOfSuffix(prefix, data, ptr, ptr + 16);
        ConsumeBuf(data[ptr..ptr + 16], false, prefix + data, |prefix| + ptr);
      }
    }

    /** Consumes the caller's data from `start` up to its last 1 to 16 bytes, which become pending. */
    method ConsumeRest(wide: bool, data: bytes, start: nat, ghost prefix: bytes)
      requires Config() && start < |data| && |prefix| + start >= 16 && bufsz == 0
      requires Holds(params, seed, hashWanted != 0, View(), prefix + data, |prefix| + start)
      requires Front() == (prefix + data)[|prefix| + start - 16..|prefix| + start]
      modifies this`acc0, this`acc1, this`ohIter, this`bufsz, this`blockSize, this`ohAcc, this`lrc,
               this`prev, this`twistedAcc, buf
      ensures 1 <= bufsz <= 16 && bufsz <= |data|
      ensures var consumed := |prefix| + |data| - bufsz;
              && consumed >= 16
              && Holds(params, seed, hashWanted != 0, View(), prefix + data, consumed)
              && Pending(bufsz) == (prefix + data)[consumed..]
              && Front() == (prefix + data)[consumed - 16..consumed]
    {
      hide Holds, Front, Pending;
      ghost var d := prefix + data;
      var ptr, nBytes := start, |data| - start;
      while nBytes > 16
        invariant nBytes > 0 && start <= ptr && ptr + nBytes == |data| && bufsz == 0
        invariant Holds(params, seed, hashWanted != 0, View(), d, |prefix| + ptr)
        invariant Front() == d[|prefix| + ptr - 16..|prefix| + ptr]
      {
        var consumed := ConsumeSome(wide, data, ptr, nBytes, prefix);
        nBytes := nBytes - consumed;
        ptr := ptr + consumed;
        SliceOfSuffix(prefix, data, ptr - 16, ptr);
      }
      SliceOfSuffix(prefix, data, ptr, |data|);
      NothingPending();
      Store(0, data[ptr..]);
      bufsz := nBytes;
    }

    lemma NothingPending()
      requires buf.Length == 32
      ensures Pending(0) == []
    {
    }

    /** Feeds `data` to the sink: afterwards it stands for the old input followed by `data`. */
    method Update(wide: bool, data: bytes)
      requires Valid()
      modifies this, buf
      ensures Valid() && fed == old(fed) + data
    {
      hide Holds, Front, Pending, FoldBlocks, LongHash, Finalize;
      ghost var prefix, start := fed, |fed| - bufsz;
      ghost var d := prefix + data;
      HoldsGrows(params, seed, hashWanted != 0, View(), prefix, data, start);
      PendingGrows(prefix, data, bufsz);
      fed := d;
      var remaining := 16 - bufsz;
      if |data| < remaining {
        Store(bufsz, data);
        bufsz := bufsz + |data|;
        return;
      }
      Store(bufsz, data[..remaining]);
      largeUmash := true;
      bufsz := 16;
      if |data| == remaining {
        return;
      }
      ConsumeBuf(Pending(16), false, d, start);
      ConsumeRest(wide, data, remaining, prefix);
    }

    // -------------------------------------------------------------- digests

    /** Byte-copies a sink, window included. */
    constructor Copy(s: Sink)
      requires s.Valid()
      ensures Valid() && fresh(buf) && fed == s.fed && largeUmash == s.largeUmash
      ensures params == s.params && seed == s.seed && hashWanted == s.hashWanted
    {
      hide *;
      params, seed, hashWanted := s.params, s.seed, s.hashWanted;
      buf := new byte[32](_ => 0);
      acc0, acc1, ohIter, bufsz := s.acc0, s.acc1, s.ohIter, s.bufsz;
      blockSize, largeUmash := s.blockSize, s.largeUmash;
      ohAcc, lrc, prev, twistedAcc := s.ohAcc, s.lrc, s.prev, s.twistedAcc;
      fed := s.fed;
      new;
      s.WindowLength();
      forall i | 0 <= i < 32 {
        buf[i] := s.buf[i];
      }
      SameState(s);
    }

    lemma WindowLength()
      requires Valid()
      ensures buf.Length == 32
    {
      hide Holds;
    }

    lemma SameState(s: Sink)
      requires s.Valid() && buf.Length == 32
      requires params == s.params && seed == s.seed && hashWanted == s.hashWanted
      requires fed == s.fed && bufsz == s.bufsz && largeUmash == s.largeUmash
      requires acc0 == s.acc0 && acc1 == s.acc1 && ohIter == s.ohIter && blockSize == s.blockSize
      requires ohAcc == s.ohAcc && lrc == s.lrc && prev == s.prev && twistedAcc == s.twistedAcc
      requires s.buf.Length == 32 && forall i :: 0 <= i < 32 ==> buf[i] == s.buf[i]
      ensures Valid()
    {
      hide Holds, Front, Pending;
      SameWindow(s);
    }

    lemma SameWindow(s: Sink)
      requires buf.Length == s.buf.Length == 32 && bufsz == s.bufsz <= 16
      requires forall i :: 0 <= i < 32 ==> buf[i] == s.buf[i]
      ensures Front() == s.Front() && Pending(bufsz) == s.Pending(bufsz)
    {
    }

    /** The last 16 bytes of the input end where the pending bytes do. */
    function Tail(): bytes
      requires buf.Length == 32 && bufsz <= 16
      reads this, buf
    {
      buf[bufsz..bufsz + 16]
    }

    lemma TailIsLast16()
      requires Valid() && largeUmash
      ensures Tail() == fed[|fed| - 16..]
    {
      hide Holds, FoldBlocks;
      var consumed := |fed| - bufsz;
      HeldFields(params, seed, hashWanted != 0, View(), fed, consumed);
      TailParts();
      if consumed >= 16 {
        assert fed[|fed| - 16..] == fed[consumed - 16..consumed][bufsz..] + fed[consumed..];
      }
    }

    lemma TailParts()
      requires buf.Length == 32 && 1 <= bufsz <= 16
      ensures Tail() == Front()[bufsz..] + Pending(bufsz)
      ensures bufsz == 16 ==> Tail() == Pending(16)
    {
    }

    /** Pumps the last chunk through: the accumulators then hold the hash of the whole input. */
    method Flush()
      requires Valid() && largeUmash
      modifies this`acc0, this`acc1, this`ohIter, this`bufsz, this`blockSize, this`ohAcc, this`lrc,
               this`prev, this`twistedAcc, buf
      ensures bufsz == 0
      ensures Finalize(acc0) == LongHash(params.poly0.f, params.oh, seed, fed, false)
      ensures hashWanted != 0 ==>
                Finalize(acc1) == LongHash(params.poly1.f, params.oh, seed, fed, true)
    {
      hide Holds, LongHash, Finalize, Front, Pending, Tail;
      if bufsz > 0 {
        TailIsLast16();
        ConsumeBuf(Tail(), true, fed, |fed| - bufsz);
      }
    }

    /** The value of a flushed sink, or of an input of at most 15 bytes. */
    function DigestAt(second: bool): u64
      requires buf.Length == 32 && bufsz <= 16
      reads this, buf
    {
      if largeUmash then Finalize(if second then acc1 else acc0)
      else if bufsz <= 8 then
        UmashShortFused(if second then params.oh[OH_SHORT_HASH_SHIFT..] else params.oh, seed,
                        Pending(bufsz))
      else UmashMedium(if second then params.poly1 else params.poly0, params.oh, seed,
                       Pending(bufsz))
    }

    /** The fingerprint of everything fed so far; the sink itself does not change. */
    method FpDigestSink() returns (fp: (u64, u64))
      requires Valid() && hashWanted != 0
      ensures fp.0 == Hash(params.poly0.f, params.oh, seed, fed, false)
      ensures fp.1 == Hash(params.poly1.f, params.oh, seed, fed, true)
    {
      hide Holds, LongHash, Finalize, UmashFpShort, UmashFpMedium, UmashShort, UmashMedium;
      if largeUmash {
        var copy := new Sink.Copy(this);
        copy.Flush();
        return (copy.DigestAt(false), copy.DigestAt(true));
      }
      if bufsz <= 8 {
        ShortVariantsAgree(params.oh, seed, fed);
        return UmashFpShort(params.oh, seed, Pending(bufsz));
      }
      FpMediumIsLong(params, seed, fed);
      return UmashFpMedium(params, seed, Pending(bufsz));
    }

    /** The hash of everything fed so far; the sink itself does not change. */
    method Digest() returns (h: u64)
      requires Valid()
      ensures h == if hashWanted == 1 then Hash(params.poly1.f, params.oh, seed, fed, true)
                   else Hash(params.poly0.f, params.oh, seed, fed, false)
    {
      hide Holds, LongHash, Finalize, UmashFpShort, UmashShort, UmashShortFused, UmashMedium;
      if hashWanted == 1 {
        var fp := FpDigestSink();
        return fp.1;
      }
      if largeUmash {
        var copy := new Sink.Copy(this);
        copy.Flush();
        return copy.DigestAt(false);
      }
      if bufsz <= 8 {
        ShortVariantsAgree(params.oh, seed, fed);
      } else {
        MediumIsLong(params.poly0, params.oh, seed, fed);
      }
      h := DigestAt(false);
    }
  }

  lemma SliceOfSuffix(prefix: bytes, data: bytes, a: nat, b: nat)
    requires a <= b <= |data|
    ensures (prefix + data)[|prefix| + a..|prefix| + b] == data[a..b]
  {
  }

  /** The pending bytes of a longer input. */
  lemma PendingGrows(prefix: bytes, data: bytes, b: nat)
    requires b <= |prefix| && b <= 16
    ensures (prefix + data)[|prefix| - b..] == prefix[|prefix| - b..] + data
    ensures |data| >= 16 - b ==>
              (prefix + data)[|prefix| - b..|prefix| - b + 16]
              == prefix[|prefix| - b..] + data[..16 - b]
    ensures |prefix| - b >= 16 ==>
              (prefix + data)[|prefix| - b - 16..|prefix| - b]
              == prefix[|prefix| - b - 16..|prefix| - b]
  {
  }
}
