/** The reference program: loops over 128-bit integers, each proved against the specification. */
module Reference {
  import opened Words
  import opened ModArith
  import opened CarryLess
  import opened Lanes
  import opened Bytes
  import opened Oh
  import opened Umash
  import opened Finalizer
  import opened ShortHash

  /** A 16-byte piece of the input. */
  type chunk = s: bytes | |s| == 16 witness seq(16, i => 0)

  // ---------------------------------------------------------------- bit loops

  method Gfmul(x: u64, y: u64) returns (ret: nat)
    ensures ret == GfMul(x, y)
  {
    hide Bit, Xor, Low, GfMul, Pow2;
    ret := 0;
    LowEnds(x, y);
    for i := 0 to 64
      invariant ret == GfMul(Low(x, i), y)
    {
      GfMulLoopStep(x, y, i);
      if Bit(x, i) {
        ret := Xor(ret, y * Pow2(i));
      }
    }
  }

  lemma LowEnds(x: u64, y: u64)
    ensures Low(x, 64) == x && GfMul(Low(x, 0), y) == 0
  {
    Pow2Values();
    assert Low(x, 0) == 0;
  }

  lemma {:induction false} Pow2Bit(k: nat, j: nat)
    ensures Bit(Pow2(k), j) == (j == k)
    decreases k
  {
    if k == 0 {
      if j > 0 {
        ZeroBit(j - 1);
      }
    } else if j > 0 {
      Pow2Bit(k - 1, j - 1);
    }
  }

  /** Where bit `j` of the rotated word comes from. */
  function Origin(j: nat, count: nat): nat
    requires j < 64
  {
    if j < count % 64 then j + 64 - count % 64 else j - count % 64
  }

  /** Rotates bit by bit; the bit being set is still clear, so `or` is exclusive or. */
  method RotlLoop(x: u64, count: nat) returns (ret: u64)
    ensures ret == Rotl(x, count % 64)
  {
    hide Bit, Xor, Pow2, Rotl;
    ret := 0;
    forall j: nat | j < 64 ensures !Bit(0, j) { ZeroBit(j); }
    for i := 0 to 64
      invariant forall j: nat :: j < 64 ==>
                  Bit(ret, j) == (Origin(j, count) < i && Bit(x, Origin(j, count)))
    {
      if Bit(x, i) {
        var pos := (i + count) % 64;
        Pow2Values();
        PowBelow(pos, 64);
        forall j: nat | j < 64
          ensures Bit(Xor(ret, Pow2(pos)), j) == (Bit(ret, j) != (j == pos))
          ensures j == pos <==> Origin(j, count) == i
        {
          XorBit(ret, Pow2(pos), j);
          Pow2Bit(pos, j);
        }
        ret := Xor64(ret, Pow2(pos));
      }
    }
    forall j: nat | j < 64 ensures Bit(ret, j) == Bit(Rotl(x, count % 64), j) {
      RotlBit(x, count % 64, j);
    }
    WordsEq(ret, Rotl(x, count % 64));
  }

  lemma PowBelow(a: nat, b: nat)
    requires a < b
    ensures Pow2(a) < Pow2(b)
  {
    Pow2Le(a + 1, b);
  }

  method FinalizeLoop(x: u64) returns (r: u64)
    ensures r == Finalize(x)
  {
    hide Rotl, Xor;
    var a := RotlLoop(x, 8);
    var b := RotlLoop(x, 33);
    r := Xor64(Xor64(x, a), b);
  }

  // ---------------------------------------------------------------- chunks and blocks

  /** The `k`th chunk of an input, and how many new bytes it brings. */
  function ChunkOf(buf: bytes, k: nat): (chunk, nat)
    requires |buf| >= 8 && 16 * k < |buf|
  {
    var n := |buf|;
    if n < 16 then (buf[..8] + buf[n - 8..], n)
    else if 16 * k + 16 <= n then (buf[16 * k..16 * k + 16], 16)
    else (buf[n - 16..], n - 16 * k)
  }

  method ChunkBytes(buf: bytes) returns (chunks: seq<(chunk, nat)>)
    requires |buf| >= 8
    ensures |chunks| == (|buf| - 1) / 16 + 1
    ensures forall k :: 0 <= k < |chunks| ==> chunks[k] == ChunkOf(buf, k)
  {
    var n := |buf|;
    if n < 16 {
      return [(buf[..8] + buf[n - 8..], n)];
    }
    chunks := [];
    var i := 0;
    while i < n
      invariant i == 16 * |chunks| && i < n + 16
      invariant forall k :: 0 <= k < |chunks| ==> chunks[k] == ChunkOf(buf, k)
    {
      if i + 16 <= n {
        chunks := chunks + [(buf[i..i + 16], 16)];
      } else {
        chunks := chunks + [(buf[n - 16..], n - i)];
      }
      i := i + 16;
    }
  }

  /** The bytes of the chunks with indices from `a` below `b`. */
  function Slice(chunks: seq<(chunk, nat)>, a: nat, b: nat): (s: seq<chunk>)
    requires a <= b <= |chunks|
    ensures |s| == b - a
    decreases b
  {
    if a == b then [] else Slice(chunks, a, b - 1) + [chunks[b - 1].0]
  }

  function SizeSum(chunks: seq<(chunk, nat)>, a: nat, b: nat): nat
    requires a <= b <= |chunks|
    decreases b
  {
    if a == b then 0 else SizeSum(chunks, a, b - 1) + chunks[b - 1].1
  }

  function Min(a: nat, b: nat): nat {
    if a < b then a else b
  }

  /** Block `j`: up to 16 chunks and the number of bytes that they stand for. */
  function BlockOf(chunks: seq<(chunk, nat)>, j: nat): (seq<chunk>, nat)
    requires 16 * j < |chunks|
  {
    var end := Min(16 * j + 16, |chunks|);
    (Slice(chunks, 16 * j, end), SizeSum(chunks, 16 * j, end))
  }

  method BlockifyChunks(chunks: seq<(chunk, nat)>) returns (blocks: seq<(seq<chunk>, nat)>)
    requires chunks != []
    ensures |blocks| == (|chunks| - 1) / 16 + 1
    ensures forall j :: 0 <= j < |blocks| ==> blocks[j] == BlockOf(chunks, j)
  {
    blocks := [];
    var acc: seq<chunk> := [];
    var size := 0;
    for i := 0 to |chunks|
      invariant |acc| <= 16 && i == 16 * |blocks| + |acc| && (i > 0 ==> acc != [])
      invariant acc == Slice(chunks, 16 * |blocks|, i)
      invariant size == SizeSum(chunks, 16 * |blocks|, i)
      invariant forall j :: 0 <= j < |blocks| ==> blocks[j] == BlockOf(chunks, j)
    {
      var (c, chunkSize) := chunks[i];
      if |acc| == 16 {
        blocks := blocks + [(acc, size)];
        acc, size := [], 0;
      }
      acc := acc + [c];
      size := size + chunkSize;
    }
    blocks := blocks + [(acc, size)];
  }

  // ---------------------------------------------------------------- chunks against the specification

  function Load(cs: seq<chunk>): (vs: seq<V128>)
    ensures |vs| == |cs|
  {
    if cs == [] then [] else Load(cs[..|cs| - 1]) + [LoadChunk(cs[|cs| - 1])]
  }

  lemma LoadSnoc(cs: seq<chunk>, c: chunk)
    ensures Load(cs + [c]) == Load(cs) + [LoadChunk(c)]
  {
    hide LoadChunk;
    assert (cs + [c])[..|cs|] == cs;
  }

  /** The chunk stream of an input of at least 8 bytes. */
  ghost predicate ChunkStream(buf: bytes, chunks: seq<(chunk, nat)>) {
    && |buf| >= 8
    && |chunks| == (|buf| - 1) / 16 + 1
    && forall k :: 0 <= k < |chunks| ==> chunks[k] == ChunkOf(buf, k)
  }

  /** Runs of whole chunks are what the batch code reads in place. */
  lemma {:induction false} WholeChunks(buf: bytes, chunks: seq<(chunk, nat)>, a: nat, m: nat)
    requires ChunkStream(buf, chunks) && 16 * (a + m) <= |buf|
    ensures a + m <= |chunks|
    ensures Load(Slice(chunks, a, a + m)) == ChunksAt(buf, 16 * a, m)
    ensures SizeSum(chunks, a, a + m) == 16 * m
    decreases m
  {
    hide LoadChunk;
    if m > 0 {
      WholeChunks(buf, chunks, a, m - 1);
      assert chunks[a + m - 1] == ChunkOf(buf, a + m - 1);
      assert chunks[a + m - 1] == (buf[16 * (a + m - 1)..16 * (a + m)], 16);
      LoadSnoc(Slice(chunks, a, a + m - 1), chunks[a + m - 1].0);
    }
  }

  lemma ShortChunk(buf: bytes)
    requires 8 <= |buf| < 16
    ensures LoadChunk(buf[..8] + buf[|buf| - 8..]) == TailChunk(buf, |buf|)
  {
    hide LoadWord;
    var c := buf[..8] + buf[|buf| - 8..];
    assert c[..8] == buf[..8] && c[8..] == buf[|buf| - 8..|buf|];
  }

  lemma LastChunk(buf: bytes)
    requires |buf| >= 8
    ensures LoadChunk(ChunkOf(buf, (|buf| - 1) / 16).0) == TailChunk(buf, |buf|)
    ensures ChunkOf(buf, (|buf| - 1) / 16).1 == |buf| - 16 * ((|buf| - 1) / 16)
  {
    hide LoadChunk, LoadWord;
    var n := |buf|;
    if n < 16 {
      ShortChunk(buf);
    } else {
      assert buf[n - 16..] == buf[n - 16..n];
    }
  }

  lemma FullBlockAgrees(buf: bytes, chunks: seq<(chunk, nat)>, j: nat)
    requires ChunkStream(buf, chunks) && BLOCK * (j + 1) <= |buf|
    ensures 16 * j + 16 <= |chunks|
    ensures BlockOf(chunks, j).1 == BLOCK
    ensures Load(BlockOf(chunks, j).0) == BlockChunks(buf, BLOCK * j, BLOCK)
  {
    hide LoadChunk, ChunksAt, Slice, SizeSum, ChunkStream, Load, BlockChunks;
    WholeChunks(buf, chunks, 16 * j, 16);
    FullBlockChunks(buf, BLOCK * j);
  }

  lemma PartialBlockAgrees(buf: bytes, chunks: seq<(chunk, nat)>, j: nat, n: nat)
    requires ChunkStream(buf, chunks) && BLOCK * j + n == |buf| && 1 <= n <= BLOCK
    ensures 16 * j + (n - 1) / 16 + 1 == |chunks|
    ensures BlockOf(chunks, j).1 == n
    ensures Load(BlockOf(chunks, j).0) == BlockChunks(buf, BLOCK * j, n)
  {
    hide LoadChunk, ChunksAt, ChunkOf, TailChunk, Load;
    var m := (n - 1) / 16;
    assert (|buf| - 1) / 16 == 16 * j + m;
    WholeChunks(buf, chunks, 16 * j, m);
    LastChunk(buf);
    assert chunks[16 * j + m] == ChunkOf(buf, 16 * j + m);
    LoadSnoc(Slice(chunks, 16 * j, 16 * j + m), chunks[16 * j + m].0);
  }

  /** Block by block, the two streams are the specified chunks and sizes. */
  lemma BlocksAgree(buf: bytes, chunks: seq<(chunk, nat)>, j: nat)
    requires ChunkStream(buf, chunks) && BLOCK * j < |buf|
    ensures 16 * j < |chunks|
    ensures var n := Min(BLOCK, |buf| - BLOCK * j);
            && BLOCK * j + n >= 8
            && BlockOf(chunks, j).1 == n
            && Load(BlockOf(chunks, j).0) == BlockChunks(buf, BLOCK * j, n)
  {
    hide BlockOf, Load, BlockChunks;
    if BLOCK * (j + 1) <= |buf| {
      FullBlockAgrees(buf, chunks, j);
    } else {
      PartialBlockAgrees(buf, chunks, j, |buf| - BLOCK * j);
    }
  }

  // ---------------------------------------------------------------- OH on 128-bit integers

  function W2(): nat {
    W * W
  }

  /** ENH as the reference computes it: the tag only has a high half. */
  function EnhInt(xa: u64, xb: u64, tag: nat): nat {
    ProductNonNegative(xa, xb);
    var enh := (xa * xb + tag) % W2();
    Xor(enh, enh % W * W)
  }

  lemma ProductNonNegative(x: nat, y: nat)
    ensures x * y >= 0
  {
  }

  /** Adding the tag to the high half does not carry out of its lane. */
  lemma TagAdds(lo: u64, hi: u64, t: u64)
    ensures (lo + W * hi + t * W) % W2() == lo + W * ((hi + t) % W)
  {
    var q := (hi + t) / W;
    assert hi + t == (hi + t) % W + W * q;
    assert lo + W * hi + t * W == lo + W * ((hi + t) % W) + W2() * q;
    DivModUnique(q, lo + W * ((hi + t) % W), W2());
  }

  /** Folding the low half into the high one, on the integer and on its lanes. */
  lemma FoldJoins(p: V128, t: u64)
    ensures var enh := (Join(p) + t * W) % W2();
            Xor(enh, enh % W * W) == Join(Fold(p, t))
  {
    hide Xor, Pow2;
    var h := (p.hi + t) % W;
    TagAdds(p.lo, p.hi, t);
    DivModUnique(h, p.lo, W);
    Pow2Values();
    XorSplit(p.lo, 0, h, p.lo, 64);
    XorZero(p.lo);
  }

  lemma EnhJoins(key: OhKey, i: nat, c: V128, t: u64)
    requires i < 16
    ensures EnhInt((c.lo + key[2 * i]) % W, (c.hi + key[2 * i + 1]) % W, t * W)
         == Join(Enh(key, i, c, t))
  {
    hide Xor, Fold, Product;
    FoldJoins(Product((c.lo + key[2 * i]) % W, (c.hi + key[2 * i + 1]) % W), t);
  }

  /** The mixed chunks of a block: PH values, ENH, and the checksum's PH for the secondary hash. */
  ghost predicate Mixes(key: OhKey, cs: Chunks, t: u64, secondary: bool, mixed: seq<nat>)
    requires cs != []
  {
    var n := |cs|;
    && |mixed| == (if secondary then n + 1 else n)
    && (forall i :: 0 <= i < n - 1 ==> mixed[i] == Join(Ph(key, i, cs[i])))
    && mixed[n - 1] == Join(Enh(key, n - 1, cs[n - 1], t))
    && (secondary ==> mixed[n] == Join(LrcPh(key, cs)))
  }

  method OhMixOneBlock(key: OhKey, block: seq<chunk>, tag: nat, secondary: bool, ghost t: u64)
    returns (mixed: seq<nat>)
    requires 1 <= |block| <= 16 && tag == t * W
    ensures Mixes(key, Load(block), t, secondary, mixed)
  {
    hide Ph, Enh, Clmul, LoadChunk, EnhInt, Join, Xor, GfMul;
    ghost var cs := Load(block);
    mixed := [];
    var lrc := (0, 0);
    LrcAtStart(key);
    for i := 0 to |block|
      invariant |mixed| == i
      invariant forall k :: 0 <= k < i && k < |cs| - 1 ==> mixed[k] == Join(Ph(key, k, cs[k]))
      invariant i == |cs| ==> mixed[i - 1] == Join(Enh(key, i - 1, cs[i - 1], t))
      invariant V128(Xor64(lrc.0, key[32]), Xor64(lrc.1, key[33])) == Lrc(key, cs[..i])
    {
      var ka, kb := key[2 * i], key[2 * i + 1];
      var v := LoadChunk(block[i]);
      LoadAt(block, i);
      LrcStep(key, cs, i, lrc.0, lrc.1);
      var (xa, xb) := (v.lo, v.hi);
      lrc := (Xor64(lrc.0, Xor64(ka, xa)), Xor64(lrc.1, Xor64(kb, xb)));
      if i < |block| - 1 {
        PhJoins(key, i, v);
        var p := Gfmul(Xor64(xa, ka), Xor64(xb, kb));
        mixed := mixed + [p];
      } else {
        EnhJoins(key, i, v, t);
        mixed := mixed + [EnhInt((xa + ka) % W, (xb + kb) % W, tag)];
      }
    }
    assert cs[..|cs|] == cs;
    if secondary {
      JoinClmul(Lrc(key, cs).lo, Lrc(key, cs).hi);
      var p := Gfmul(Xor64(lrc.0, key[32]), Xor64(lrc.1, key[33]));
      mixed := mixed + [p];
    }
  }

  lemma {:induction false} LoadAt(cs: seq<chunk>, i: nat)
    requires i < |cs|
    ensures Load(cs)[i] == LoadChunk(cs[i])
    decreases |cs|
  {
    hide LoadChunk;
    if i < |cs| - 1 {
      LoadAt(cs[..|cs| - 1], i);
    }
  }

  lemma LrcAtStart(key: OhKey)
    ensures V128(Xor64(0, key[32]), Xor64(0, key[33])) == Lrc(key, [])
  {
    hide Xor;
    XorZero(key[32]);
    XorZero(key[33]);
  }

  /** The twisting words come in last here, and first in the machine. */
  lemma LrcStep(key: OhKey, cs: Chunks, i: nat, a: u64, b: u64)
    requires i < |cs|
    requires V128(Xor64(a, key[32]), Xor64(b, key[33])) == Lrc(key, cs[..i])
    ensures V128(Xor64(Xor64(a, Xor64(key[2 * i], cs[i].lo)), key[32]),
                 Xor64(Xor64(b, Xor64(key[2 * i + 1], cs[i].hi)), key[33]))
         == Lrc(key, cs[..i + 1])
  {
    hide Xor;
    var c := cs[i];
    assert cs[..i + 1] == cs[..i] + [c];
    assert cs[..i + 1][..i] == cs[..i];
    LateWord(a, key[2 * i], c.lo, key[32]);
    LateWord(b, key[2 * i + 1], c.hi, key[33]);
  }

  lemma LateWord(a: u64, k: u64, x: u64, t: u64)
    ensures Xor64(Xor64(a, Xor64(k, x)), t) == Xor64(Xor64(a, t), Xor64(x, k))
  {
    hide Xor;
    XorComm(k, x);
    XorAssoc(a, Xor(x, k), t);
    XorComm(Xor(x, k), t);
    XorAssoc(a, t, Xor(x, k));
  }

  lemma PhJoins(key: OhKey, i: nat, v: V128)
    requires i < 16
    ensures GfMul(Xor64(v.lo, key[2 * i]), Xor64(v.hi, key[2 * i + 1])) == Join(Ph(key, i, v))
  {
    hide GfMul, Xor;
    JoinClmul(Xor64(v.lo, key[2 * i]), Xor64(v.hi, key[2 * i + 1]));
  }

  // ---------------------------------------------------------------- shuffling integers

  /** Shifts both halves of a 128-bit integer. */
  function ParallelShift(x: nat, s: nat): nat {
    var lo, hi := x % W, x / W;
    Shl(lo, s) + W * Shl(hi, s)
  }

  function ShuffleInt(x: nat, i: nat, n: nat): nat
    requires i <= n
  {
    var shift := n - i;
    if shift == 0 then x
    else if shift == 1 then ParallelShift(x, 1)
    else Xor(ParallelShift(x, shift), ParallelShift(x, 1))
  }

  lemma ParallelShiftJoins(v: V128, s: nat)
    ensures ParallelShift(Join(v), s) == Join(VShl(v, s))
  {
    hide Shl;
    DivModUnique(v.hi, v.lo, W);
  }

  lemma ShuffleJoins(v: V128, i: nat, n: nat)
    requires i <= n
    ensures ShuffleInt(Join(v), i, n) == Join(Shuffle(v, i, n))
  {
    hide ParallelShift, VShl, VXor, Xor, Join;
    ParallelShiftJoins(v, 1);
    ParallelShiftJoins(v, n - i);
    JoinXor(VShl(v, n - i), VShl(v, 1));
  }

  // ---------------------------------------------------------------- compression

  method OhCompressOneBlock(key: OhKey, block: seq<chunk>, tag: nat, secondary: bool, ghost t: u64)
    returns (acc: nat)
    requires 1 <= |block| <= 16 && tag == t * W
    ensures acc == Join(OhCompress(key, t, Load(block), secondary))
  {
    hide Ph, Enh, Join, Xor, VXor, LrcPh, Load, Shuffle, ShuffleInt, PhFold, ShuffleFold;
    ghost var cs: Chunks := Load(block);
    var mixed := OhMixOneBlock(key, block, tag, secondary, t);
    if !secondary {
      acc := 0;
      PrimaryStart(key, cs);
      for i := 0 to |mixed|
        invariant i < |cs| ==> acc == Join(PhFold(key, cs[..i]))
        invariant i == |cs| ==> acc == Join(OhPrimary(key, t, cs))
      {
        JoinXor(PhFold(key, cs[..i]), if i < |cs| - 1 then Ph(key, i, cs[i]) else Enh(key, i, cs[i], t));
        PhFoldNext(key, cs, i);
        acc := Xor(acc, mixed[i]);
      }
      return;
    }
    var n := |mixed| - 1;
    acc := mixed[n];
    SecondaryStart(key, cs);
    for i := 0 to n
      invariant i < |cs| ==> acc == Join(VXor(ShuffleFold(key, cs[..i], n), LrcPh(key, cs)))
      invariant i == |cs| ==> acc == Join(OhSecondary(key, t, cs))
    {
      ghost var v := if i < |cs| - 1 then Ph(key, i, cs[i]) else Enh(key, i, cs[i], t);
      ShuffleJoins(v, i + 1, n);
      JoinXor(VXor(ShuffleFold(key, cs[..i], n), LrcPh(key, cs)), Shuffle(v, i + 1, n));
      ShuffleFoldNext(key, cs, i, t);
      acc := Xor(acc, ShuffleInt(mixed[i], i + 1, n));
    }
  }

  lemma PrimaryStart(key: OhKey, cs: Chunks)
    ensures Join(PhFold(key, cs[..0])) == 0
  {
  }

  lemma PhFoldNext(key: OhKey, cs: Chunks, i: nat)
    requires i < |cs|
    ensures PhFold(key, cs[..i + 1]) == VXor(PhFold(key, cs[..i]), Ph(key, i, cs[i]))
  {
    hide Ph, VXor;
    assert cs[..i + 1][..i] == cs[..i];
  }

  lemma SecondaryStart(key: OhKey, cs: Chunks)
    requires cs != []
    ensures VXor(ShuffleFold(key, cs[..0], |cs|), LrcPh(key, cs)) == LrcPh(key, cs)
  {
    hide LrcPh, VXor;
    VXorZero(LrcPh(key, cs));
  }

  /** The checksum's PH was there first; the shuffled values come in one by one. */
  lemma ShuffleFoldNext(key: OhKey, cs: Chunks, i: nat, t: u64)
    requires i < |cs|
    ensures i < |cs| - 1 ==>
              VXor(VXor(ShuffleFold(key, cs[..i], |cs|), LrcPh(key, cs)),
                   Shuffle(Ph(key, i, cs[i]), i + 1, |cs|))
              == VXor(ShuffleFold(key, cs[..i + 1], |cs|), LrcPh(key, cs))
    ensures i == |cs| - 1 ==>
              VXor(VXor(ShuffleFold(key, cs[..i], |cs|), LrcPh(key, cs)),
                   Shuffle(Enh(key, i, cs[i], t), i + 1, |cs|))
              == OhSecondary(key, t, cs)
  {
    hide Ph, LrcPh, VXor, Enh, VShl;
    var s, l := ShuffleFold(key, cs[..i], |cs|), LrcPh(key, cs);
    if i < |cs| - 1 {
      assert cs[..i + 1][..i] == cs[..i];
      var p := Shuffle(Ph(key, i, cs[i]), i + 1, |cs|);
      VXorAssoc(s, l, p);
      VXorComm(l, p);
      VXorAssoc(s, p, l);
    }
  }

  /** Compresses every block under the seed and the block's size. */
  method OhCompressAll(key: OhKey, seed: u64, blocks: seq<(seq<chunk>, nat)>, secondary: bool)
    returns (values: seq<nat>)
    requires forall j :: 0 <= j < |blocks| ==> 1 <= |blocks[j].0| <= 16
    ensures |values| == |blocks|
    ensures forall j :: 0 <= j < |blocks| ==>
              values[j] == Join(OhCompress(key, Tag(seed, blocks[j].1), Load(blocks[j].0), secondary))
  {
    hide OhCompress, Join, Load, Xor;
    values := [];
    for j := 0 to |blocks|
      invariant |values| == j
      invariant forall k :: 0 <= k < j ==>
          values[k] == Join(OhCompress(key, Tag(seed, blocks[k].1), Load(blocks[k].0), secondary))
    {
      var sizeTag := blocks[j].1 % 256;
      var tag := Xor64(seed, sizeTag) * W;
      var v := OhCompressOneBlock(key, blocks[j].0, tag, secondary, Xor64(seed, sizeTag));
      values := values + [v];
    }
  }

  // ---------------------------------------------------------------- polynomial and hash

  /** `ys` are the lanes of the 128-bit values. */
  method PolyReduceLoop(multiplier: Field, values: seq<nat>, initial: nat, ghost ys: seq<V128>)
    returns (acc: nat)
    requires |ys| == |values| && forall i :: 0 <= i < |ys| ==> values[i] == Join(ys[i])
    ensures acc == PolyReduce(multiplier, ys, initial)
  {
    var mulsq := multiplier * multiplier % P;
    acc := initial;
    hide PolyStep;
    assert ys[..0] == [];
    for i := 0 to |values|
      invariant acc == PolyReduce(multiplier, ys[..i], initial)
    {
      var lo, hi := values[i] % W, values[i] / W;
      DivModUnique(ys[i].hi, ys[i].lo, W);
      assert ys[..i + 1] == ys[..i] + [ys[i]];
      PolySnoc(multiplier, ys[..i], ys[i], initial);
      acc := OneUpdate(multiplier, mulsq, acc, lo, hi);
    }
    assert ys[..|ys|] == ys;
  }

  /** The update, with the program's own check that it is right in the field. */
  method OneUpdate(multiplier: Field, mulsq: nat, acc: nat, y0: u64, y1: u64) returns (r: nat)
    requires mulsq == Square(multiplier)
    ensures r == PolyStep(multiplier, acc, V128(y0, y1))
  {
    PolyStepField(multiplier, acc, V128(y0, y1));
    var reference := multiplier * (multiplier * (acc + y0) + y1) % P;
    r := (mulsq * (acc + y0) + multiplier * y1) % M;
    assert r % P == reference;
  }

  method UmashLong(f: Field, key: OhKey, seed: u64, buf: bytes, secondary: bool)
    returns (h: u64)
    requires |buf| > 8
    ensures h == LongHash(f, key, seed, buf, secondary)
  {
    hide OhCompress, Join, Load, Tag, PolyReduce, Finalize, BlockOf, BlockChunks, ChunkOf;
    var chunks := ChunkBytes(buf);
    var blocks := BlockifyChunks(chunks);
    forall j | 0 <= j < |blocks|
      ensures 1 <= |blocks[j].0| <= 16
    {
      BlockNonempty(chunks, j);
    }
    var values := OhCompressAll(key, seed, blocks, secondary);
    ghost var ys := OhOutputs(key, seed, buf, secondary);
    forall j | 0 <= j < |ys|
      ensures values[j] == Join(ys[j])
    {
      BlocksAgree(buf, chunks, j);
      OutputAt(key, seed, buf, secondary, j);
    }
    var acc := PolyReduceLoop(f, values, 0, ys);
    h := FinalizeLoop(acc);
  }

  lemma BlockNonempty(chunks: seq<(chunk, nat)>, j: nat)
    requires 16 * j < |chunks|
    ensures 1 <= |BlockOf(chunks, j).0| <= 16
  {
  }

  lemma {:induction false} FullBlockAt(key: OhKey, seed: u64, data: bytes, q: nat, secondary: bool,
                                       j: nat)
    requires j < q && BLOCK * q <= |data|
    ensures FullBlocks(key, seed, data, 0, q, secondary)[j]
         == BlockOh(key, seed, data, BLOCK * j, BLOCK, secondary)
    decreases q
  {
    hide BlockOh;
    if j < q - 1 {
      FullBlockAt(key, seed, data, q - 1, secondary, j);
    }
  }

  lemma OutputAt(key: OhKey, seed: u64, data: bytes, secondary: bool, j: nat)
    requires |data| > 8 && j < (|data| - 1) / BLOCK + 1
    ensures BLOCK * j < |data|
    ensures OhOutputs(key, seed, data, secondary)[j]
         == BlockOh(key, seed, data, BLOCK * j, Min(BLOCK, |data| - BLOCK * j), secondary)
  {
    hide BlockOh;
    var q := (|data| - 1) / BLOCK;
    if j < q {
      FullBlockAt(key, seed, data, q, secondary, j);
    }
  }

  method ReferenceHash(f: Field, key: OhKey, seed: u64, buf: bytes, secondary: bool) returns (h: u64)
    ensures h == Hash(f, key, seed, buf, secondary)
  {
    hide UmashShort, LongHash;
    if |buf| <= 8 {
      return UmashShort(if secondary then key[OH_SHORT_HASH_SHIFT..] else key, seed, buf);
    }
    h := UmashLong(f, key, seed, buf, secondary);
  }
}
