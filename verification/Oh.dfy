/**
 * The OH block compressor on loaded 16-byte chunks, in the closed form of the reference: PH for
 * every chunk but the last, ENH for the last, and a shuffled sum with a checksum for the
 * secondary hash.
 */
module Oh {
  import opened Words
  import opened CarryLess
  import opened Lanes

  /** 32 OH words, then the two twisting words of the secondary compressor. */
  type OhKey = k: seq<u64> | |k| == 34 witness seq(34, i => 0)

  /** Up to 16 chunks. */
  type Chunks = cs: seq<V128> | |cs| <= 16

  function Whiten(key: OhKey, i: nat, c: V128): V128
    requires i < 16
  {
    VXor(c, V128(key[2 * i], key[2 * i + 1]))
  }

  function Ph(key: OhKey, i: nat, c: V128): V128
    requires i < 16
  {
    Clmul(Whiten(key, i, c).lo, Whiten(key, i, c).hi)
  }

  /** The NH product plus the tag in its high half, with the low half folded into the high. */
  function Enh(key: OhKey, i: nat, c: V128, tag: u64): V128
    requires i < 16
  {
    Fold(Nh(key, i, c), tag)
  }

  /** The 128-bit product of the two keyed words, as lanes. */
  function Nh(key: OhKey, i: nat, c: V128): V128
    requires i < 16
  {
    Product((c.lo + key[2 * i]) % W, (c.hi + key[2 * i + 1]) % W)
  }

  function Product(x: u64, y: u64): (r: V128)
    ensures Join(r) == x * y
  {
    var (hi, lo) := Mul128(x, y);
    V128(lo, hi)
  }

  function Fold(x: V128, tag: u64): V128 {
    V128(x.lo, Xor64((x.hi + tag) % W, x.lo))
  }

  /** Both lanes of PH together: the carry-less product of the two whitened words. */
  lemma PhValue(key: OhKey, i: nat, c: V128)
    requires i < 16
    ensures Ph(key, i, c).lo + W * Ph(key, i, c).hi == GfMul(Xor(c.lo, key[2 * i]), Xor(c.hi, key[2 * i + 1]))
  {
    hide GfMul, Xor, Clmul;
    JoinClmul(Whiten(key, i, c).lo, Whiten(key, i, c).hi);
  }

  /** The lanes of ENH: the tag goes into the high half of the product, and the low half on top. */
  lemma EnhValue(key: OhKey, i: nat, c: V128, tag: u64)
    requires i < 16
    ensures var x, y := (c.lo + key[2 * i]) % W, (c.hi + key[2 * i + 1]) % W;
            && Enh(key, i, c, tag).lo == x * y % W
            && Enh(key, i, c, tag).hi == Xor((x * y / W + tag) % W, x * y % W)
  {
    hide Xor;
  }

  /** Exclusive or of the PH values of all the chunks. */
  function PhFold(key: OhKey, cs: Chunks): V128 {
    if cs == [] then ZERO
    else var m := |cs| - 1; VXor(PhFold(key, cs[..m]), Ph(key, m, cs[m]))
  }

  /** The checksum chunk: exclusive or of the twisting words and all the whitened chunks. */
  function Lrc(key: OhKey, cs: Chunks): V128 {
    if cs == [] then V128(key[32], key[33])
    else var m := |cs| - 1; VXor(Lrc(key, cs[..m]), Whiten(key, m, cs[m]))
  }

  function LrcPh(key: OhKey, cs: Chunks): V128 {
    Clmul(Lrc(key, cs).lo, Lrc(key, cs).hi)
  }

  /** The public shuffler of chunk `i`, counted from 1, in a block of `n` chunks. */
  function Shuffle(x: V128, i: nat, n: nat): V128
    requires i <= n
  {
    if i == n then x
    else if i + 1 == n then VShl(x, 1)
    else VXor(VShl(x, n - i), VShl(x, 1))
  }

  /** Shuffled PH values of the chunks `cs` at the front of a block of `n` chunks. */
  function ShuffleFold(key: OhKey, cs: Chunks, n: nat): V128
    requires |cs| < n
  {
    if cs == [] then ZERO
    else var m := |cs| - 1; VXor(ShuffleFold(key, cs[..m], n), Shuffle(Ph(key, m, cs[m]), m + 1, n))
  }

  function OhPrimary(key: OhKey, tag: u64, cs: Chunks): V128
    requires cs != []
  {
    var m := |cs| - 1;
    VXor(PhFold(key, cs[..m]), Enh(key, m, cs[m], tag))
  }

  function OhSecondary(key: OhKey, tag: u64, cs: Chunks): V128
    requires cs != []
  {
    var m := |cs| - 1;
    VXor(VXor(ShuffleFold(key, cs[..m], |cs|), LrcPh(key, cs)), Enh(key, m, cs[m], tag))
  }

  function OhCompress(key: OhKey, tag: u64, cs: Chunks, secondary: bool): V128
    requires cs != []
  {
    if secondary then OhSecondary(key, tag, cs) else OhPrimary(key, tag, cs)
  }

  // ---------------------------------------------------------------- shift-and-accumulate schedules

  /** One more shift of the whole accumulator after each chunk. */
  function ShiftFold(key: OhKey, cs: Chunks): V128 {
    if cs == [] then ZERO
    else var m := |cs| - 1; VShift(VXor(ShiftFold(key, cs[..m]), Ph(key, m, cs[m])))
  }

  /** The shifted accumulator, one chunk behind. */
  function DelayedFold(key: OhKey, cs: Chunks): V128 {
    if cs == [] then ZERO else ShiftFold(key, cs[..|cs| - 1])
  }

  /** Each PH value shifted so that chunk `k` ends up `n - k` places to the left. */
  function PlacedFold(key: OhKey, cs: Chunks, n: nat): V128
    requires |cs| <= n
  {
    if cs == [] then ZERO
    else var m := |cs| - 1; VXor(PlacedFold(key, cs[..m], n), VShl(Ph(key, m, cs[m]), n - m))
  }

  lemma {:induction false} PlacedShift(key: OhKey, cs: Chunks, n: nat)
    requires |cs| <= n
    ensures VShift(PlacedFold(key, cs, n)) == PlacedFold(key, cs, n + 1)
  {
    hide Ph, VXor, VShl, VShift;
    if cs == [] {
      VShiftIsShl(ZERO);
      VShlZero(ZERO, 1);
    } else {
      var m := |cs| - 1;
      PlacedShift(key, cs[..m], n);
      var p := Ph(key, m, cs[m]);
      VShiftXor(PlacedFold(key, cs[..m], n), VShl(p, n - m));
      VShiftShl(p, n - m);
    }
  }

  /** Shifting once per chunk places every chunk. */
  lemma {:induction false} ShiftFoldPlaces(key: OhKey, cs: Chunks)
    ensures ShiftFold(key, cs) == PlacedFold(key, cs, |cs|)
  {
    hide Ph, VXor, VShl, VShift;
    if cs == [] {
    } else {
      var m := |cs| - 1;
      var p := Ph(key, m, cs[m]);
      ShiftFoldPlaces(key, cs[..m]);
      VShiftXor(ShiftFold(key, cs[..m]), p);
      PlacedShift(key, cs[..m], m);
      VShiftIsShl(p);
    }
  }

  /** All the shufflers but the last share the one-bit shift of the plain sum. */
  lemma {:induction false} ShuffleFoldPlaces(key: OhKey, cs: Chunks, n: nat)
    requires |cs| + 1 < n
    ensures ShuffleFold(key, cs, n) == VXor(PlacedFold(key, cs, n - 1), VShift(PhFold(key, cs)))
  {
    hide Ph, VXor, VShl, VShift;
    if cs == [] {
      VShiftIsShl(ZERO);
      VShlZero(ZERO, 1);
      VXorZero(ZERO);
    } else {
      var m := |cs| - 1;
      var p := Ph(key, m, cs[m]);
      ShuffleFoldPlaces(key, cs[..m], n);
      VShiftXor(PhFold(key, cs[..m]), p);
      VShiftIsShl(p);
      VXorSwap(PlacedFold(key, cs[..m], n - 1), VShift(PhFold(key, cs[..m])),
               VShl(p, n - 1 - m), VShl(p, 1));
    }
  }

  /**
   * Adding the plain sum to the delayed shifted sum and shifting once more yields exactly the
   * closed form of the shufflers, for every chunk count.
   */
  lemma ShuffleSchedule(key: OhKey, cs: Chunks)
    ensures ShuffleFold(key, cs, |cs| + 1) == VShift(VXor(DelayedFold(key, cs), PhFold(key, cs)))
  {
    hide Ph, VXor, VShl, VShift;
    if cs == [] {
      VXorZero(ZERO);
      VShiftIsShl(ZERO);
      VShlZero(ZERO, 1);
    } else {
      var m := |cs| - 1;
      var p, front := Ph(key, m, cs[m]), cs[..m];
      ShuffleFoldPlaces(key, front, m + 2);
      ShiftFoldPlaces(key, front);
      PlacedShift(key, front, m);
      VShiftIsShl(p);
      VShiftXor(PhFold(key, front), p);
      VShiftXor(ShiftFold(key, front), PhFold(key, cs));
      VXorAssoc(VShift(ShiftFold(key, front)), VShift(PhFold(key, front)), VShift(p));
    }
  }

  // ---------------------------------------------------------------- appending a chunk

  lemma FoldSnoc(key: OhKey, cs: Chunks, c: V128)
    requires |cs| < 16
    ensures PhFold(key, cs + [c]) == VXor(PhFold(key, cs), Ph(key, |cs|, c))
    ensures Lrc(key, cs + [c]) == VXor(Lrc(key, cs), Whiten(key, |cs|, c))
    ensures ShiftFold(key, cs + [c]) == VShift(VXor(ShiftFold(key, cs), Ph(key, |cs|, c)))
    ensures DelayedFold(key, cs + [c]) == ShiftFold(key, cs)
  {
    hide Ph, VXor, VShl, VShift, Whiten;
    assert (cs + [c])[..|cs|] == cs;
  }

  lemma CompressSnoc(key: OhKey, tag: u64, cs: Chunks, c: V128)
    requires |cs| < 16
    ensures OhPrimary(key, tag, cs + [c]) == VXor(PhFold(key, cs), Enh(key, |cs|, c, tag))
    ensures OhSecondary(key, tag, cs + [c])
         == VXor(VXor(VShift(VXor(DelayedFold(key, cs), PhFold(key, cs))),
                      LrcPh(key, cs + [c])),
                 Enh(key, |cs|, c, tag))
  {
    hide Ph, VXor, VShl, VShift, Enh, LrcPh;
    assert (cs + [c])[..|cs|] == cs;
    ShuffleSchedule(key, cs);
  }
}
