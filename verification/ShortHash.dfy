/** Inputs of at most 8 bytes: a keyed permutation for each input length. */
module ShortHash {
  import opened Words
  import opened Bytes

  const C1: u64 := 0xbf58476d1ce4e5b9
  const C2: u64 := 0x94d049bb133111eb

  /** A 16- or 32-bit load. */
  function LoadHalf(s: bytes): (r: nat)
    requires |s| == 2 || |s| == 4
    ensures r < 0x1_0000_0000
  {
    LeBound(s);
    Pow2Values();
    Le(s)
  }

  /** The first and the last four bytes, or the bytes selected by the binary size below four. */
  function Halves(data: bytes): (r: (u64, u64))
    requires |data| <= 8
    ensures r.0 < 0x1_0000_0000 && r.1 < 0x1_0000_0000
  {
    var n := |data|;
    if n >= 4 then (LoadHalf(data[..4]), LoadHalf(data[n - 4..]))
    else
      var lo := if n % 2 == 1 then data[0] else 0;
      var hi := if n / 2 % 2 == 1 then LoadHalf(data[n - 2..]) else 0;
      (lo, hi)
  }

  function VecToU64(data: bytes): u64
    requires |data| <= 8
  {
    var (lo, hi) := Halves(data);
    hi * 0x1_0000_0000 + (lo + hi) % 0x1_0000_0000
  }

  function XorShift(x: u64, k: nat): u64 {
    Xor64(x, Shr(x, k))
  }

  /** The data-dependent state before the noise comes in. */
  function Premix(data: bytes): u64
    requires |data| <= 8
  {
    XorShift(XorShift(VecToU64(data), 30) * C1 % W, 27)
  }

  function Noise(key: seq<u64>, seed: u64, n: nat): u64
    requires n < |key|
  {
    (seed + key[n]) % W
  }

  function UmashShort(key: seq<u64>, seed: u64, data: bytes): u64
    requires |data| <= 8 < |key|
  {
    XorShift(Xor64(Premix(data), Noise(key, seed, |data|)) * C2 % W, 31)
  }

  // ---------------------------------------------------------------- invertible steps

  lemma {:induction false} ShiftFixpoint(d: nat, k: nat)
    requires k >= 1 && High(d, k) == d
    ensures d == 0
  {
    MulMono(Pow2(k), d);
    assert Pow2(k) == 2 * Pow2(k - 1);
    if d >= 1 {
      Words.MulLe(2, Pow2(k), d);
    }
  }

  lemma XorShiftInjective(x: u64, y: u64, k: nat)
    requires k >= 1 && XorShift(x, k) == XorShift(y, k)
    ensures x == y
  {
    hide Xor, High, Pow2;
    var d := Xor(x, y);
    XorLowHigh(x, y, k);
    XorSwap(x, High(x, k), y, High(y, k));
    XorSelf(Xor(x, High(x, k)));
    XorCancel(d, High(d, k), 0);
    ShiftFixpoint(d, k);
    XorCancel(x, y, 0);
  }

  /** Multiplying by an odd constant is undone by its inverse modulo 2^64. */
  lemma MulInjective(c: u64, inverse: u64, t: nat, x: u64, y: u64)
    requires c * inverse == 1 + W * t
    requires x * c % W == y * c % W
    ensures x == y
  {
    MulInverse(c, inverse, t, x);
    MulInverse(c, inverse, t, y);
  }

  lemma MulInverse(c: u64, inverse: u64, t: nat, x: u64)
    requires c * inverse == 1 + W * t
    ensures (x * c % W) * inverse % W == x
  {
    ModMul(x * c, inverse, W);
    assert x * c * inverse == x + W * (x * t) by {
      assert x * c * inverse == x * (c * inverse);
      assert x * (1 + W * t) == x + W * (x * t);
    }
    DivModUnique(x * t, x, W);
  }

  lemma MulC1Injective(x: u64, y: u64)
    requires x * C1 % W == y * C1 % W
    ensures x == y
  {
    assert C1 * 0x96de1b173f119089 == 1 + W * 0x70c3bca78f27f46c;
    MulInjective(C1, 0x96de1b173f119089, 0x70c3bca78f27f46c, x, y);
  }

  lemma MulC2Injective(x: u64, y: u64)
    requires x * C2 % W == y * C2 % W
    ensures x == y
  {
    assert C2 * 0x319642b2d24d8ec3 == 1 + W * 0x1cd336eda85f1453;
    MulInjective(C2, 0x319642b2d24d8ec3, 0x1cd336eda85f1453, x, y);
  }

  lemma HalvesDetermined(x: bytes, y: bytes)
    requires |x| == |y| <= 8 && VecToU64(x) == VecToU64(y)
    ensures Halves(x) == Halves(y)
  {
    hide Halves;
    var (lo, hi) := Halves(x);
    var (lo', hi') := Halves(y);
    assert hi == VecToU64(x) / 0x1_0000_0000 && hi' == VecToU64(y) / 0x1_0000_0000;
    assert (lo + hi) % 0x1_0000_0000 == (lo' + hi') % 0x1_0000_0000;
  }

  lemma CoveredEqual(x: bytes, y: bytes, a: nat, b: nat)
    requires |x| == |y| && b <= a <= |x|
    requires x[..a] == y[..a] && x[b..] == y[b..]
    ensures x == y
  {
    assert x == x[..a] + x[b..][a - b..] && y == y[..a] + y[b..][a - b..];
  }

  lemma LongHalvesInjective(x: bytes, y: bytes)
    requires 4 <= |x| == |y| <= 8 && Halves(x) == Halves(y)
    ensures x == y
  {
    hide Le;
    var n := |x|;
    LeInjective(x[..4], y[..4]);
    LeInjective(x[n - 4..], y[n - 4..]);
    CoveredEqual(x, y, 4, n - 4);
  }

  lemma ShortHalvesInjective(x: bytes, y: bytes)
    requires 2 <= |x| == |y| < 4 && Halves(x) == Halves(y)
    ensures x == y
  {
    hide Le;
    var n := |x|;
    LeInjective(x[n - 2..], y[n - 2..]);
    assert x[..n - 2] == y[..n - 2];
    CoveredEqual(x, y, n - 2, n - 2);
  }

  /** The two halves cover the whole input. */
  lemma VecToU64Injective(x: bytes, y: bytes)
    requires |x| == |y| <= 8 && VecToU64(x) == VecToU64(y)
    ensures x == y
  {
    hide VecToU64, LoadHalf;
    HalvesDetermined(x, y);
    if |x| >= 4 {
      LongHalvesInjective(x, y);
    } else if |x| >= 2 {
      ShortHalvesInjective(x, y);
    }
  }

  lemma PremixInjective(x: bytes, y: bytes)
    requires |x| == |y| <= 8 && Premix(x) == Premix(y)
    ensures x == y
  {
    hide XorShift, VecToU64;
    var a, b := XorShift(VecToU64(x), 30), XorShift(VecToU64(y), 30);
    XorShiftInjective(a * C1 % W, b * C1 % W, 27);
    MulC1Injective(a, b);
    XorShiftInjective(VecToU64(x), VecToU64(y), 30);
    VecToU64Injective(x, y);
  }

  /** Two short inputs collide exactly when their noises cancel the difference of their states. */
  lemma ShortCollision(key: seq<u64>, seed: u64, x: bytes, y: bytes)
    requires |x| <= 8 && |y| <= 8 < |key|
    ensures UmashShort(key, seed, x) == UmashShort(key, seed, y)
       <==> Xor64(Noise(key, seed, |x|), Noise(key, seed, |y|)) == Xor64(Premix(x), Premix(y))
  {
    hide XorShift, Premix, Noise, Xor;
    var p, q := Premix(x), Premix(y);
    var m, n := Noise(key, seed, |x|), Noise(key, seed, |y|);
    var a, b := Xor64(p, m), Xor64(q, n);
    if UmashShort(key, seed, x) == UmashShort(key, seed, y) {
      XorShiftInjective(a * C2 % W, b * C2 % W, 31);
      MulC2Injective(a, b);
    }
    XorCancel(p, m, b);
    XorCancel(m, n, Xor(p, q));
    XorCancel(a, b, 0);
    XorSwap(p, m, q, n);
    XorCancel(Xor(p, q), Xor(m, n), 0);
  }

  /** For every key and seed, inputs of the same length never collide. */
  lemma ShortInjective(key: seq<u64>, seed: u64, x: bytes, y: bytes)
    requires |x| == |y| <= 8 < |key|
    requires UmashShort(key, seed, x) == UmashShort(key, seed, y)
    ensures x == y
  {
    hide Premix, Noise, Xor, UmashShort;
    ShortCollision(key, seed, x, y);
    XorSelf(Noise(key, seed, |x|));
    XorCancel(Premix(x), Premix(y), 0);
    PremixInjective(x, y);
  }

  // ---------------------------------------------------------------- the packing, byte by byte

  lemma LoadHalfBytes(s: bytes, i: nat)
    requires (|s| == 2 || |s| == 4) && i < |s|
    ensures LoadHalf(s) / Pow2(8 * i) % 256 == s[i]
  {
    LeByte(s, i);
  }

  /** From four bytes up: the last four on top of the wrapped sum of the first and the last four. */
  lemma PackedLong(d: bytes)
    requires 4 <= |d| <= 8
    ensures var n := |d|;
            var lo := d[0] + 0x100 * (d[1] as int) + 0x1_0000 * (d[2] as int) + 0x100_0000 * (d[3] as int);
            var hi := d[n - 4] + 0x100 * (d[n - 3] as int) + 0x1_0000 * (d[n - 2] as int)
                      + 0x100_0000 * (d[n - 1] as int);
            && VecToU64(d) / 0x1_0000_0000 == hi
            && VecToU64(d) % 0x1_0000_0000 == (lo + hi) % 0x1_0000_0000
  {
    hide Le;
    LeFour(d[..4]);
    LeFour(d[|d| - 4..]);
  }

  /** Below four bytes: the last two, if there are two, on top of their sum with an odd first one. */
  lemma PackedShort(d: bytes)
    requires |d| < 4
    ensures |d| == 0 ==> VecToU64(d) == 0
    ensures |d| == 1 ==> VecToU64(d) == d[0]
    ensures |d| == 2 ==> VecToU64(d) == 0x1_0000_0001 * (d[0] + 0x100 * (d[1] as int))
    ensures |d| == 3 ==> VecToU64(d) == d[0] + 0x1_0000_0001 * (d[1] + 0x100 * (d[2] as int))
  {
    hide Le;
    if |d| >= 2 {
      LeTwo(d[|d| - 2..]);
    }
  }

  // ---------------------------------------------------------------- decoding

  /** Undoes `x ^ (x >> k)` for any shift of 22 places or more. */
  function Unshift(y: u64, k: nat): u64 {
    Xor64(Xor64(y, Shr(y, k)), Shr(y, 2 * k))
  }

  /** The packed bytes of an input, from its hash and its noise. */
  function Unshort(h: u64, noise: u64): u64 {
    var a := Unshift(h, 31) * 0x319642b2d24d8ec3 % W;
    var b := Unshift(Xor64(a, noise), 27) * 0x96de1b173f119089 % W;
    Unshift(b, 30)
  }

  lemma HighHigh(x: nat, a: nat, b: nat)
    ensures High(High(x, a), b) == High(x, a + b)
  {
    Pow2Add(a, b);
    DivDiv(x, Pow2(a), Pow2(b));
  }

  lemma {:induction false} HighGone(x: u64, k: nat)
    requires k >= 64
    ensures High(x, k) == 0
  {
    hide Pow2;
    Pow2Values();
    HighHigh(x, 64, k - 64);
    assert High(x, 64) == 0;
    assert 0 / Pow2(k - 64) == 0;
  }

  lemma CancelShifts(x: u64, x1: u64, x2: u64)
    ensures Xor64(Xor64(Xor64(x, x1), Xor64(x1, x2)), Xor64(x2, 0)) == x
    ensures Xor64(Xor64(Xor64(x, x1), x2), Xor64(Xor64(x1, x2), 0)) == x
  {
    hide Xor, Bit;
    XorBits();
    forall i: nat ensures !Bit(0, i) {
      ZeroBit(i);
    }
    BitsEq(Xor(Xor(Xor(x, x1), Xor(x1, x2)), Xor(x2, 0)), x);
    BitsEq(Xor(Xor(Xor(x, x1), x2), Xor(Xor(x1, x2), 0)), x);
  }

  lemma ShiftParts(x: u64, k: nat)
    requires 22 <= k
    ensures var x1, x2 := Shr(x, k), Shr(x, 2 * k);
            && Shr(x1, k) == x2 && Shr(x2, k) == 0 && Shr(x1, 2 * k) == 0 && Shr(x2, 2 * k) == 0
  {
    hide High;
    HighHigh(x, k, k);
    HighHigh(x, 2 * k, k);
    HighHigh(x, k, 2 * k);
    HighHigh(x, 2 * k, 2 * k);
    HighGone(x, 3 * k);
    HighGone(x, 4 * k);
  }

  lemma UnshiftInverts(x: u64, k: nat)
    requires 22 <= k
    ensures Unshift(XorShift(x, k), k) == x
    ensures XorShift(Unshift(x, k), k) == x
  {
    hide Xor, High;
    var x1, x2 := Shr(x, k), Shr(x, 2 * k);
    ShiftParts(x, k);
    XorLowHigh(x, x1, k);
    XorLowHigh(x, x1, 2 * k);
    XorLowHigh(Xor(x, x1), x2, k);
    CancelShifts(x, x1, x2);
  }

  lemma MultipliersInvert(x: u64)
    ensures x * C1 % W * 0x96de1b173f119089 % W == x && x * 0x96de1b173f119089 % W * C1 % W == x
    ensures x * C2 % W * 0x319642b2d24d8ec3 % W == x && x * 0x319642b2d24d8ec3 % W * C2 % W == x
  {
    assert C1 * 0x96de1b173f119089 == 1 + W * 0x70c3bca78f27f46c;
    assert C2 * 0x319642b2d24d8ec3 == 1 + W * 0x1cd336eda85f1453;
    MulInverse(C1, 0x96de1b173f119089, 0x70c3bca78f27f46c, x);
    MulInverse(0x96de1b173f119089, C1, 0x70c3bca78f27f46c, x);
    MulInverse(C2, 0x319642b2d24d8ec3, 0x1cd336eda85f1453, x);
    MulInverse(0x319642b2d24d8ec3, C2, 0x1cd336eda85f1453, x);
  }

  lemma XorTwice(x: u64, y: u64)
    ensures Xor64(Xor64(x, y), y) == x
  {
    hide Xor;
    XorAssoc(x, y, y);
    XorSelf(y);
    XorZero(x);
  }

  /**
   * The hash of a short input is the one word that decodes, with the noise of the input's length,
   * to its packed bytes.
   */
  lemma ShortDecodes(key: seq<u64>, seed: u64, data: bytes, h: u64)
    requires |data| <= 8 < |key|
    ensures h == UmashShort(key, seed, data) <==> Unshort(h, (seed + key[|data|]) % W) == VecToU64(data)
  {
    hide XorShift, Unshift, VecToU64, Xor64;
    var noise := (seed + key[|data|]) % W;
    var v := VecToU64(data);
    // Forward: the hash decodes.
    var a := XorShift(v, 30);
    UnshiftInverts(v, 30);
    MultipliersInvert(a);
    UnshiftInverts(a * C1 % W, 27);
    var p := XorShift(a * C1 % W, 27);
    XorTwice(p, noise);
    MultipliersInvert(Xor64(p, noise));
    UnshiftInverts(Xor64(p, noise) * C2 % W, 31);
    // Backward: what decodes is the hash.
    var q := Unshift(h, 31) * 0x319642b2d24d8ec3 % W;
    UnshiftInverts(h, 31);
    MultipliersInvert(Unshift(h, 31));
    XorTwice(q, noise);
    UnshiftInverts(Xor64(q, noise), 27);
    MultipliersInvert(Unshift(Xor64(q, noise), 27));
    UnshiftInverts(Unshift(Xor64(q, noise), 27) * 0x96de1b173f119089 % W, 30);
  }

  // ---------------------------------------------------------------- the machine's versions

  /** Here the seed goes in before the second shift, which reads the value from before it. */
  function UmashShortFused(params: seq<u64>, seed: u64, data: bytes): u64
    requires |data| <= 8 < |params|
  {
    var seed' := (seed + params[|data|]) % W;
    var h := XorShift(VecToU64(data), 30) * C1 % W;
    var h' := Xor64(Xor64(h, seed'), Shr(h, 27)) * C2 % W;
    XorShift(h', 31)
  }

  const OH_SHORT_HASH_SHIFT: nat := 4

  /** Both hashes from one premix, with noise words four apart. */
  function UmashFpShort(params: seq<u64>, seed: u64, data: bytes): (u64, u64)
    requires |data| <= 8 && |params| > 8 + OH_SHORT_HASH_SHIFT
  {
    var noise0 := (seed + params[|data|]) % W;
    var noise1 := (seed + params[|data| + OH_SHORT_HASH_SHIFT]) % W;
    var h := XorShift(XorShift(VecToU64(data), 30) * C1 % W, 27);
    (XorShift(Xor64(noise0, h) * C2 % W, 31), XorShift(Xor64(noise1, h) * C2 % W, 31))
  }

  /** The fused hash and the short fingerprint are the plain hash at key offsets 0 and 4. */
  lemma ShortVariantsAgree(params: seq<u64>, seed: u64, data: bytes)
    requires |data| <= 8 && |params| > 8 + OH_SHORT_HASH_SHIFT
    ensures UmashShortFused(params, seed, data) == UmashShort(params, seed, data)
    ensures UmashFpShort(params, seed, data)
         == (UmashShort(params, seed, data),
             UmashShort(params[OH_SHORT_HASH_SHIFT..], seed, data))
  {
    hide VecToU64, Xor, Shr;
    var h := XorShift(VecToU64(data), 30) * C1 % W;
    var noise0 := Noise(params, seed, |data|);
    var noise1 := Noise(params[OH_SHORT_HASH_SHIFT..], seed, |data|);
    XorAssoc(h, noise0, Shr(h, 27));
    XorComm(noise0, Shr(h, 27));
    XorAssoc(h, Shr(h, 27), noise0);
    XorComm(noise0, Premix(data));
    XorComm(noise1, Premix(data));
  }

  /** The second hash of a short input is the one word that decodes with the noise four words on. */
  lemma SecondShortDecodes(params: seq<u64>, seed: u64, data: bytes, h: u64)
    requires |data| <= 8 && |params| > 12
    ensures h == UmashFpShort(params, seed, data).1
       <==> Unshort(h, (seed + params[|data| + 4]) % W) == VecToU64(data)
  {
    hide Unshort, VecToU64, UmashFpShort, UmashShort, UmashShortFused;
    ShortVariantsAgree(params, seed, data);
    ShortDecodes(params[4..], seed, data, h);
  }
}
