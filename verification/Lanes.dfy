/** 128-bit values as pairs of 64-bit lanes; every shift acts on the lanes separately. */
module Lanes {
  import opened Words
  import opened CarryLess

  datatype V128 = V128(lo: u64, hi: u64)

  const ZERO: V128 := V128(0, 0)

  function VXor(x: V128, y: V128): V128 {
    V128(Xor64(x.lo, y.lo), Xor64(x.hi, y.hi))
  }

  /** Shifts each lane left by `s` bits. */
  function VShl(x: V128, s: nat): V128 {
    V128(Shl(x.lo, s), Shl(x.hi, s))
  }

  /** The one-bit shift, computed by adding each lane to itself. */
  function VShift(x: V128): V128 {
    V128((x.lo + x.lo) % W, (x.hi + x.hi) % W)
  }

  /** The 128-bit carry-less product of two words. */
  function Clmul(x: u64, y: u64): V128 {
    ClmulBound(x, y);
    V128(GfMul(x, y) % W, GfMul(x, y) / W)
  }

  /** The carry-less product of the high and the low lane. */
  function ClmulCross(x: V128): V128 {
    Clmul(x.hi, x.lo)
  }

  /** Both lanes as one integer. */
  function Join(x: V128): nat {
    x.lo + W * x.hi
  }

  /** The top bit of a carry-less product is always clear. */
  lemma ClmulBound(x: u64, y: u64)
    ensures GfMul(x, y) / W < 0x8000_0000_0000_0000
  {
    Pow2Values();
    GfMulBound(x, y, 64, 64);
    Pow2Add(64, 63);
    assert Pow2(64) == 2 * Pow2(63);
  }

  lemma JoinInjective(x: V128, y: V128)
    requires Join(x) == Join(y)
    ensures x == y
  {
  }

  lemma JoinClmul(x: u64, y: u64)
    ensures Join(Clmul(x, y)) == GfMul(x, y)
  {
  }

  lemma ClmulCrossIs(x: V128)
    ensures ClmulCross(x) == Clmul(x.lo, x.hi)
  {
    hide GfMul;
    GfMulComm(x.hi, x.lo);
  }

  lemma JoinXor(x: V128, y: V128)
    ensures Join(VXor(x, y)) == Xor(Join(x), Join(y))
  {
    hide Xor, Pow2;
    Pow2Values();
    XorSplit(x.lo, y.lo, x.hi, y.hi, 64);
  }

  // ---------------------------------------------------------------- algebra

  lemma VXorComm(x: V128, y: V128)
    ensures VXor(x, y) == VXor(y, x)
  {
    hide Xor;
    XorComm(x.lo, y.lo);
    XorComm(x.hi, y.hi);
  }

  lemma VXorAssoc(x: V128, y: V128, z: V128)
    ensures VXor(VXor(x, y), z) == VXor(x, VXor(y, z))
  {
    hide Xor;
    XorAssoc(x.lo, y.lo, z.lo);
    XorAssoc(x.hi, y.hi, z.hi);
  }

  lemma VXorSwap(a: V128, b: V128, c: V128, d: V128)
    ensures VXor(VXor(a, b), VXor(c, d)) == VXor(VXor(a, c), VXor(b, d))
  {
    hide Xor;
    XorSwap(a.lo, b.lo, c.lo, d.lo);
    XorSwap(a.hi, b.hi, c.hi, d.hi);
  }

  lemma VXorZero(x: V128)
    ensures VXor(x, ZERO) == x && VXor(ZERO, x) == x
  {
    hide Xor;
    XorZero(x.lo);
    XorZero(x.hi);
  }

  lemma VXorSelf(x: V128)
    ensures VXor(x, x) == ZERO
  {
    hide Xor;
    XorSelf(x.lo);
    XorSelf(x.hi);
  }

  lemma VXorCancel(x: V128, y: V128, z: V128)
    ensures VXor(x, y) == ZERO <==> x == y
    ensures VXor(x, y) == z <==> x == VXor(y, z)
    ensures VXor(x, z) == VXor(y, z) <==> x == y
  {
    hide Xor;
    XorCancel(x.lo, y.lo, z.lo);
    XorCancel(x.hi, y.hi, z.hi);
  }

  lemma VShlXor(x: V128, y: V128, s: nat)
    ensures VShl(VXor(x, y), s) == VXor(VShl(x, s), VShl(y, s))
  {
    hide Xor, Shl;
    ShlXor(x.lo, y.lo, s);
    ShlXor(x.hi, y.hi, s);
  }

  lemma VShlAdd(x: V128, s: nat, t: nat)
    ensures VShl(VShl(x, s), t) == VShl(x, s + t)
  {
    hide Shl;
    ShlAdd(x.lo, s, t);
    ShlAdd(x.hi, s, t);
  }

  lemma VShiftIsShl(x: V128)
    ensures VShift(x) == VShl(x, 1)
  {
    assert Pow2(1) == 2;
  }

  lemma VShlZero(x: V128, s: nat)
    ensures VShl(ZERO, s) == ZERO && VShl(x, 0) == x
  {
    assert 0 * Pow2(s) == 0;
  }

  lemma VShiftXor(x: V128, y: V128)
    ensures VShift(VXor(x, y)) == VXor(VShift(x), VShift(y))
  {
    hide VXor, VShl, VShift;
    VShiftIsShl(x);
    VShiftIsShl(y);
    VShiftIsShl(VXor(x, y));
    VShlXor(x, y, 1);
  }

  /** One more shift on top of a sum of shifted values. */
  lemma VShiftShl(x: V128, s: nat)
    ensures VShift(VShl(x, s)) == VShl(x, s + 1)
  {
    hide VShl, VShift;
    VShiftIsShl(VShl(x, s));
    VShlAdd(x, s, 1);
  }
}
