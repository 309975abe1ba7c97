/** Arithmetic modulo 2^64 - 8 = 8 * (2^61 - 1), with the machine's overflow written out. */
module ModArith {
  import opened Words

  const P: int := 0x1FFF_FFFF_FFFF_FFFF
  const M: int := 0xFFFF_FFFF_FFFF_FFF8

  /** The fast multipliers: words below 2^61. */
  type u61 = x: int | 0 <= x < 0x2000_0000_0000_0000

  function AddModFast(x: u64, y: u64): u64 {
    var sum := (x + y) % W;
    if x + y >= W then (sum + 8) % W else sum
  }

  function AddModSlowSlowPath(sum: u64, fixup: u64): u64 {
    var s := if sum >= M then (sum + 8) % W else sum;
    var t := (s + fixup) % W;
    if t >= M then (t + 8) % W else t
  }

  function AddModSlow(x: u64, y: u64): u64 {
    var sum := (x + y) % W;
    var fixup := if x + y >= W then 8 else 0;
    if sum < W - 16 then (sum + fixup) % W else AddModSlowSlowPath(sum, fixup)
  }

  function MulModFast(m: u64, x: u64): u64 {
    var (hi, lo) := Mul128(m, x);
    AddModFast(lo, 8 * hi % W)
  }

  function HornerDoubleUpdate(acc: u64, m0: u64, m1: u64, x: u64, y: u64): u64 {
    AddModSlow(MulModFast(m0, AddModFast(acc, x)), MulModFast(m1, y))
  }

  /** The double-pumped Horner update, in exact arithmetic. */
  function Step(m0: nat, m1: nat, acc: nat, x: nat, y: nat): (r: nat)
    ensures r < M
  {
    (m0 * (acc + x) + m1 * y) % M
  }

  /** Reducing modulo 2^64 - 8 first does not matter in the field. */
  lemma ModModP(z: nat)
    ensures z % M % P == z % P
  {
    ModAddMultiple(z % M, 8 * (z / M), P);
    assert z % M + P * (8 * (z / M)) == z;
  }

  /** The fast addition is a congruence exactly on the range that its comment claims. */
  lemma AddModFastExact(x: u64, y: u64)
    ensures AddModFast(x, y) % M == (x + y) % M <==> x + y < 2 * W - 8
  {
  }

  lemma ReduceByCases(z: nat)
    requires z < 2 * W
    ensures z % M == if z < M then z else if z < 2 * M then z - M else z - 2 * M
  {
  }

  lemma SlowPathReduces(sum: u64, fixup: u64)
    requires fixup <= 8
    ensures AddModSlowSlowPath(sum, fixup) == (sum + fixup) % M
  {
    ReduceByCases(sum + fixup);
  }

  /** The slow addition reduces fully, for all inputs. */
  lemma AddModSlowReduces(x: u64, y: u64)
    ensures AddModSlow(x, y) == (x + y) % M
  {
    hide AddModSlowSlowPath;
    ReduceByCases(x + y);
    if x + y < W {
      SlowPathReduces(x + y, 0);
    } else {
      SlowPathReduces(x + y - W, 8);
      ReduceByCases(x + y - W + 8);
    }
  }

  /** Folding the high half back in sheds a multiple of 8 for each bit of `hi` above the 61st. */
  lemma FoldHighHalf(hi: u64, lo: u64)
    ensures AddModFast(lo, 8 * hi % W) % M == (hi * W + lo - 8 * (8 * hi / W)) % M
  {
    hide AddModFast;
    var k: int := 8 * hi / W;
    var t: int := 8 * hi % W;
    AddModFastExact(lo, t);
    var x: int := hi * W + lo - 8 * k;
    var q: int := -(hi + k);
    assert lo + t == x + M * q;
    ModAddMultiple(x, q, M);
  }

  lemma SmallOffsetMatters(x: int, k: int)
    requires 0 <= k < 8
    ensures (x - 8 * k) % M == x % M <==> k == 0
  {
  }

  /** The fast multiplication is a congruence exactly when the product stays below 2^125. */
  lemma MulModFastExact(m: u64, x: u64)
    ensures MulModFast(m, x) % M == m * x % M <==> m * x < W * 0x2000_0000_0000_0000
  {
    hide AddModFast;
    var (hi, lo) := Mul128(m, x);
    FoldHighHalf(hi, lo);
    SmallOffsetMatters(m * x, 8 * hi / W);
  }

  /** One double-pumped Horner step, from a reduced accumulator and two fast multipliers. */
  lemma HornerDoubleUpdateExact(acc: u64, m0: u61, m1: u61, x: u64, y: u64)
    requires acc < M
    ensures HornerDoubleUpdate(acc, m0, m1, x, y) == Step(m0, m1, acc, x, y)
  {
    hide AddModFast, MulModFast, AddModSlow;
    var a := AddModFast(acc, x);
    AddModFastExact(acc, x);
    ProductBound(m0, a, 0x2000_0000_0000_0000, W);
    ProductBound(m1, y, 0x2000_0000_0000_0000, W);
    MulModFastExact(m0, a);
    MulModFastExact(m1, y);
    var u, v := MulModFast(m0, a), MulModFast(m1, y);
    AddModSlowReduces(u, v);
    ModAdd(u, v, M);
    ModAdd(m0 * a, m1 * y, M);
    ModMul(a, m0, M);
    ModMul(acc + x, m0, M);
    ModAdd(m0 * (acc + x), m1 * y, M);
  }

  // ---------------------------------------------------------------- lazily reduced accumulators

  const MAX_FIXUP: int := 3

  /** Stands for `base + 8 * fixup`. */
  datatype SplitAccumulator = SplitAccumulator(base: u64, fixup: u64) {
    predicate Valid() {
      fixup <= MAX_FIXUP
    }

    function Value(): nat {
      base + 8 * fixup
    }

    function Eval(): u64 {
      AddModSlow(base, 8 * fixup % W)
    }

    /** Adds the fixup to `h0`; only a very high `h0` takes the fully reduced addition. */
    function Bump(h0: u64): u64 {
      var bump := 8 * fixup % W;
      if h0 > W - 8 * (MAX_FIXUP + 1) then AddModSlow(h0, bump) else (h0 + bump) % W
    }

    function Partial(h0: u64): u64 {
      AddModFast(base, Bump(h0))
    }

    function Update(m0: u64, m1: u64, h0: u64, h1: u64): SplitAccumulator {
      var (hi1, lo1) := Mul128(m1, h1);
      var (hi0, lo0) := Mul128(Partial(h0), m0);
      AddCarries(hi0, lo0, hi1, lo1)
    }
  }

  lemma SplitEval(a: SplitAccumulator)
    requires a.Valid()
    ensures a.Eval() == a.Value() % M
  {
    hide AddModSlow;
    AddModSlowReduces(a.base, 8 * a.fixup);
  }

  /** Overflow-reporting addition: the wrapped sum and the carry. */
  function AddOverflow(x: u64, y: u64): (r: (u64, u64))
    ensures r.0 + W * r.1 == x + y && r.1 <= 1
  {
    if x + y >= W then (x + y - W, 1) else (x + y, 0)
  }

  /** The final additions of `Update`, from the high and low halves of its two products. */
  function AddCarries(hi0: u64, lo0: u64, hi1: u64, lo1: u64): SplitAccumulator {
    var (sum, carry0) := AddOverflow(lo0, lo1);
    var hi := (hi0 + hi1) % W;
    var carry1 := if hi / 0x2000_0000_0000_0000 % 2 == 1 then 1 else 0;
    var (base, carry2) := AddOverflow(sum, 8 * hi % W);
    SplitAccumulator(base, carry0 + carry1 + carry2)
  }

  /** For two high halves below 2^61, bit 61 of their sum is the carry out of its octuple. */
  lemma HighCarry(hi: nat)
    requires hi < 0x4000_0000_0000_0000
    ensures 8 * hi % W == 8 * hi - W * (hi / 0x2000_0000_0000_0000)
    ensures hi / 0x2000_0000_0000_0000 % 2 == hi / 0x2000_0000_0000_0000
  {
  }

  /** Splitting the carries of the two 128-bit products over base and fixup loses nothing. */
  lemma AddCarriesExact(hi0: u64, lo0: u64, hi1: u64, lo1: u64)
    requires hi0 < 0x2000_0000_0000_0000 && hi1 < 0x2000_0000_0000_0000
    ensures AddCarries(hi0, lo0, hi1, lo1).Valid()
    ensures AddCarries(hi0, lo0, hi1, lo1).Value() % M
         == ((hi0 * W + lo0) + (hi1 * W + lo1)) % M
  {
    var hi: int := hi0 + hi1;
    HighCarry(hi);
    var r := AddCarries(hi0, lo0, hi1, lo1);
    assert hi % W == hi;
    assert r.base + W * r.fixup == lo0 + lo1 + 8 * hi;
    ModAddMultiple((hi0 * W + lo0) + (hi1 * W + lo1), -(hi + r.fixup), M);
  }

  /** The bumped half never exceeds 2^64 - 8, the most that the next fast addition allows. */
  lemma BumpExact(a: SplitAccumulator, h0: u64)
    requires a.Valid()
    ensures a.Bump(h0) <= W - 8
    ensures a.Bump(h0) % M == (h0 + 8 * a.fixup) % M
  {
    hide AddModSlow;
    assert 8 * a.fixup % W == 8 * a.fixup;
    if h0 > W - 32 {
      AddModSlowReduces(h0, 8 * a.fixup);
    }
  }

  lemma FastAddCongruent(base: u64, h: u64, t: nat)
    requires h <= W - 8 && h % M == t % M
    ensures AddModFast(base, h) % M == (base + t) % M
  {
    hide AddModFast;
    AddModFastExact(base, h);
    ModAdd(h, base, M);
    ModAdd(t, base, M);
  }

  /** The sum entering the multiplication by m0 is congruent, for every base and every h0. */
  lemma PartialExact(a: SplitAccumulator, h0: u64)
    requires a.Valid()
    ensures a.Partial(h0) % M == (a.Value() + h0) % M
  {
    hide AddModFast, SplitAccumulator.Bump;
    BumpExact(a, h0);
    FastAddCongruent(a.base, a.Bump(h0), h0 + 8 * a.fixup);
  }

  /** Congruent factors give congruent sums of products. */
  lemma CongruentStep(a: int, b: int, c: int, m: int)
    requires a % M == b % M
    ensures (a * m + c) % M == (m * b + c) % M
  {
    ModMul(a, m, M);
    ModMul(b, m, M);
    ModAdd(a * m, c, M);
    ModAdd(b * m, c, M);
  }

  /** The update only depends on its accumulator modulo 2^64 - 8. */
  lemma StepCongruent(m0: nat, m1: nat, a: nat, b: nat, x: nat, y: nat)
    requires a % M == b % M
    ensures Step(m0, m1, a, x, y) == Step(m0, m1, b, x, y)
  {
    ModAdd(a, x, M);
    ModAdd(b, x, M);
    CongruentStep(a + x, b + x, m1 * y, m0);
    CongruentStep(b + x, b + x, m1 * y, m0);
  }

  /**
   * The lazy update keeps the accumulator valid and evaluates to the exact Horner step, for
   * every base: none of its intermediate sums loses a carry.
   */
  lemma SplitUpdateExact(a: SplitAccumulator, m0: u61, m1: u61, h0: u64, h1: u64)
    requires a.Valid()
    ensures a.Update(m0, m1, h0, h1).Valid()
    ensures a.Update(m0, m1, h0, h1).Eval() == Step(m0, m1, a.Value(), h0, h1)
  {
    hide SplitAccumulator.Partial, SplitAccumulator.Eval, AddCarries, Mul128;
    var partial := a.Partial(h0);
    PartialExact(a, h0);
    ProductBound(partial, m0, W, 0x2000_0000_0000_0000);
    ProductBound(m1, h1, 0x2000_0000_0000_0000, W);
    var (hi0, lo0) := Mul128(partial, m0);
    var (hi1, lo1) := Mul128(m1, h1);
    AddCarriesExact(hi0, lo0, hi1, lo1);
    SplitEval(a.Update(m0, m1, h0, h1));
    CongruentStep(partial, a.Value() + h0, m1 * h1, m0);
  }

  lemma StepIs(m0: nat, m1: nat, acc: nat, x: nat, y: nat)
    ensures Step(m0, m1, acc, x, y) == (m0 * (acc + x) + m1 * y) % 0xFFFF_FFFF_FFFF_FFF8
  {
  }

  lemma HornerDoubleUpdateValue(acc: u64, m0: u61, m1: u61, x: u64, y: u64)
    requires acc < 0xFFFF_FFFF_FFFF_FFF8
    ensures HornerDoubleUpdate(acc, m0, m1, x, y) == (m0 * (acc + x) + m1 * y) % 0xFFFF_FFFF_FFFF_FFF8
  {
    hide Step, HornerDoubleUpdate;
    HornerDoubleUpdateExact(acc, m0, m1, x, y);
    StepIs(m0, m1, acc, x, y);
  }

  /** The lazy update, from its fields. */
  lemma SplitUpdateValue(base: u64, fixup: u64, m0: u61, m1: u61, h0: u64, h1: u64)
    requires fixup <= 3
    ensures SplitAccumulator(base, fixup).Update(m0, m1, h0, h1).fixup <= 3
    ensures SplitAccumulator(base, fixup).Update(m0, m1, h0, h1).Eval()
         == (m0 * (base + 8 * fixup + h0) + m1 * h1) % 0xFFFF_FFFF_FFFF_FFF8
  {
    hide Step, SplitAccumulator.Update, SplitAccumulator.Eval;
    SplitUpdateExact(SplitAccumulator(base, fixup), m0, m1, h0, h1);
    StepIs(m0, m1, base + 8 * fixup, h0, h1);
  }
}
