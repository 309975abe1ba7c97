/**
 * The public shufflers of the secondary compressor, and what a collision in both compressors
 * forces on the mixed values of two blocks with the same checksum.
 */
module Shufflers {
  import opened Words
  import opened Lanes
  import opened Oh

  // ---------------------------------------------------------------- linearity

  lemma ShuffleXor(x: V128, y: V128, i: nat, n: nat)
    requires i <= n
    ensures Shuffle(VXor(x, y), i, n) == VXor(Shuffle(x, i, n), Shuffle(y, i, n))
  {
    hide VXor, VShl;
    VShlXor(x, y, 1);
    VShlXor(x, y, n - i);
    VXorSwap(VShl(x, n - i), VShl(y, n - i), VShl(x, 1), VShl(y, 1));
  }

  /** Both lanes are multiples of 2^k. */
  predicate LowZero(x: V128, k: nat) {
    x.lo % Pow2(k) == 0 && x.hi % Pow2(k) == 0
  }

  lemma MultipleOf(x: nat, k: nat)
    ensures x % Pow2(k) == 0 <==> x == High(x, k) * Pow2(k)
  {
    assert x == Low(x, k) + Pow2(k) * High(x, k);
  }

  /** A left shift moves zeros up, as long as there is room in the lane. */
  lemma ShlLowZero(x: u64, k: nat, s: nat)
    requires x % Pow2(k) == 0 && k + s <= 64
    ensures Shl(x, s) % Pow2(k + s) == 0
  {
    hide Pow2;
    var u := High(x, k);
    MultipleOf(x, k);
    Pow2Add(k, s);
    Pow2Add(k + s, 64 - k - s);
    Pow2Values();
    ShiftedMultiple(u, Pow2(k), Pow2(s), Pow2(64 - k - s));
  }

  lemma ShiftedMultiple(u: nat, p: nat, q: nat, r: nat)
    requires p * q * r == W && p > 0 && q > 0
    ensures p * q > 0 && u * p * q % W % (p * q) == 0
  {
    assert p * q > 0 by {
      MulMono(p, q);
    }
    var t := u * p * q / W;
    assert u * p * q % W == u * p * q - W * t;
    assert u * p * q - W * t == 0 + (p * q) * (u - r * t) by {
      assert u * p * q == (p * q) * u;
      assert W * t == (p * q) * (r * t);
    }
    DivModUnique(u - r * t, 0, p * q);
  }

  lemma {:induction false} LowZeroMono(x: nat, k: nat, j: nat)
    requires x % Pow2(k) == 0 && j <= k
    ensures x % Pow2(j) == 0
  {
    hide Pow2;
    Pow2Add(j, k - j);
    MultipleOf(x, k);
    var u := High(x, k);
    assert u * Pow2(k) == 0 + Pow2(j) * (u * Pow2(k - j)) by {
      assert u * (Pow2(j) * Pow2(k - j)) == Pow2(j) * (u * Pow2(k - j));
    }
    DivModUnique(u * Pow2(k - j), 0, Pow2(j));
  }

  lemma XorLowZero(x: nat, y: nat, k: nat)
    requires x % Pow2(k) == 0 && y % Pow2(k) == 0
    ensures Xor(x, y) % Pow2(k) == 0
  {
    hide Xor, Pow2;
    XorLowHigh(x, y, k);
    XorSelf(0);
    assert Low(x, k) == 0 && Low(y, k) == 0;
  }

  lemma VShlLowZero(x: V128, k: nat, s: nat)
    requires LowZero(x, k) && s >= 1 && k < 64
    ensures LowZero(VShl(x, s), k + 1)
  {
    hide Pow2, Shl;
    if k + s <= 64 {
      ShlLowZero(x.lo, k, s);
      ShlLowZero(x.hi, k, s);
      LowZeroMono(Shl(x.lo, s), k + s, k + 1);
      LowZeroMono(Shl(x.hi, s), k + s, k + 1);
    } else {
      LowZeroMono(x.lo, k, k + 1 - 1);
      ShlAll(x.lo, k, s);
      ShlAll(x.hi, k, s);
      DivModUnique(0, 0, Pow2(k + 1));
    }
  }

  /** Shifting a multiple of 2^k by 64 - k or more leaves nothing. */
  lemma ShlAll(x: u64, k: nat, s: nat)
    requires x % Pow2(k) == 0 && k <= 64 <= k + s
    ensures Shl(x, s) == 0
  {
    hide Pow2;
    var u := High(x, k);
    MultipleOf(x, k);
    Pow2Add(k, 64 - k);
    Pow2Add(64 - k, s - (64 - k));
    Pow2Values();
    AllShifted(u, Pow2(k), Pow2(64 - k), Pow2(s - (64 - k)));
  }

  lemma AllShifted(u: nat, p: nat, q: nat, r: nat)
    requires p * q == W
    ensures u * p * (q * r) % W == 0
  {
    assert u * p * (q * r) == u * (p * q) * r;
    assert u * W * r == 0 + W * (u * r);
    DivModUnique(u * r, 0, W);
  }

  /** Every shuffler but the identity moves zeros up by at least one place. */
  lemma ShuffleLowZero(x: V128, i: nat, n: nat, k: nat)
    requires i < n && LowZero(x, k) && k < 64
    ensures LowZero(Shuffle(x, i, n), k + 1)
  {
    hide VShl, Pow2, Xor;
    VShlLowZero(x, k, 1);
    VShlLowZero(x, k, n - i);
    if i + 1 < n {
      XorLowZero(VShl(x, n - i).lo, VShl(x, 1).lo, k + 1);
      XorLowZero(VShl(x, n - i).hi, VShl(x, 1).hi, k + 1);
    }
  }

  lemma AllZero(x: V128)
    requires LowZero(x, 64)
    ensures x == ZERO
  {
    Pow2Values();
  }

  lemma NoneZero(x: V128)
    ensures LowZero(x, 0)
  {
    assert Pow2(0) == 1;
  }

  // ---------------------------------------------------------------- x ^ s(x) is a bijection

  function Mix(x: V128, i: nat, n: nat): V128
    requires i < n
  {
    VXor(x, Shuffle(x, i, n))
  }

  lemma {:induction false} FixpointZero(x: V128, i: nat, n: nat, k: nat)
    requires i < n && x == Shuffle(x, i, n) && k <= 64
    ensures LowZero(x, k)
    decreases k
  {
    hide Shuffle, LowZero;
    if k == 0 {
      NoneZero(x);
    } else {
      FixpointZero(x, i, n, k - 1);
      ShuffleLowZero(x, i, n, k - 1);
    }
  }

  lemma MixInjective(x: V128, y: V128, i: nat, n: nat)
    requires i < n && Mix(x, i, n) == Mix(y, i, n)
    ensures x == y
  {
    hide VXor, Shuffle, LowZero;
    var d := VXor(x, y);
    VXorSwap(x, Shuffle(x, i, n), y, Shuffle(y, i, n));
    ShuffleXor(x, y, i, n);
    VXorCancel(Mix(x, i, n), Mix(y, i, n), ZERO);
    VXorCancel(d, Shuffle(d, i, n), ZERO);
    FixpointZero(d, i, n, 64);
    AllZero(d);
    VXorCancel(x, y, ZERO);
  }

  /** Solves x ^ s(x) == y from the low bits up: each round fixes one more bit of each lane. */
  function Solve(y: V128, i: nat, n: nat, rounds: nat): V128
    requires i < n
  {
    if rounds == 0 then ZERO else VXor(y, Shuffle(Solve(y, i, n, rounds - 1), i, n))
  }

  lemma {:induction false} SolveConverges(y: V128, i: nat, n: nat, k: nat)
    requires i < n && k <= 64
    ensures LowZero(VXor(Solve(y, i, n, k + 1), Solve(y, i, n, k)), k)
    decreases k
  {
    hide VXor, Shuffle, LowZero;
    if k == 0 {
      NoneZero(VXor(Solve(y, i, n, 1), Solve(y, i, n, 0)));
    } else {
      var a, b := Solve(y, i, n, k), Solve(y, i, n, k - 1);
      SolveConverges(y, i, n, k - 1);
      ShuffleLowZero(VXor(a, b), i, n, k - 1);
      ShuffleXor(a, b, i, n);
      VXorSwap(y, Shuffle(a, i, n), y, Shuffle(b, i, n));
      VXorSelf(y);
      VXorZero(VXor(Shuffle(a, i, n), Shuffle(b, i, n)));
    }
  }

  lemma SolveExact(y: V128, i: nat, n: nat, k: nat)
    requires i < n && k == 64
    ensures Mix(Solve(y, i, n, k), i, n) == y
  {
    hide VXor, Shuffle, LowZero;
    var x, next := Solve(y, i, n, k), Solve(y, i, n, k + 1);
    SolveConverges(y, i, n, k);
    AllZero(VXor(next, x));
    VXorCancel(next, x, ZERO);
    assert next == VXor(y, Shuffle(x, i, n));
    VXorComm(y, Shuffle(x, i, n));
    VXorCancel(y, Shuffle(x, i, n), x);
    VXorCancel(x, Shuffle(x, i, n), y);
  }

  /** After 64 rounds the solution is exact, so x ^ s(x) is a bijection. */
  lemma MixInverts(y: V128, i: nat, n: nat, k: nat)
    requires i < n && k == 64
    ensures forall x :: Mix(x, i, n) == y <==> x == Solve(y, i, n, k)
  {
    hide Mix, Solve;
    SolveExact(y, i, n, k);
    forall x | Mix(x, i, n) == y ensures x == Solve(y, i, n, k) {
      MixInjective(x, Solve(y, i, n, k), i, n);
    }
  }

  // ---------------------------------------------------------------- where two shufflers agree

  lemma CancelFactor(p: nat, q: nat, u: int, t: int)
    requires p > 0 && u * p == p * q * t
    ensures u == q * t
  {
    assert p * (u - q * t) == 0;
    MulMono(p, u - q * t);
  }

  /** Only multiples of 2^(64 - s) are shifted out by `s` places. */
  lemma ShlZero(x: u64, s: nat)
    requires s <= 64
    ensures Shl(x, s) == 0 <==> x % Pow2(64 - s) == 0
  {
    hide Pow2;
    if x % Pow2(64 - s) == 0 {
      ShlAll(x, 64 - s, s);
    }
    if Shl(x, s) == 0 {
      Pow2Add(s, 64 - s);
      Pow2Values();
      var t := x * Pow2(s) / W;
      assert x * Pow2(s) == W * t;
      CancelFactor(Pow2(s), Pow2(64 - s), x, t);
      assert x == 0 + Pow2(64 - s) * t;
      DivModUnique(t, 0, Pow2(64 - s));
    }
  }

  lemma OddFactor(u: nat, c: nat, r: nat, t: int)
    requires c % 2 == 1 && u * c == 2 * r * t
    ensures u % 2 == 0
  {
    var d := c / 2;
    assert u * c == 2 * (u * d) + u;
    assert u == 2 * (r * t - u * d);
  }

  lemma PowOdd(k: nat)
    requires k >= 1
    ensures (Pow2(k) - 1) % 2 == 1
  {
    hide Pow2;
    Pow2Double(k - 1);
    HalfSum(1, Pow2(k - 1) - 1);
  }

  /** Two shifts of the same word agree only when everything that they keep is zero. */
  lemma {:induction false} EqualShifts(x: u64, a: nat, b: nat, k: nat)
    requires b < a && Shl(x, a) == Shl(x, b) && k + b <= 64
    ensures x % Pow2(k) == 0
    decreases k
  {
    if k > 0 {
      EqualShifts(x, a, b, k - 1);
      EqualShiftsStep(x, a, b, k - 1);
    }
  }

  lemma EqualShiftsStep(x: u64, a: nat, b: nat, k: nat)
    requires b < a && Shl(x, a) == Shl(x, b) && k + b < 64
    requires x % Pow2(k) == 0
    ensures x % Pow2(k + 1) == 0
  {
    hide Pow2;
    var u, r := High(x, k), Pow2(63 - k - b);
    MultipleOf(x, k);
    Pow2Add(b, a - b);
    Pow2Add(k, b);
    Pow2Add(k + b, 64 - k - b);
    Pow2Double(63 - k - b);
    Pow2Double(k);
    Pow2Values();
    PowOdd(a - b);
    var t := x * Pow2(a) / W - x * Pow2(b) / W;
    assert x * Pow2(a) - x * Pow2(b) == W * t;
    EvenQuotient(u, Pow2(k), Pow2(b), Pow2(a - b), r, t);
    EvenMultiple(u, Pow2(k));
  }

  lemma EvenQuotient(u: nat, p: nat, q: nat, c: nat, r: nat, t: int)
    requires c >= 1 && (c - 1) % 2 == 1 && p * q * (2 * r) == W
    requires u * p * (q * c) - u * p * q == W * t
    ensures u % 2 == 0
  {
    FactorShifts(u, p, q, c);
    CancelFactor(p * q, 2 * r, u * (c - 1), t);
    OddFactor(u, c - 1, r, t);
  }

  lemma EvenMultiple(u: nat, p: nat)
    requires u % 2 == 0 && p > 0
    ensures u * p % (2 * p) == 0
  {
    assert u * p == 0 + (2 * p) * (u / 2) by {
      assert 2 * (u / 2) == u;
    }
    DivModUnique(u / 2, 0, 2 * p);
  }

  lemma Pow2Double(k: nat)
    ensures Pow2(k + 1) == 2 * Pow2(k)
  {
  }

  lemma FactorShifts(u: nat, p: nat, q: nat, r: nat)
    requires r >= 1
    ensures u * p * (q * r) - u * p * q == u * (r - 1) * (p * q)
  {
    assert u * p * (q * r) == u * r * (p * q);
    assert u * p * q == u * (p * q);
  }

  /** How many low bits of each lane must be zero for shufflers i and j to agree. */
  function Depth(i: nat, j: nat, n: nat): nat
    requires 0 < i < j < n <= 16
  {
    if j + 1 == n then 64 - (n - i) else 64 - (n - j)
  }

  lemma LanesShifted(x: V128, a: nat, b: nat)
    requires 1 <= b < a <= 64
    ensures VShl(x, a) == VShl(x, b) <==> LowZero(x, 64 - b)
    ensures VShl(x, a) == ZERO <==> LowZero(x, 64 - a)
  {
    hide Pow2, Shl;
    ShlZero(x.lo, a);
    ShlZero(x.hi, a);
    if LowZero(x, 64 - b) {
      ShlAll(x.lo, 64 - b, a);
      ShlAll(x.hi, 64 - b, a);
      ShlAll(x.lo, 64 - b, b);
      ShlAll(x.hi, 64 - b, b);
    }
    if VShl(x, a) == VShl(x, b) {
      EqualShifts(x.lo, a, b, 64 - b);
      EqualShifts(x.hi, a, b, 64 - b);
    }
  }

  /**
   * Two different shufflers agree on a value exactly when its lanes are multiples of a power of
   * two: 2^(64 - (n - j)), or 2^(64 - (n - i)) if j is the last PH chunk.
   */
  lemma ShufflersAgree(x: V128, i: nat, j: nat, n: nat)
    requires 0 < i < j < n <= 16
    ensures Shuffle(x, i, n) == Shuffle(x, j, n) <==> LowZero(x, Depth(i, j, n))
  {
    hide VXor, VShl, LowZero;
    LanesShifted(x, n - i, n - j);
    if j + 1 == n {
      VXorZero(VShl(x, 1));
      VXorCancel(VShl(x, n - i), ZERO, VShl(x, 1));
    } else {
      VXorCancel(VShl(x, n - i), VShl(x, n - j), VShl(x, 1));
    }
  }

  /**
   * Two values have the same difference of shuffled values exactly when they differ by one on
   * which the shufflers agree: each value of the difference is taken on a coset of that space.
   */
  lemma ShufflersCoset(x: V128, y: V128, i: nat, j: nat, n: nat)
    requires 0 < i < j < n <= 16
    ensures VXor(Shuffle(x, i, n), Shuffle(x, j, n)) == VXor(Shuffle(y, i, n), Shuffle(y, j, n))
       <==> LowZero(VXor(x, y), Depth(i, j, n))
  {
    hide VXor, Shuffle, LowZero;
    var d := VXor(x, y);
    var xi, xj, yi, yj := Shuffle(x, i, n), Shuffle(x, j, n), Shuffle(y, i, n), Shuffle(y, j, n);
    ShuffleXor(x, y, i, n);
    ShuffleXor(x, y, j, n);
    VXorSwap(xi, xj, yi, yj);
    VXorCancel(VXor(xi, xj), VXor(yi, yj), ZERO);
    VXorCancel(Shuffle(d, i, n), Shuffle(d, j, n), ZERO);
    ShufflersAgree(d, i, j, n);
  }

  // ---------------------------------------------------------------- differences of two blocks

  function Delta(key: OhKey, xs: Chunks, ys: Chunks, k: nat): V128
    requires k < |xs| == |ys|
  {
    VXor(Ph(key, k, xs[k]), Ph(key, k, ys[k]))
  }

  /** The blocks agree on the first `m` chunks, except perhaps at `i` and at `j`. */
  predicate AgreeBut(xs: Chunks, ys: Chunks, m: nat, i: nat, j: nat) {
    |xs| == |ys| && m <= |xs| && forall k :: 0 <= k < m && k != i && k != j ==> xs[k] == ys[k]
  }

  /** The sum of the differences at `i` and at `j` among the first `m` chunks. */
  function PairDelta(key: OhKey, xs: Chunks, ys: Chunks, m: nat, i: nat, j: nat): V128
    requires m <= |xs| == |ys|
  {
    VXor(if i < m then Delta(key, xs, ys, i) else ZERO,
         if j < m && j != i then Delta(key, xs, ys, j) else ZERO)
  }

  lemma AddDelta(a: V128, b: V128, d: V128)
    ensures VXor(VXor(a, ZERO), d) == VXor(a, d)
    ensures VXor(VXor(ZERO, b), d) == VXor(d, b)
    ensures VXor(VXor(a, b), ZERO) == VXor(a, b)
  {
    hide VXor;
    VXorZero(a);
    VXorZero(b);
    VXorComm(b, d);
    VXorZero(VXor(a, b));
  }

  lemma {:induction false} PhFoldDelta(key: OhKey, xs: Chunks, ys: Chunks, m: nat, i: nat, j: nat)
    requires AgreeBut(xs, ys, m, i, j)
    ensures VXor(PhFold(key, xs[..m]), PhFold(key, ys[..m])) == PairDelta(key, xs, ys, m, i, j)
    decreases m
  {
    hide Ph, VXor;
    if m == 0 {
    } else {
      var l := m - 1;
      PhFoldDelta(key, xs, ys, l, i, j);
      assert xs[..m][..l] == xs[..l] && ys[..m][..l] == ys[..l];
      var p, q := Ph(key, l, xs[l]), Ph(key, l, ys[l]);
      VXorSwap(PhFold(key, xs[..l]), p, PhFold(key, ys[..l]), q);
      VXorSelf(p);
      AddDelta(if i < l then Delta(key, xs, ys, i) else ZERO,
               if j < l && j != i then Delta(key, xs, ys, j) else ZERO, VXor(p, q));
    }
  }

  /** The same sum, with each difference shuffled for its place in a block of `n` chunks. */
  function ShuffledDelta(key: OhKey, xs: Chunks, ys: Chunks, m: nat, i: nat, j: nat, n: nat): V128
    requires m <= |xs| == |ys| && m < n
  {
    VXor(if i < m then Shuffle(Delta(key, xs, ys, i), i + 1, n) else ZERO,
         if j < m && j != i then Shuffle(Delta(key, xs, ys, j), j + 1, n) else ZERO)
  }

  lemma {:induction false} ShuffleFoldDelta(key: OhKey, xs: Chunks, ys: Chunks, m: nat, i: nat,
                                            j: nat, n: nat)
    requires AgreeBut(xs, ys, m, i, j) && m < n
    ensures VXor(ShuffleFold(key, xs[..m], n), ShuffleFold(key, ys[..m], n))
         == ShuffledDelta(key, xs, ys, m, i, j, n)
    decreases m
  {
    hide Ph, VXor, Shuffle;
    if m == 0 {
    } else {
      var l := m - 1;
      ShuffleFoldDelta(key, xs, ys, l, i, j, n);
      assert xs[..m][..l] == xs[..l] && ys[..m][..l] == ys[..l];
      var p, q := Ph(key, l, xs[l]), Ph(key, l, ys[l]);
      var sp, sq := Shuffle(p, m, n), Shuffle(q, m, n);
      VXorSwap(ShuffleFold(key, xs[..l], n), sp, ShuffleFold(key, ys[..l], n), sq);
      ShuffleXor(p, q, m, n);
      VXorSelf(sp);
      AddDelta(if i < l then Shuffle(Delta(key, xs, ys, i), i + 1, n) else ZERO,
               if j < l && j != i then Shuffle(Delta(key, xs, ys, j), j + 1, n) else ZERO,
               VXor(sp, sq));
    }
  }

  // ---------------------------------------------------------------- collisions in both compressors

  predicate BothCollide(key: OhKey, xs: Chunks, s: u64, ys: Chunks, t: u64)
    requires xs != [] && ys != []
  {
    && OhPrimary(key, s, xs) == OhPrimary(key, t, ys)
    && OhSecondary(key, s, xs) == OhSecondary(key, t, ys)
  }

  lemma SumsCollide(a: V128, e: V128, b: V128, f: V128)
    ensures VXor(a, e) == VXor(b, f) <==> VXor(a, b) == VXor(e, f)
  {
    hide VXor;
    VXorSwap(a, e, b, f);
    VXorCancel(VXor(a, e), VXor(b, f), ZERO);
    VXorCancel(VXor(a, b), VXor(e, f), ZERO);
  }

  /** The difference of two blocks' sums of PH values. */
  function PhDifference(key: OhKey, xs: Chunks, ys: Chunks, m: nat): V128
    requires m <= |xs| == |ys|
  {
    VXor(PhFold(key, xs[..m]), PhFold(key, ys[..m]))
  }

  function ShuffleDifference(key: OhKey, xs: Chunks, ys: Chunks, m: nat, n: nat): V128
    requires m <= |xs| == |ys| && m < n
  {
    VXor(ShuffleFold(key, xs[..m], n), ShuffleFold(key, ys[..m], n))
  }

  /** With equal checksums, both collisions are equations between whole differences. */
  lemma BothEquations(key: OhKey, xs: Chunks, s: u64, ys: Chunks, t: u64)
    requires xs != [] && |xs| == |ys| && Lrc(key, xs) == Lrc(key, ys)
    ensures var m := |xs| - 1;
            var e := VXor(Enh(key, m, xs[m], s), Enh(key, m, ys[m], t));
            BothCollide(key, xs, s, ys, t)
            <==> PhDifference(key, xs, ys, m) == e && ShuffleDifference(key, xs, ys, m, |xs|) == e
  {
    hide Enh, VXor, PhFold, ShuffleFold, Clmul, Lrc;
    var m := |xs| - 1;
    var e, f := Enh(key, m, xs[m], s), Enh(key, m, ys[m], t);
    var a, b := ShuffleFold(key, xs[..m], |xs|), ShuffleFold(key, ys[..m], |ys|);
    var l := LrcPh(key, xs);
    SumsCollide(PhFold(key, xs[..m]), e, PhFold(key, ys[..m]), f);
    SumsCollide(VXor(a, l), e, VXor(b, l), f);
    VXorSwap(a, l, b, l);
    VXorSelf(l);
    VXorZero(VXor(a, b));
  }

  /** The same for blocks that differ in a given pair of PH chunks only, besides the last chunk. */
  lemma CollisionEquations(key: OhKey, xs: Chunks, s: u64, ys: Chunks, t: u64, i: nat, j: nat)
    requires xs != [] && |xs| == |ys|
    requires AgreeBut(xs, ys, |xs| - 1, i, j) && Lrc(key, xs) == Lrc(key, ys)
    ensures var m := |xs| - 1;
            var e := VXor(Enh(key, m, xs[m], s), Enh(key, m, ys[m], t));
            BothCollide(key, xs, s, ys, t)
            <==> && PairDelta(key, xs, ys, m, i, j) == e
                 && ShuffledDelta(key, xs, ys, m, i, j, |xs|) == e
  {
    hide Enh, VXor, PhFold, ShuffleFold, Lrc, AgreeBut, PairDelta, ShuffledDelta, BothCollide;
    BothEquations(key, xs, s, ys, t);
    PhFoldDelta(key, xs, ys, |xs| - 1, i, j);
    ShuffleFoldDelta(key, xs, ys, |xs| - 1, i, j, |xs|);
  }

  /**
   * Blocks with the same checksum that differ in one PH chunk and in the last chunk: both
   * compressors collide only when the PH values and the ENH values are separately equal.
   */
  lemma OnePhChunk(key: OhKey, xs: Chunks, s: u64, ys: Chunks, t: u64, j: nat)
    requires |xs| == |ys| && j < |xs| - 1
    requires AgreeBut(xs, ys, |xs| - 1, j, j) && Lrc(key, xs) == Lrc(key, ys)
    ensures BothCollide(key, xs, s, ys, t)
       <==> && Ph(key, j, xs[j]) == Ph(key, j, ys[j])
            && Enh(key, |xs| - 1, xs[|xs| - 1], s) == Enh(key, |xs| - 1, ys[|xs| - 1], t)
  {
    hide Enh, VXor, Ph, Shuffle, AgreeBut, BothCollide, Lrc;
    var m, n := |xs| - 1, |xs|;
    var e, f := Enh(key, m, xs[m], s), Enh(key, m, ys[m], t);
    var d := Delta(key, xs, ys, j);
    CollisionEquations(key, xs, s, ys, t, j, j);
    VXorZero(d);
    VXorZero(Shuffle(d, j + 1, n));
    VXorCancel(e, f, ZERO);
    VXorCancel(Ph(key, j, xs[j]), Ph(key, j, ys[j]), ZERO);
    ShuffleZero(j + 1, n);
    if d == Shuffle(d, j + 1, n) {
      VXorCancel(d, Shuffle(d, j + 1, n), ZERO);
      VXorZero(ZERO);
      MixInjective(d, ZERO, j + 1, n);
    }
  }

  lemma ShuffleZero(i: nat, n: nat)
    requires i <= n
    ensures Shuffle(ZERO, i, n) == ZERO
  {
    hide VShl;
    VShlZero(ZERO, 1);
    VShlZero(ZERO, n - i);
    VXorZero(ZERO);
  }

  /**
   * Blocks with the same checksum that differ in exactly two PH chunks: both compressors collide
   * exactly when the two differences are equal and lie where the two shufflers agree.
   */
  lemma TwoPhChunks(key: OhKey, xs: Chunks, ys: Chunks, t: u64, i: nat, j: nat)
    requires |xs| == |ys| && i < j < |xs| - 1
    requires AgreeBut(xs, ys, |xs|, i, j) && Lrc(key, xs) == Lrc(key, ys)
    ensures BothCollide(key, xs, t, ys, t)
       <==> && Delta(key, xs, ys, i) == Delta(key, xs, ys, j)
            && LowZero(Delta(key, xs, ys, j), Depth(i + 1, j + 1, |xs|))
  {
    hide Enh, VXor, Ph, Shuffle, BothCollide, Lrc, LowZero;
    var m, n := |xs| - 1, |xs|;
    var c, d := Delta(key, xs, ys, i), Delta(key, xs, ys, j);
    CollisionEquations(key, xs, t, ys, t, i, j);
    assert xs[m] == ys[m];
    VXorSelf(Enh(key, m, xs[m], t));
    VXorCancel(c, d, ZERO);
    VXorCancel(Shuffle(c, i + 1, n), Shuffle(d, j + 1, n), ZERO);
    ShufflersAgree(d, i + 1, j + 1, n);
  }

  // ---------------------------------------------------------------- two keys, any other differences

  /** The keys differ at most in the words of the chunks `i` and `j`. */
  predicate SameButTwo(key: OhKey, key': OhKey, i: nat, j: nat) {
    forall w :: 0 <= w < 34 && w / 2 != i && w / 2 != j ==> key[w] == key'[w]
  }

  lemma MixedSame(key: OhKey, key': OhKey, i: nat, j: nat, l: nat, c: V128)
    requires SameButTwo(key, key', i, j) && l < 16 && l != i && l != j
    ensures Ph(key, l, c) == Ph(key', l, c)
    ensures forall t: u64 :: Enh(key, l, c, t) == Enh(key', l, c, t)
  {
    hide Clmul, Fold, Product, VXor;
    assert 2 * l / 2 == l && (2 * l + 1) / 2 == l;
    assert key[2 * l] == key'[2 * l] && key[2 * l + 1] == key'[2 * l + 1];
  }

  /** How far the difference of the mixed values of chunk `k` moves from one key to the other. */
  function Change(key: OhKey, key': OhKey, xs: Chunks, ys: Chunks, k: nat): V128
    requires k < |xs| == |ys|
  {
    VXor(Delta(key, xs, ys, k), Delta(key', xs, ys, k))
  }

  /** The sum of the changes at `i` and at `j` among the first `m` chunks. */
  function Changes(a: V128, b: V128, m: nat, i: nat, j: nat): V128 {
    VXor(if i < m then a else ZERO, if j < m then b else ZERO)
  }

  lemma DifferencesNext(key: OhKey, xs: Chunks, ys: Chunks, l: nat, n: nat)
    requires l < |xs| == |ys| && l + 1 < n
    ensures PhDifference(key, xs, ys, l + 1)
         == VXor(PhDifference(key, xs, ys, l), Delta(key, xs, ys, l))
    ensures ShuffleDifference(key, xs, ys, l + 1, n)
         == VXor(ShuffleDifference(key, xs, ys, l, n), Shuffle(Delta(key, xs, ys, l), l + 1, n))
  {
    hide Ph, VXor, Shuffle;
    assert xs[..l + 1][..l] == xs[..l] && ys[..l + 1][..l] == ys[..l];
    var p, q := Ph(key, l, xs[l]), Ph(key, l, ys[l]);
    VXorSwap(PhFold(key, xs[..l]), p, PhFold(key, ys[..l]), q);
    VXorSwap(ShuffleFold(key, xs[..l], n), Shuffle(p, l + 1, n),
             ShuffleFold(key, ys[..l], n), Shuffle(q, l + 1, n));
    ShuffleXor(p, q, l + 1, n);
  }

  /** One more term on both sides of a difference: it cancels unless it changes. */
  lemma AddChange(d: V128, p: V128, d': V128, p': V128, a: V128, b: V128, m: nat, i: nat, j: nat)
    requires i < j && VXor(d, d') == Changes(a, b, m, i, j)
    requires if m == i then VXor(p, p') == a else if m == j then VXor(p, p') == b else p == p'
    ensures VXor(VXor(d, p), VXor(d', p')) == Changes(a, b, m + 1, i, j)
  {
    hide VXor;
    VXorSwap(d, p, d', p');
    VXorSelf(p);
    VXorZero(ZERO);
    VXorZero(a);
    VXorZero(VXor(a, ZERO));
    VXorZero(VXor(a, b));
  }

  lemma {:induction false} DifferencesChange(key: OhKey, key': OhKey, xs: Chunks, ys: Chunks,
                                             i: nat, j: nat, m: nat, n: nat)
    requires SameButTwo(key, key', i, j) && i < j < |xs| == |ys| && m <= |xs| && m < n && j + 1 < n
    ensures var a, b := Change(key, key', xs, ys, i), Change(key, key', xs, ys, j);
            && VXor(PhDifference(key, xs, ys, m), PhDifference(key', xs, ys, m)) == Changes(a, b, m, i, j)
            && VXor(ShuffleDifference(key, xs, ys, m, n), ShuffleDifference(key', xs, ys, m, n))
               == Changes(Shuffle(a, i + 1, n), Shuffle(b, j + 1, n), m, i, j)
    decreases m
  {
    hide Ph, VXor, Shuffle, Delta, PhDifference, ShuffleDifference, SameButTwo, Changes;
    var a, b := Change(key, key', xs, ys, i), Change(key, key', xs, ys, j);
    if m == 0 {
      DifferencesStart(key, key', xs, ys, n);
      ChangesStart(a, b, i, j);
      ChangesStart(Shuffle(a, i + 1, n), Shuffle(b, j + 1, n), i, j);
    } else {
      var l := m - 1;
      var p, q := Delta(key, xs, ys, l), Delta(key', xs, ys, l);
      DifferencesChange(key, key', xs, ys, i, j, l, n);
      DifferencesNext(key, xs, ys, l, n);
      DifferencesNext(key', xs, ys, l, n);
      if l != i && l != j {
        DeltaSame(key, key', i, j, xs, ys, l);
      }
      ShuffleXor(p, q, l + 1, n);
      AddChange(PhDifference(key, xs, ys, l), p, PhDifference(key', xs, ys, l), q, a, b, l, i, j);
      AddChange(ShuffleDifference(key, xs, ys, l, n), Shuffle(p, m, n),
                ShuffleDifference(key', xs, ys, l, n), Shuffle(q, m, n),
                Shuffle(a, i + 1, n), Shuffle(b, j + 1, n), l, i, j);
    }
  }

  lemma DifferencesStart(key: OhKey, key': OhKey, xs: Chunks, ys: Chunks, n: nat)
    requires |xs| == |ys| && n > 0
    ensures VXor(PhDifference(key, xs, ys, 0), PhDifference(key', xs, ys, 0)) == ZERO
    ensures VXor(ShuffleDifference(key, xs, ys, 0, n), ShuffleDifference(key', xs, ys, 0, n)) == ZERO
  {
    hide VXor;
    VXorZero(ZERO);
  }

  lemma ChangesStart(a: V128, b: V128, i: nat, j: nat)
    ensures Changes(a, b, 0, i, j) == ZERO
  {
    hide VXor;
    VXorZero(ZERO);
  }

  lemma DeltaSame(key: OhKey, key': OhKey, i: nat, j: nat, xs: Chunks, ys: Chunks, l: nat)
    requires SameButTwo(key, key', i, j) && l < |xs| == |ys| && l != i && l != j
    ensures Delta(key, xs, ys, l) == Delta(key', xs, ys, l)
  {
    hide Ph, VXor, SameButTwo;
    MixedSame(key, key', i, j, l, xs[l]);
    MixedSame(key, key', i, j, l, ys[l]);
  }

  /** The difference of two checksums does not depend on the key. */
  lemma {:induction false} ChecksumKeys(key: OhKey, key': OhKey, xs: Chunks, ys: Chunks)
    requires |xs| == |ys|
    ensures VXor(Lrc(key, xs), Lrc(key, ys)) == VXor(Lrc(key', xs), Lrc(key', ys))
  {
    hide VXor, Whiten;
    if xs == [] {
      VXorSelf(Lrc(key, []));
      VXorSelf(Lrc(key', []));
    } else {
      var m := |xs| - 1;
      ChecksumKeys(key, key', xs[..m], ys[..m]);
      WhitenDifference(key, m, xs[m], ys[m]);
      WhitenDifference(key', m, xs[m], ys[m]);
      VXorSwap(Lrc(key, xs[..m]), Whiten(key, m, xs[m]), Lrc(key, ys[..m]), Whiten(key, m, ys[m]));
      VXorSwap(Lrc(key', xs[..m]), Whiten(key', m, xs[m]), Lrc(key', ys[..m]), Whiten(key', m, ys[m]));
    }
  }

  lemma WhitenDifference(key: OhKey, i: nat, x: V128, y: V128)
    requires i < 16
    ensures VXor(Whiten(key, i, x), Whiten(key, i, y)) == VXor(x, y)
  {
    hide VXor;
    var k := V128(key[2 * i], key[2 * i + 1]);
    VXorSwap(x, k, y, k);
    VXorSelf(k);
    VXorZero(VXor(x, y));
  }

  lemma ChecksumsAgree(key: OhKey, key': OhKey, xs: Chunks, ys: Chunks)
    requires |xs| == |ys| && Lrc(key, xs) == Lrc(key, ys)
    ensures Lrc(key', xs) == Lrc(key', ys)
  {
    hide VXor, Lrc;
    ChecksumKeys(key, key', xs, ys);
    VXorCancel(Lrc(key, xs), Lrc(key, ys), ZERO);
    VXorCancel(Lrc(key', xs), Lrc(key', ys), ZERO);
  }

  /**
   * Any two blocks with the same number of chunks and the same checksum, under any tags. Take a key
   * under which both compressors collide, and change its words for two PH chunks: they collide
   * again exactly when both chunks' differences change by the same amount, and the shufflers of the
   * two chunks agree on that amount.
   */
  lemma TwoKeysCollide(key: OhKey, key': OhKey, xs: Chunks, s: u64, ys: Chunks, t: u64, i: nat, j: nat)
    requires |xs| == |ys| && i < j < |xs| - 1 && Lrc(key, xs) == Lrc(key, ys)
    requires SameButTwo(key, key', i, j) && BothCollide(key, xs, s, ys, t)
    ensures BothCollide(key', xs, s, ys, t)
       <==> && Change(key, key', xs, ys, i) == Change(key, key', xs, ys, j)
            && LowZero(Change(key, key', xs, ys, i), Depth(i + 1, j + 1, |xs|))
  {
    hide Enh, VXor, Shuffle, BothCollide, Lrc, LowZero, PhDifference, ShuffleDifference, Change, SameButTwo;
    var m, n := |xs| - 1, |xs|;
    var a, b := Change(key, key', xs, ys, i), Change(key, key', xs, ys, j);
    ChecksumsAgree(key, key', xs, ys);
    BothEquations(key, xs, s, ys, t);
    BothEquations(key', xs, s, ys, t);
    MixedSame(key, key', i, j, m, xs[m]);
    MixedSame(key, key', i, j, m, ys[m]);
    DifferencesChange(key, key', xs, ys, i, j, m, n);
    VXorCancel(PhDifference(key, xs, ys, m), PhDifference(key', xs, ys, m), ZERO);
    VXorCancel(ShuffleDifference(key, xs, ys, m, n), ShuffleDifference(key', xs, ys, m, n), ZERO);
    VXorCancel(a, b, ZERO);
    VXorCancel(Shuffle(a, i + 1, n), Shuffle(b, j + 1, n), ZERO);
    ShufflersAgree(a, i + 1, j + 1, n);
  }
}
