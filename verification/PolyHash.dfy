/** The polynomial hash in the field modulo 2^61 - 1, and how many multipliers can collide. */
module PolyHash {
  import opened Words
  import opened ModArith
  import opened Lanes
  import opened Bytes
  import opened Oh
  import opened Umash
  import opened FiniteSets
  import Finalizer

  // ---------------------------------------------------------------- primes

  predicate Divides(d: int, n: int)
    requires d > 0
  {
    n % d == 0
  }

  ghost predicate Prime(p: int) {
    p >= 2 && forall m :: 2 <= m < p ==> !Divides(m, p)
  }

  /** Primality as it is used here is that of the integers. */
  lemma PrimeMeans(p: int)
    ensures Prime(p) <==> p >= 2 && forall a: nat, b: nat :: a * b == p ==> a == 1 || b == 1
  {
    if Prime(p) {
      forall a: nat, b: nat | a * b == p ensures a == 1 || b == 1 {
        if a != 1 {
          FactorDivides(p, a, b);
        }
      }
    }
    if p >= 2 && !Prime(p) {
      CompositeFactors(p);
    }
  }

  lemma CompositeFactors(p: int)
    requires p >= 2 && !Prime(p)
    ensures exists a: nat, b: nat :: a * b == p && a != 1 && b != 1
  {
    var m :| 2 <= m < p && Divides(m, p);
    assert m * (p / m) == p;
  }

  lemma FactorDivides(p: int, a: nat, b: nat)
    requires p >= 2 && a * b == p && a != 1
    ensures 2 <= a <= p && Divides(a, p) && (a == p ==> b == 1)
  {
    if a == 0 {
      assert false;
    }
    if b == 0 {
      assert false;
    }
    Words.MulLe(1, b, a);
    DivModUnique(b, 0, a);
    if a == p && b >= 2 {
      Words.MulLe(2, b, a);
    }
  }

  /** The least positive multiplier that sends `b` to a multiple of `p`, from `k` up. */
  function LeastZero(p: int, b: int, k: int): (m: int)
    requires 1 <= k <= p
    ensures k <= m <= p && m * b % p == 0
    ensures forall j {:trigger j * b} :: k <= j < m ==> j * b % p != 0
    decreases p - k
  {
    if k == p then DivModUnique(b, 0, p); p
    else if k * b % p == 0 then k
    else LeastZero(p, b, k + 1)
  }

  lemma RemainderZero(p: int, b: int, m: int, k: int)
    requires p >= 1 && m >= 1 && m * b % p == 0 && k * b % p == 0
    ensures k % m * b % p == 0
  {
    var q, t := k / m, m * b / p;
    assert m * b == p * t;
    Rearrange(k, m, q, b, p, t);
    ModAddMultiple(k * b, -(t * q), p);
  }

  lemma Rearrange(k: int, m: int, q: int, b: int, p: int, t: int)
    requires m >= 1 && q == k / m && m * b == p * t
    ensures k % m * b == k * b + p * -(t * q)
  {
    assert k == m * q + k % m;
    assert (k - m * q) * b == k * b - m * b * q;
    assert p * t * q == p * (t * q);
  }

  /** Everything that sends `b` to a multiple of `p` is a multiple of the least such number. */
  lemma LeastDivides(p: int, b: int, m: int, k: nat)
    requires p >= 1 && m == LeastZero(p, b, 1) && k * b % p == 0
    ensures k % m == 0
  {
    RemainderZero(p, b, m, k);
    assert k % m * b % p == 0;
  }

  /** A prime that divides a product divides one of its factors. */
  lemma Euclid(p: int, a: int, b: int)
    requires Prime(p) && a * b % p == 0
    ensures a % p == 0 || b % p == 0
  {
    var m := LeastZero(p, b, 1);
    var r := a % p;
    ModMul(a, b, p);
    LeastDivides(p, b, m, r);
    DivModUnique(b, 0, p);
    LeastDivides(p, b, m, p);
    assert Divides(m, p);
    if r > 0 && m == p {
      DivModUnique(0, r, p);
      assert false;
    }
  }

  // ---------------------------------------------------------------- polynomials

  /** Horner evaluation, leading coefficient first. */
  function Eval(c: seq<int>, x: int): int {
    if c == [] then 0 else Eval(c[..|c| - 1], x) * x + c[|c| - 1]
  }

  /** Synthetic division by X - r: all the intermediate sums but the last. */
  function Deflate(c: seq<int>, r: int): (q: seq<int>)
    requires c != []
    ensures |q| == |c| - 1
  {
    var n := |c| - 1;
    if n == 0 then [] else Deflate(c[..n], r) + [Eval(c[..n], r)]
  }

  lemma EvalSnoc(c: seq<int>, a: int, x: int)
    ensures Eval(c + [a], x) == Eval(c, x) * x + a
  {
    assert (c + [a])[..|c|] == c;
  }

  lemma DeflateSnoc(c: seq<int>, a: int, r: int)
    requires c != []
    ensures Deflate(c + [a], r) == Deflate(c, r) + [Eval(c, r)]
  {
    hide Eval;
    assert (c + [a])[..|c|] == c;
  }

  lemma SynthDivision(x: int, r: int, d: int, e: int, a: int)
    ensures ((x - r) * d + e) * x + a == (x - r) * (d * x + e) + (e * r + a)
  {
  }

  lemma {:induction false} DeflateEval(c: seq<int>, r: int, x: int)
    requires c != []
    ensures Eval(c, x) == (x - r) * Eval(Deflate(c, r), x) + Eval(c, r)
  {
    hide Eval, Deflate;
    var n := |c| - 1;
    var front, a := c[..n], c[n];
    assert c == front + [a];
    EvalSnoc(front, a, x);
    EvalSnoc(front, a, r);
    if n == 0 {
      DeflateOne(c, r, x);
    } else {
      var d, e := Eval(Deflate(front, r), x), Eval(front, r);
      DeflateEval(front, r, x);
      DeflateSnoc(front, a, r);
      EvalSnoc(Deflate(front, r), e, x);
      SynthDivision(x, r, d, e, a);
    }
  }

  lemma DeflateOne(c: seq<int>, r: int, x: int)
    requires |c| == 1
    ensures Deflate(c, r) == [] && Eval(Deflate(c, r), x) == 0
    ensures Eval(c, x) == Eval(c, r) == c[0] && Eval(c[..0], x) == Eval(c[..0], r) == 0
  {
    assert c[..0] == [];
  }

  /** All the coefficients vanish in the field. */
  predicate ZeroPoly(c: seq<int>, p: int)
    requires p > 0
  {
    forall i :: 0 <= i < |c| ==> c[i] % p == 0
  }

  lemma SumOfMultiples(a: int, x: int, b: int, p: int)
    requires p > 0 && a % p == 0
    ensures (a * x + b) % p == b % p
  {
    var t := a / p;
    assert a == p * t;
    assert a * x + b == b + p * (t * x) by {
      assert p * t * x == p * (t * x);
    }
    ModAddMultiple(b, t * x, p);
  }

  lemma {:induction false} ZeroPolyEval(c: seq<int>, p: int, x: int)
    requires p > 0 && ZeroPoly(c, p)
    ensures Eval(c, x) % p == 0
  {
    if c != [] {
      var n := |c| - 1;
      ZeroPolyEval(c[..n], p, x);
      SumOfMultiples(Eval(c[..n], x), x, c[n], p);
    }
  }

  lemma ZeroPolySnoc(c: seq<int>, a: int, p: int)
    requires p > 0
    ensures ZeroPoly(c + [a], p) <==> ZeroPoly(c, p) && a % p == 0
  {
    assert (c + [a])[|c|] == a;
    assert forall i :: 0 <= i < |c| ==> (c + [a])[i] == c[i];
  }

  /** If the quotient vanishes and `r` is a root, so do all the coefficients. */
  lemma {:induction false} DeflateZero(c: seq<int>, p: int, r: int)
    requires p > 0 && c != [] && ZeroPoly(Deflate(c, r), p) && Eval(c, r) % p == 0
    ensures ZeroPoly(c, p)
  {
    hide Eval, Deflate, ZeroPoly;
    var n := |c| - 1;
    var front, a := c[..n], c[n];
    assert c == front + [a];
    var e := Eval(front, r);
    EvalSnoc(front, a, r);
    ZeroPolySnoc(front, a, p);
    if n == 0 {
      DeflateOne(c, r, r);
      ZeroPolyEmpty(p);
      assert front == [];
    } else {
      DeflateSnoc(front, a, r);
      ZeroPolySnoc(Deflate(front, r), e, p);
      DeflateZero(front, p, r);
    }
    SumOfMultiples(e, r, a, p);
  }

  lemma ZeroPolyEmpty(p: int)
    requires p > 0
    ensures ZeroPoly([], p)
  {
  }

  predicate IsRoot(c: seq<int>, p: int, x: int)
    requires p > 0
  {
    Eval(c, x) % p == 0
  }

  /** Another root is a root of the quotient. */
  lemma OtherRoot(c: seq<int>, p: int, r: int, x: int)
    requires Prime(p) && c != [] && 0 <= r < p && 0 <= x < p && x != r
    requires IsRoot(c, p, r) && IsRoot(c, p, x)
    ensures IsRoot(Deflate(c, r), p, x)
  {
    var q := Eval(Deflate(c, r), x);
    DeflateEval(c, r, x);
    ModAdd((x - r) * q, Eval(c, r), p);
    ModAdd(Eval(c, r), (x - r) * q, p);
    assert (x - r) * q % p == 0;
    Euclid(p, x - r, q);
    if (x - r) % p == 0 {
      SmallMultiple(x - r, p);
    }
  }

  lemma SmallMultiple(x: int, p: int)
    requires p > 0 && -p < x < p && x % p == 0
    ensures x == 0
  {
    MulMono(p, x / p);
  }

  /** A polynomial that does not vanish has at most as many roots as its degree. */
  lemma {:induction false} RootCount(c: seq<int>, p: int, roots: set<int>)
    requires Prime(p) && !ZeroPoly(c, p)
    requires forall x :: x in roots ==> 0 <= x < p && IsRoot(c, p, x)
    ensures |roots| <= |c| - 1
    decreases |c|
  {
    hide Eval, Deflate, ZeroPoly;
    ZeroPolyEmpty(p);
    if |roots| > 0 {
      var r := Some(roots);
      var rest := roots - {r};
      var q := Deflate(c, r);
      if ZeroPoly(q, p) {
        DeflateZero(c, p, r);
        assert false;
      }
      forall x | x in rest ensures 0 <= x < p && IsRoot(q, p, x) {
        OtherRoot(c, p, r, x);
      }
      RootCount(q, p, rest);
      assert roots == rest + {r};
    }
  }

  // ---------------------------------------------------------------- the hash as a polynomial

  /** The stream of alternating low and high halves. */
  function Halves(ys: seq<V128>): (h: seq<int>)
    ensures |h| == 2 * |ys|
  {
    if ys == [] then [] else Halves(ys[..|ys| - 1]) + [ys[|ys| - 1].lo, ys[|ys| - 1].hi]
  }

  function Power(f: int, k: nat): int {
    if k == 0 then 1 else f * Power(f, k - 1)
  }

  /** The sum of y_j * f^(1 + d - j) over a stream of d halves. */
  function CarterWegman(f: int, h: seq<int>): int {
    if h == [] then 0 else h[0] * Power(f, |h|) + CarterWegman(f, h[1..])
  }

  lemma {:induction false} CarterWegmanSnoc(f: int, h: seq<int>, a: int)
    ensures CarterWegman(f, h + [a]) == f * (CarterWegman(f, h) + a)
    decreases |h|
  {
    if h == [] {
      assert ([] + [a])[1..] == [];
      assert CarterWegman(f, [a]) == a * Power(f, 1) + CarterWegman(f, []);
      assert Power(f, 1) == f * Power(f, 0) == f;
      assert h + [a] == [a];
    } else {
      assert (h + [a])[1..] == h[1..] + [a];
      CarterWegmanSnoc(f, h[1..], a);
      FactorOut(f, h[0], Power(f, |h|), CarterWegman(f, h[1..]), a);
    }
  }

  lemma FactorOut(f: int, b: int, p: int, t: int, a: int)
    ensures b * (f * p) + f * (t + a) == f * (b * p + t + a)
  {
  }

  lemma {:induction false} CarterWegmanEval(f: int, h: seq<int>)
    ensures CarterWegman(f, h) == f * Eval(h, f)
  {
    if h == [] {
    } else {
      var n := |h| - 1;
      assert h == h[..n] + [h[n]];
      CarterWegmanEval(f, h[..n]);
      CarterWegmanSnoc(f, h[..n], h[n]);
      EvalSnoc(h[..n], h[n], f);
    }
  }

  /** Two Horner updates. */
  function Twice(f: int, a: int, x: int, y: int): int {
    f * (f * (a + x) + y)
  }

  function Weighted(initial: int, p: int, t: int): int {
    initial * p + t
  }

  lemma StepTwice(f: Field, ys: seq<V128>, initial: nat)
    requires ys != []
    ensures var n := |ys| - 1;
            PolyReduce(f, ys, initial) % P == Twice(f, PolyReduce(f, ys[..n], initial), ys[n].lo, ys[n].hi) % P
  {
    hide PolyStep;
    var n := |ys| - 1;
    PolyStepField(f, PolyReduce(f, ys[..n], initial), ys[n]);
  }

  lemma WeightedTwice(f: int, acc: int, initial: int, p: int, t: int, x: int, y: int)
    requires acc % P == Weighted(initial, p, t) % P
    ensures Twice(f, acc, x, y) % P == Weighted(initial, Twice(f, p, 0, 0), Twice(f, t, x, y)) % P
  {
    DoubleUpdate(f, acc, initial * p + t, x, y);
    ExpandUpdate(f, initial, p, t, x, y);
  }

  lemma {:induction false} ReduceWeighted(f: Field, ys: seq<V128>, initial: nat)
    ensures PolyReduce(f, ys, initial) % P
         == Weighted(initial, Power(f, 2 * |ys|), CarterWegman(f, Halves(ys))) % P
    decreases |ys|
  {
    if ys == [] {
      hide CarterWegman, Halves;
      HalvesNone();
      assert Power(f, 0) == 1;
    } else {
      hide CarterWegman, Halves, PolyReduce, Power, Twice, Weighted;
      var n := |ys| - 1;
      ReduceWeighted(f, ys[..n], initial);
      StepTwice(f, ys, initial);
      PowerTwo(f, n);
      HalvesSnoc(f, ys);
      WeightedTwice(f, PolyReduce(f, ys[..n], initial), initial, Power(f, 2 * n),
                    CarterWegman(f, Halves(ys[..n])), ys[n].lo, ys[n].hi);
    }
  }

  /** The accumulator is the documented polynomial, in the field and for any initial value. */
  lemma PolyReduceIsCarterWegman(f: Field, ys: seq<V128>, initial: nat)
    ensures PolyReduce(f, ys, initial) % P
         == (initial * Power(f, 2 * |ys|) + CarterWegman(f, Halves(ys))) % P
  {
    hide CarterWegman, Halves, PolyReduce, Power;
    ReduceWeighted(f, ys, initial);
  }

  lemma PowerTwo(f: int, n: nat)
    ensures Power(f, 2 * n + 2) == Twice(f, Power(f, 2 * n), 0, 0)
  {
    assert Power(f, 2 * n + 2) == f * Power(f, 2 * n + 1);
  }

  lemma HalvesNone()
    ensures Halves([]) == [] && forall f :: CarterWegman(f, []) == 0
  {
  }

  lemma HalvesSnoc(f: int, ys: seq<V128>)
    requires ys != []
    ensures var n := |ys| - 1;
            CarterWegman(f, Halves(ys)) == Twice(f, CarterWegman(f, Halves(ys[..n])), ys[n].lo, ys[n].hi)
  {
    hide CarterWegman;
    var n := |ys| - 1;
    var h := Halves(ys[..n]);
    assert Halves(ys) == (h + [ys[n].lo]) + [ys[n].hi];
    CarterWegmanSnoc(f, h, ys[n].lo);
    CarterWegmanSnoc(f, h + [ys[n].lo], ys[n].hi);
  }

  lemma DoubleUpdate(f: int, a: int, b: int, x: int, y: int)
    requires a % P == b % P
    ensures f * (f * (a + x) + y) % P == f * (f * (b + x) + y) % P
  {
    var q := (a - b) / P;
    assert a == b + P * q by {
      ModAdd(a, -b, P);
      ModAdd(b, -b, P);
    }
    ExpandMultiple(f, b, q, x, y);
    ModAddMultiple(f * (f * (b + x) + y), f * (f * q), P);
  }

  lemma ExpandMultiple(f: int, b: int, q: int, x: int, y: int)
    ensures f * (f * (b + P * q + x) + y) == f * (f * (b + x) + y) + P * (f * (f * q))
  {
  }

  lemma ExpandUpdate(f: int, i: int, p: int, t: int, x: int, y: int)
    ensures f * (f * (i * p + t + x) + y) == i * (f * (f * p)) + f * (f * (t + x) + y)
  {
  }

  // ---------------------------------------------------------------- colliding multipliers

  /** The difference of two streams of halves. */
  function Difference(g: seq<int>, h: seq<int>): (d: seq<int>)
    requires |g| == |h|
    ensures |d| == |g|
  {
    if g == [] then [] else Difference(g[..|g| - 1], h[..|h| - 1]) + [g[|g| - 1] - h[|h| - 1]]
  }

  lemma {:induction false} DifferenceEval(g: seq<int>, h: seq<int>, x: int)
    requires |g| == |h|
    ensures Eval(Difference(g, h), x) == Eval(g, x) - Eval(h, x)
    decreases |g|
  {
    if g != [] {
      var n := |g| - 1;
      DifferenceEval(g[..n], h[..n], x);
      EvalSnoc(Difference(g[..n], h[..n]), g[n] - h[n], x);
    }
  }

  lemma {:induction false} DifferenceAt(g: seq<int>, h: seq<int>, i: nat)
    requires i < |g| == |h|
    ensures Difference(g, h)[i] == g[i] - h[i]
    decreases |g|
  {
    if i < |g| - 1 {
      DifferenceAt(g[..|g| - 1], h[..|h| - 1], i);
    }
  }

  /** Two streams are the same in the field. */
  predicate SameInField(ys: seq<V128>, zs: seq<V128>)
    requires |ys| == |zs|
  {
    ZeroPoly(Difference(Halves(ys), Halves(zs)), P)
  }

  lemma {:induction false} HalvesAt(ys: seq<V128>, i: nat)
    requires i < |ys|
    ensures Halves(ys)[2 * i] == ys[i].lo && Halves(ys)[2 * i + 1] == ys[i].hi
    decreases |ys|
  {
    if i < |ys| - 1 {
      HalvesAt(ys[..|ys| - 1], i);
    }
  }

  /** Both halves of two values are congruent. */
  predicate SameHalves(y: V128, z: V128) {
    (y.lo - z.lo) % P == 0 && (y.hi - z.hi) % P == 0
  }

  /** Two streams are the same in the field exactly when all their halves are. */
  lemma SameInFieldMeans(ys: seq<V128>, zs: seq<V128>)
    requires |ys| == |zs|
    ensures SameInField(ys, zs) <==> forall i :: 0 <= i < |ys| ==> SameHalves(ys[i], zs[i])
  {
    hide Halves, Difference;
    var g, h := Halves(ys), Halves(zs);
    var d := Difference(g, h);
    forall i | 0 <= i < |ys|
      ensures SameHalves(ys[i], zs[i]) <==> d[2 * i] % P == 0 && d[2 * i + 1] % P == 0
    {
      HalvesAt(ys, i);
      HalvesAt(zs, i);
      DifferenceAt(g, h, 2 * i);
      DifferenceAt(g, h, 2 * i + 1);
    }
    if forall i :: 0 <= i < |ys| ==> SameHalves(ys[i], zs[i]) {
      forall k | 0 <= k < |d| ensures d[k] % P == 0 {
        assert SameHalves(ys[k / 2], zs[k / 2]);
        assert k == 2 * (k / 2) || k == 2 * (k / 2) + 1;
      }
    }
  }

  /** The multiplier `f` does not tell the two streams apart in the field. */
  predicate Collides(ys: seq<V128>, zs: seq<V128>, f: int)
    requires |ys| == |zs|
  {
    0 <= f < P && PolyReduce(f, ys, 0) % P == PolyReduce(f, zs, 0) % P
  }

  /** A multiplier collides exactly when it annihilates the difference polynomial. */
  lemma CollidesIsRoot(ys: seq<V128>, zs: seq<V128>, f: Field)
    requires |ys| == |zs|
    ensures Collides(ys, zs, f)
       <==> f * Eval(Difference(Halves(ys), Halves(zs)), f) % P == 0
  {
    hide PolyReduce, Eval, Difference, Halves, CarterWegman;
    var a, b := Eval(Halves(ys), f), Eval(Halves(zs), f);
    PolyReduceIsCarterWegman(f, ys, 0);
    PolyReduceIsCarterWegman(f, zs, 0);
    CarterWegmanEval(f, Halves(ys));
    CarterWegmanEval(f, Halves(zs));
    DifferenceEval(Halves(ys), Halves(zs), f);
    CongruentDifference(f * a, f * b);
    assert f * (a - b) == f * a - f * b;
  }

  lemma CongruentDifference(a: int, b: int)
    ensures a % P == b % P <==> (a - b) % P == 0
  {
    ModAdd(a, -b, P);
    ModAdd(b, -b, P);
    ModAdd(a - b, b, P);
  }

  ghost function Colliders(ys: seq<V128>, zs: seq<V128>): set<int>
    requires |ys| == |zs|
  {
    set f | 1 <= f < P && Collides(ys, zs, f)
  }

  /** The colliders are the valid multipliers under which the two accumulators agree in the field. */
  lemma ColliderMeans(ys: seq<V128>, zs: seq<V128>, f: int)
    requires |ys| == |zs|
    ensures f in Colliders(ys, zs)
       <==> && 0 < f < 0x1FFF_FFFF_FFFF_FFFF
            && PolyReduce(f, ys, 0) % 0x1FFF_FFFF_FFFF_FFFF == PolyReduce(f, zs, 0) % 0x1FFF_FFFF_FFFF_FFFF
  {
  }

  /**
   * For streams of n blocks, at most 2n - 1 of the valid multipliers collide, unless the streams
   * are the same in the field; then all of them do.
   */
  lemma FewColliders(ys: seq<V128>, zs: seq<V128>)
    requires Prime(P) && |ys| == |zs|
    ensures !SameInField(ys, zs) ==> |Colliders(ys, zs)| <= 2 * |ys| - 1
    ensures SameInField(ys, zs) ==> forall f :: 0 <= f < P ==> Collides(ys, zs, f)
  {
    hide Prime, Eval, Difference, Halves, Collides, ZeroPoly;
    var c := Difference(Halves(ys), Halves(zs));
    var roots := Colliders(ys, zs);
    if SameInField(ys, zs) {
      forall f | 0 <= f < P ensures Collides(ys, zs, f) {
        ZeroPolyEval(c, P, f);
        CollidesIsRoot(ys, zs, f);
        SumOfMultiples(Eval(c, f), f, 0, P);
      }
    } else {
      forall f | f in roots ensures 0 <= f < P && IsRoot(c, P, f) {
        CollidesIsRoot(ys, zs, f);
        Euclid(P, f, Eval(c, f));
        NotMultiple(f);
      }
      RootCount(c, P, roots);
    }
  }

  lemma NotMultiple(f: int)
    requires 1 <= f < P
    ensures f % P != 0
  {
    DivModUnique(0, f, P);
  }

  // ---------------------------------------------------------------- streams of different lengths

  function Zeros(n: nat): (ys: seq<V128>)
    ensures |ys| == n
  {
    seq(n, i => ZERO)
  }

  lemma {:induction false} ZerosReduce(f: Field, n: nat)
    ensures PolyReduce(f, Zeros(n), 0) == 0
  {
    if n > 0 {
      assert Zeros(n)[..n - 1] == Zeros(n - 1);
      ZerosReduce(f, n - 1);
      assert PolyStep(f, 0, ZERO) == (Square(f) * 0 + f * 0) % M;
    }
  }

  /** Blocks that compress to zero in front of a stream do not change its hash. */
  lemma ZerosInFront(f: Field, ys: seq<V128>, n: nat)
    ensures PolyReduce(f, Zeros(n) + ys, 0) == PolyReduce(f, ys, 0)
  {
    hide PolyStep;
    ZerosReduce(f, n);
    PolyConcat(f, Zeros(n), ys, 0);
  }

  /** Multipliers for which two long inputs have the same hash. */
  ghost function HashColliders(key: OhKey, seed: u64, x: bytes, y: bytes, secondary: bool): set<int>
    requires |x| > 8 && |y| > 8
  {
    set f | 1 <= f < P && LongHash(f, key, seed, x, secondary) == LongHash(f, key, seed, y, secondary)
  }

  /** These are the valid multipliers that give both inputs the same hash. */
  lemma HashColliderMeans(key: OhKey, seed: u64, x: bytes, y: bytes, secondary: bool, f: int)
    requires |x| > 8 && |y| > 8
    ensures f in HashColliders(key, seed, x, y, secondary)
       <==> && 0 < f < 0x1FFF_FFFF_FFFF_FFFF
            && Hash(f, key, seed, x, secondary) == Hash(f, key, seed, y, secondary)
  {
  }

  /**
   * If the OH outputs of two inputs differ in the field, after the shorter stream is padded in
   * front, then at most 2n - 1 valid multipliers give both inputs the same hash, where n is the
   * larger number of blocks.
   */
  lemma FewHashColliders(key: OhKey, seed: u64, x: bytes, y: bytes, secondary: bool)
    requires Prime(P) && |x| > 8 && |y| > 8
    requires |OhOutputs(key, seed, x, secondary)| <= |OhOutputs(key, seed, y, secondary)|
    requires var xs := OhOutputs(key, seed, x, secondary);
             var ys := OhOutputs(key, seed, y, secondary);
             !SameInField(Zeros(|ys| - |xs|) + xs, ys)
    ensures |HashColliders(key, seed, x, y, secondary)|
         <= 2 * |OhOutputs(key, seed, y, secondary)| - 1
  {
    hide Prime, SameInField, OhOutputs, PolyReduce, Finalizer.Finalize;
    var xs := OhOutputs(key, seed, x, secondary);
    var ys := OhOutputs(key, seed, y, secondary);
    var padded := Zeros(|ys| - |xs|) + xs;
    FewColliders(padded, ys);
    forall f | f in HashColliders(key, seed, x, y, secondary)
      ensures f in Colliders(padded, ys)
    {
      ZerosInFront(f, xs, |ys| - |xs|);
      Finalizer.UnfinalizeInverts(PolyReduce(f, xs, 0));
      Finalizer.UnfinalizeInverts(PolyReduce(f, ys, 0));
    }
    SubsetCard(HashColliders(key, seed, x, y, secondary), Colliders(padded, ys));
  }
}
