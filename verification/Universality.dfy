/**
 * Collisions of the block compressors, key word by key word: with every other word fixed, at most
 * one value of some key word makes two different blocks collide.
 */
module Universality {
  import opened Words
  import opened CarryLess
  import opened Lanes
  import opened Oh

  predicate Collides(key: OhKey, xs: Chunks, s: u64, ys: Chunks, t: u64, secondary: bool)
    requires xs != [] && ys != []
  {
    OhCompress(key, s, xs, secondary) == OhCompress(key, t, ys, secondary)
  }

  lemma CollidesMeans(key: OhKey, xs: Chunks, s: u64, ys: Chunks, t: u64)
    requires xs != [] && ys != []
    ensures Collides(key, xs, s, ys, t, false) <==> OhPrimary(key, s, xs) == OhPrimary(key, t, ys)
    ensures Collides(key, xs, s, ys, t, true) <==> OhSecondary(key, s, xs) == OhSecondary(key, t, ys)
  {
    hide OhPrimary, OhSecondary;
  }

  // ---------------------------------------------------------------- one PH chunk

  /** Different factors, varying the other operand of both products: at most one difference. */
  lemma PhSpreads(a: u64, a': u64, b: u64, b': u64, v: u64, v': u64)
    requires a != a'
    requires VXor(Clmul(a, Xor64(b, v)), Clmul(a', Xor64(b', v)))
          == VXor(Clmul(a, Xor64(b, v')), Clmul(a', Xor64(b', v')))
    ensures v == v'
  {
    hide GfMul, Xor, Clmul;
    var p, p' := Clmul(a, Xor64(b, v)), Clmul(a', Xor64(b', v));
    var q, q' := Clmul(a, Xor64(b, v')), Clmul(a', Xor64(b', v'));
    VXorSwap(p, p', q, q');
    VXorCancel(VXor(p, p'), VXor(q, q'), ZERO);
    VXorCancel(VXor(p, q), VXor(p', q'), ZERO);
    ProductDifference(a, b, v, v');
    ProductDifference(a', b', v, v');
    JoinXor(p, q);
    JoinXor(p', q');
    var d := Xor(v, v');
    GfMulXorLeft(a, a', d);
    XorCancel(GfMul(a, d), GfMul(a', d), 0);
    XorCancel(a, a', 0);
    XorCancel(v, v', 0);
    if d != 0 {
      GfMulNonzero(Xor(a, a'), d);
    }
  }

  lemma ProductDifference(a: u64, b: u64, v: u64, v': u64)
    ensures Xor(Join(Clmul(a, Xor64(b, v))), Join(Clmul(a, Xor64(b, v')))) == GfMul(a, Xor(v, v'))
  {
    hide GfMul, Xor, Clmul;
    JoinClmul(a, Xor64(b, v));
    JoinClmul(a, Xor64(b, v'));
    GfMulXorRight(a, Xor(b, v), Xor(b, v'));
    XorSwap(b, v, b, v');
    XorSelf(b);
    XorZero(Xor(v, v'));
  }

  /** The same with the roles of the operands exchanged. */
  lemma PhSpreadsLeft(a: u64, a': u64, b: u64, b': u64, v: u64, v': u64)
    requires b != b'
    requires VXor(Clmul(Xor64(a, v), b), Clmul(Xor64(a', v), b'))
          == VXor(Clmul(Xor64(a, v'), b), Clmul(Xor64(a', v'), b'))
    ensures v == v'
  {
    hide GfMul, Xor, Clmul;
    ClmulComm(Xor64(a, v), b);
    ClmulComm(Xor64(a', v), b');
    ClmulComm(Xor64(a, v'), b);
    ClmulComm(Xor64(a', v'), b');
    PhSpreads(b, b', a, a', v, v');
  }

  lemma ClmulComm(x: u64, y: u64)
    ensures Clmul(x, y) == Clmul(y, x)
  {
    hide GfMul;
    GfMulComm(x, y);
  }

  // ---------------------------------------------------------------- the NH chunk

  /** Addition modulo 2^64. */
  function Add64(x: u64, y: u64): u64 {
    (x + y) % W
  }

  /** Divisibility by 2^128. */
  predicate Wraps(x: int) {
    x % (W * W) == 0
  }

  /** A multiple of m between its own bounds is zero. */
  lemma NoMultiple(x: int, m: int)
    requires m > 0 && -m < x < m && x % m == 0
    ensures x == 0
  {
    MulMono(m, x / m);
  }

  lemma ProductRange(x: int, y: int, m: int)
    requires 0 <= x < m && 0 <= y
    ensures 0 <= x * y <= (m - 1) * y
    ensures x * y == 0 ==> x == 0 || y == 0
  {
    Words.MulLe(x, m - 1, y);
    if x > 0 {
      Words.MulLe(1, x, y);
    }
  }

  /** Different factors of the same step. */
  lemma StepSame(x: u64, x': u64, d: int)
    requires x != x' && -W < d < W
    requires Wraps(x * d - x' * d)
    ensures d == 0
  {
    var e, a := if x < x' then x' - x else x - x', if d < 0 then -d else d;
    ProductRange(e, a, W);
    assert (W - 1) * a < W * W;
    assert x * d - x' * d == (x - x') * d;
    assert (x - x') * d == e * a || (x - x') * d == -(e * a);
    NoMultiple((x - x') * d, W * W);
  }

  /** Two steps that together go once around. */
  lemma StepAround(x: u64, x': u64, d: int, e: int)
    requires d > 0 && e > 0 && d + e == W
    requires Wraps(x * d + x' * e)
    ensures x == x' == 0
  {
    ProductRange(x, d, W);
    ProductRange(x', e, W);
    assert (W - 1) * d + (W - 1) * e == (W - 1) * W;
    NoMultiple(x * d + x' * e, W * W);
  }

  lemma Negated(x: int)
    requires Wraps(-x)
    ensures Wraps(x)
  {
    var q := (-x) / (W * W);
    assert x == 0 + (W * W) * (-q);
    DivModUnique(-q, 0, W * W);
  }

  lemma StepSigns(x: int, x': int, d: int, d': int)
    ensures x * d - x' * d' == x * d + x' * -d'
    ensures -(x * d - x' * d') == x * -d + x' * d'
  {
  }

  /** Different factors cannot take congruent steps to congruent products. */
  lemma NhSteps(x: u64, x': u64, d: int, d': int)
    requires x != x' && -W < d < W && -W < d' < W
    requires d' == d || d' == d - W || d' == d + W
    requires Wraps(x * d - x' * d')
    ensures d == 0
  {
    StepSigns(x, x', d, d');
    if d' == d {
      StepSame(x, x', d);
    } else if d' == d - W {
      if d > 0 {
        StepAround(x, x', d, -d');
      }
    } else if d < 0 {
      Negated(x * -d + x' * d');
      StepAround(x, x', -d, d');
    }
  }

  /** Adding the same word to two operands moves them by congruent amounts. */
  lemma AddSteps(b: u64, b': u64, v: u64, v': u64)
    ensures var d: int := Add64(b, v) - Add64(b, v');
            var d': int := Add64(b', v) - Add64(b', v');
            && (d' == d || d' == d - W || d' == d + W)
            && (d == 0 ==> v == v')
  {
  }

  /** Equal folded products are congruent, tags included. */
  lemma FoldCongruent(p: V128, s: u64, q: V128, t: u64)
    requires Fold(p, s) == Fold(q, t)
    ensures Wraps(Join(p) - Join(q) - W * (t - s))
  {
    hide Xor;
    var f, g := (p.hi + s) % W, (q.hi + t) % W;
    XorCancel(f, g, p.lo);
    assert f == g;
    var k := (p.hi + s) / W - (q.hi + t) / W;
    assert p.hi + s - (q.hi + t) == W * k;
    assert Join(p) - Join(q) - W * (t - s) == 0 + (W * W) * k;
    DivModUnique(k, 0, W * W);
  }

  lemma ProductsCongruent(x: u64, y: u64, s: u64, x': u64, y': u64, t: u64)
    requires Fold(Product(x, y), s) == Fold(Product(x', y'), t)
    ensures Wraps(x * y - x' * y' - W * (t - s))
  {
    hide Fold;
    FoldCongruent(Product(x, y), s, Product(x', y'), t);
  }

  lemma CombineSteps(x: int, x': int, y: int, y': int, z: int, z': int, c: int)
    requires Wraps(x * y - x' * y' - c) && Wraps(x * z - x' * z' - c)
    ensures Wraps(x * (y - z) - x' * (y' - z'))
  {
    var m := W * W;
    var q, r := (x * y - x' * y' - c) / m, (x * z - x' * z' - c) / m;
    assert x * (y - z) - x' * (y' - z') == x * y - x' * y' - (x * z - x' * z');
    assert x * (y - z) - x' * (y' - z') == 0 + m * (q - r);
    DivModUnique(q - r, 0, m);
  }

  /** Varying the second key word of an ENH chunk: at most one value collides. */
  lemma EnhSpreads(x: u64, x': u64, b: u64, b': u64, s: u64, t: u64, v: u64, v': u64)
    requires x != x'
    requires Fold(Product(x, Add64(b, v)), s) == Fold(Product(x', Add64(b', v)), t)
    requires Fold(Product(x, Add64(b, v')), s) == Fold(Product(x', Add64(b', v')), t)
    ensures v == v'
  {
    hide Fold, Product, Wraps, Add64;
    var y: int, y': int := Add64(b, v), Add64(b', v);
    var z: int, z': int := Add64(b, v'), Add64(b', v');
    ProductsCongruent(x, y, s, x', y', t);
    ProductsCongruent(x, z, s, x', z', t);
    CombineSteps(x, x', y, y', z, z', W * (t - s));
    AddSteps(b, b', v, v');
    NhSteps(x, x', y - z, y' - z');
  }

  lemma EnhSpreadsLeft(y: u64, y': u64, a: u64, a': u64, s: u64, t: u64, v: u64, v': u64)
    requires y != y'
    requires Fold(Product(Add64(a, v), y), s) == Fold(Product(Add64(a', v), y'), t)
    requires Fold(Product(Add64(a, v'), y), s) == Fold(Product(Add64(a', v'), y'), t)
    ensures v == v'
  {
    hide Fold, Product;
    ProductComm(Add64(a, v), y);
    ProductComm(Add64(a', v), y');
    ProductComm(Add64(a, v'), y);
    ProductComm(Add64(a', v'), y');
    EnhSpreads(y, y', a, a', s, t, v, v');
  }

  lemma ProductComm(x: u64, y: u64)
    ensures Product(x, y) == Product(y, x)
  {
    hide Product;
    assert x * y == y * x;
    JoinInjective(Product(x, y), Product(y, x));
  }

  /** Under different tags, the same product never folds to the same value. */
  lemma TagsSeparate(p: V128, s: u64, t: u64)
    requires Fold(p, s) == Fold(p, t)
    ensures s == t
  {
    hide Xor;
    XorCancel((p.hi + s) % W, (p.hi + t) % W, p.lo);
  }

  // ---------------------------------------------------------------- folds under one changed key word

  /** The keys differ at most in the two words of chunk `i`. */
  predicate SameBut(key: OhKey, key': OhKey, i: nat) {
    forall w :: 0 <= w < 32 && w / 2 != i ==> key[w] == key'[w]
  }

  lemma PhSame(key: OhKey, key': OhKey, i: nat, k: nat, c: V128)
    requires SameBut(key, key', i) && k < 16 && k != i
    ensures Ph(key, k, c) == Ph(key', k, c)
    ensures forall t: u64 :: Enh(key, k, c, t) == Enh(key', k, c, t)
  {
    hide Clmul, Fold, Product;
    assert 2 * k / 2 == k && (2 * k + 1) / 2 == k;
    assert key[2 * k] == key'[2 * k] && key[2 * k + 1] == key'[2 * k + 1];
  }

  lemma {:induction false} PhFoldSame(key: OhKey, key': OhKey, cs: Chunks, i: nat)
    requires SameBut(key, key', i) && |cs| <= i
    ensures PhFold(key, cs) == PhFold(key', cs)
  {
    hide Ph, Enh, SameBut;
    if cs != [] {
      var m := |cs| - 1;
      PhFoldSame(key, key', cs[..m], i);
      PhSame(key, key', i, m, cs[m]);
    }
  }

  /** Exclusive or of the PH values of all the chunks but the one at `i`. */
  function Rest(key: OhKey, cs: Chunks, i: nat): V128
    requires i < |cs|
  {
    var m := |cs| - 1;
    if i == m then PhFold(key, cs[..m])
    else VXor(Rest(key, cs[..m], i), Ph(key, m, cs[m]))
  }

  lemma {:induction false} SplitRest(key: OhKey, cs: Chunks, i: nat)
    requires i < |cs|
    ensures PhFold(key, cs) == VXor(Rest(key, cs, i), Ph(key, i, cs[i]))
  {
    hide Ph, VXor;
    var m := |cs| - 1;
    if i < m {
      SplitRest(key, cs[..m], i);
      var r, p, q := Rest(key, cs[..m], i), Ph(key, i, cs[i]), Ph(key, m, cs[m]);
      VXorAssoc(r, p, q);
      VXorComm(p, q);
      VXorAssoc(r, q, p);
    }
  }

  lemma {:induction false} RestSame(key: OhKey, key': OhKey, cs: Chunks, i: nat)
    requires SameBut(key, key', i) && i < |cs|
    ensures Rest(key, cs, i) == Rest(key', cs, i)
  {
    hide Ph, Enh, VXor, SameBut;
    var m := |cs| - 1;
    if i == m {
      PhFoldSame(key, key', cs[..m], i);
    } else {
      RestSame(key, key', cs[..m], i);
      PhSame(key, key', i, m, cs[m]);
    }
  }

  /** A collision, solved for the two PH values of chunk `i`. */
  lemma CollisionAt(key: OhKey, xs: Chunks, s: u64, ys: Chunks, t: u64, i: nat)
    requires |xs| == |ys| && i < |xs| - 1 && Collides(key, xs, s, ys, t, false)
    ensures var m := |xs| - 1;
            VXor(Ph(key, i, xs[i]), Ph(key, i, ys[i]))
            == VXor(VXor(Rest(key, xs[..m], i), Enh(key, m, xs[m], s)),
                    VXor(Rest(key, ys[..m], i), Enh(key, m, ys[m], t)))
  {
    hide Ph, Enh, VXor, Rest, PhFold;
    var m := |xs| - 1;
    var p, q := Ph(key, i, xs[i]), Ph(key, i, ys[i]);
    var a, b := Rest(key, xs[..m], i), Rest(key, ys[..m], i);
    var e, f := Enh(key, m, xs[m], s), Enh(key, m, ys[m], t);
    SplitRest(key, xs[..m], i);
    SplitRest(key, ys[..m], i);
    MoveLast(a, p, e);
    MoveLast(b, q, f);
    VXorSwap(VXor(a, e), p, VXor(b, f), q);
    VXorCancel(VXor(VXor(a, e), p), VXor(VXor(b, f), q), ZERO);
    VXorCancel(VXor(VXor(a, e), VXor(b, f)), VXor(p, q), ZERO);
  }

  lemma MoveLast(a: V128, p: V128, e: V128)
    ensures VXor(VXor(a, p), e) == VXor(VXor(a, e), p)
  {
    hide VXor;
    VXorAssoc(a, p, e);
    VXorComm(p, e);
    VXorAssoc(a, e, p);
  }

  // ---------------------------------------------------------------- same number of chunks

  /** The first chunk where two blocks differ. */
  function FirstDifference(xs: Chunks, ys: Chunks, from: nat): (i: nat)
    requires from < |xs| == |ys| && xs[from..] != ys[from..]
    ensures from <= i < |xs| && xs[i] != ys[i]
    ensures xs[from..i] == ys[from..i]
    decreases |xs| - from
  {
    if xs[from] != ys[from] then from
    else
      assert xs[from..] == [xs[from]] + xs[from + 1..] && ys[from..] == [ys[from]] + ys[from + 1..];
      var i := FirstDifference(xs, ys, from + 1);
      assert xs[from..i] == [xs[from]] + xs[from + 1..i] && ys[from..i] == [ys[from]] + ys[from + 1..i];
      i
  }

  /** The key word that separates two blocks: opposite to a lane where they differ. */
  function Separator(xs: Chunks, ys: Chunks): (w: nat)
    requires |xs| == |ys| && xs != ys
    ensures w < 32
  {
    assert xs[0..] == xs && ys[0..] == ys;
    var i := FirstDifference(xs, ys, 0);
    if xs[i].lo != ys[i].lo then 2 * i + 1 else 2 * i
  }

  lemma UpdatedKey(key: OhKey, w: nat, v: u64, v': u64)
    requires w < 32
    ensures |key[w := v]| == 34 && SameBut(key[w := v], key[w := v'], w / 2)
  {
  }

  /** A PH chunk differs: at most one value of the separating word collides. */
  lemma PhSeparates(key: OhKey, xs: Chunks, s: u64, ys: Chunks, t: u64, w: nat, v: u64, v': u64)
    requires |xs| == |ys| && w < 32 && w / 2 < |xs| - 1
    requires var i := w / 2;
             if w % 2 == 1 then xs[i].lo != ys[i].lo else xs[i].hi != ys[i].hi
    requires Collides(key[w := v], xs, s, ys, t, false)
    requires Collides(key[w := v'], xs, s, ys, t, false)
    ensures v == v'
  {
    hide Enh, VXor, Rest, Clmul, Collides, SameBut;
    var i, m := w / 2, |xs| - 1;
    var k, k' := key[w := v], key[w := v'];
    UpdatedKey(key, w, v, v');
    CollisionAt(k, xs, s, ys, t, i);
    CollisionAt(k', xs, s, ys, t, i);
    RestSame(k, k', xs[..m], i);
    RestSame(k, k', ys[..m], i);
    PhSame(k, k', i, m, xs[m]);
    PhSame(k, k', i, m, ys[m]);
    assert VXor(Ph(k, i, xs[i]), Ph(k, i, ys[i])) == VXor(Ph(k', i, xs[i]), Ph(k', i, ys[i]));
    PhSeparatesAt(key, i, w, xs[i], ys[i], v, v');
  }

  lemma PhSeparatesAt(key: OhKey, i: nat, w: nat, x: V128, y: V128, v: u64, v': u64)
    requires i < 16 && w / 2 == i
    requires if w % 2 == 1 then x.lo != y.lo else x.hi != y.hi
    requires var k, k' := key[w := v], key[w := v'];
             VXor(Ph(k, i, x), Ph(k, i, y)) == VXor(Ph(k', i, x), Ph(k', i, y))
    ensures v == v'
  {
    hide VXor, Clmul;
    if w % 2 == 1 {
      var k0 := key[2 * i];
      WhitenedLanes(key[w := v], i, x);
      WhitenedLanes(key[w := v], i, y);
      WhitenedLanes(key[w := v'], i, x);
      WhitenedLanes(key[w := v'], i, y);
      XorCancel(x.lo, y.lo, k0);
      PhSpreads(Xor64(x.lo, k0), Xor64(y.lo, k0), x.hi, y.hi, v, v');
    } else {
      var k1 := key[2 * i + 1];
      WhitenedLanes(key[w := v], i, x);
      WhitenedLanes(key[w := v], i, y);
      WhitenedLanes(key[w := v'], i, x);
      WhitenedLanes(key[w := v'], i, y);
      XorCancel(x.hi, y.hi, k1);
      PhSpreadsLeft(x.lo, y.lo, Xor64(x.hi, k1), Xor64(y.hi, k1), v, v');
    }
  }

  lemma WhitenedLanes(key: OhKey, i: nat, c: V128)
    requires i < 16
    ensures Ph(key, i, c) == Clmul(Xor64(c.lo, key[2 * i]), Xor64(c.hi, key[2 * i + 1]))
  {
    hide Clmul;
  }

  /** Blocks that agree on all the PH chunks collide when their last chunks do. */
  lemma LastChunkCollides(key: OhKey, xs: Chunks, s: u64, ys: Chunks, t: u64)
    requires |xs| == |ys| && xs != [] && xs[..|xs| - 1] == ys[..|ys| - 1]
    ensures Collides(key, xs, s, ys, t, false)
       <==> Enh(key, |xs| - 1, xs[|xs| - 1], s) == Enh(key, |xs| - 1, ys[|xs| - 1], t)
  {
    hide Enh, VXor, PhFold;
    var m := |xs| - 1;
    var f := PhFold(key, xs[..m]);
    var a, b := Enh(key, m, xs[m], s), Enh(key, m, ys[m], t);
    VXorComm(f, a);
    VXorComm(f, b);
    VXorCancel(a, b, f);
  }

  /** Only the last chunk differs: at most one value of the separating word collides. */
  lemma EnhSeparates(key: OhKey, xs: Chunks, s: u64, ys: Chunks, t: u64, w: nat, v: u64, v': u64)
    requires |xs| == |ys| && xs != [] && w / 2 == |xs| - 1
    requires xs[..|xs| - 1] == ys[..|ys| - 1]
    requires var i := w / 2;
             if w % 2 == 1 then xs[i].lo != ys[i].lo else xs[i].hi != ys[i].hi
    requires Collides(key[w := v], xs, s, ys, t, false)
    requires Collides(key[w := v'], xs, s, ys, t, false)
    ensures v == v'
  {
    hide Collides, Enh;
    LastChunkCollides(key[w := v], xs, s, ys, t);
    LastChunkCollides(key[w := v'], xs, s, ys, t);
    EnhSeparatesAt(key, w / 2, w, xs[w / 2], ys[w / 2], s, t, v, v');
  }

  lemma KeyedFold(key: OhKey, i: nat, c: V128, t: u64)
    requires i < 16
    ensures Enh(key, i, c, t)
         == Fold(Product(Add64(c.lo, key[2 * i]), Add64(c.hi, key[2 * i + 1])), t)
  {
    hide Fold, Product;
  }

  lemma EnhSeparatesAt(key: OhKey, i: nat, w: nat, x: V128, y: V128, s: u64, t: u64,
                       v: u64, v': u64)
    requires i < 16 && w / 2 == i
    requires if w % 2 == 1 then x.lo != y.lo else x.hi != y.hi
    requires Enh(key[w := v], i, x, s) == Enh(key[w := v], i, y, t)
    requires Enh(key[w := v'], i, x, s) == Enh(key[w := v'], i, y, t)
    ensures v == v'
  {
    hide Fold, Product, Enh, Add64;
    if w % 2 == 1 {
      assert w == 2 * i + 1;
      EnhSeparatesHigh(key, i, x, y, s, t, v, v');
    } else {
      assert w == 2 * i;
      EnhSeparatesLow(key, i, x, y, s, t, v, v');
    }
  }

  lemma EnhSeparatesHigh(key: OhKey, i: nat, x: V128, y: V128, s: u64, t: u64, v: u64, v': u64)
    requires i < 16 && x.lo != y.lo
    requires Enh(key[2 * i + 1 := v], i, x, s) == Enh(key[2 * i + 1 := v], i, y, t)
    requires Enh(key[2 * i + 1 := v'], i, x, s) == Enh(key[2 * i + 1 := v'], i, y, t)
    ensures v == v'
  {
    hide Fold, Product, Enh, Add64;
    var k := key[2 * i];
    KeyedFold(key[2 * i + 1 := v], i, x, s);
    KeyedFold(key[2 * i + 1 := v], i, y, t);
    KeyedFold(key[2 * i + 1 := v'], i, x, s);
    KeyedFold(key[2 * i + 1 := v'], i, y, t);
    DifferentSums(x.lo, y.lo, k);
    EnhSpreads(Add64(x.lo, k), Add64(y.lo, k), x.hi, y.hi, s, t, v, v');
  }

  lemma EnhSeparatesLow(key: OhKey, i: nat, x: V128, y: V128, s: u64, t: u64, v: u64, v': u64)
    requires i < 16 && x.hi != y.hi
    requires Enh(key[2 * i := v], i, x, s) == Enh(key[2 * i := v], i, y, t)
    requires Enh(key[2 * i := v'], i, x, s) == Enh(key[2 * i := v'], i, y, t)
    ensures v == v'
  {
    hide Fold, Product, Enh, Add64;
    var k := key[2 * i + 1];
    KeyedFold(key[2 * i := v], i, x, s);
    KeyedFold(key[2 * i := v], i, y, t);
    KeyedFold(key[2 * i := v'], i, x, s);
    KeyedFold(key[2 * i := v'], i, y, t);
    DifferentSums(x.hi, y.hi, k);
    EnhSpreadsLeft(Add64(x.hi, k), Add64(y.hi, k), x.lo, y.lo, s, t, v, v');
  }

  lemma DifferentSums(x: u64, y: u64, k: u64)
    requires x != y
    ensures Add64(x, k) != Add64(y, k)
  {
  }

  /**
   * Two different blocks with the same number of chunks: for every setting of the other key
   * words, at most one of the 2^64 values of the separating word makes them collide.
   */
  lemma OneKeyWord(xs: Chunks, s: u64, ys: Chunks, t: u64, key: OhKey, v: u64, v': u64)
    requires |xs| == |ys| && xs != [] && xs != ys
    requires Collides(key[Separator(xs, ys) := v], xs, s, ys, t, false)
    requires Collides(key[Separator(xs, ys) := v'], xs, s, ys, t, false)
    ensures v == v'
  {
    hide Collides;
    assert xs[0..] == xs && ys[0..] == ys;
    var i := FirstDifference(xs, ys, 0);
    var w := Separator(xs, ys);
    assert w / 2 == i;
    if i < |xs| - 1 {
      PhSeparates(key, xs, s, ys, t, w, v, v');
    } else {
      assert xs[..i] == xs[0..i] && ys[..i] == ys[0..i];
      EnhSeparates(key, xs, s, ys, t, w, v, v');
    }
  }

  /** The same block under two different tags never collides, whatever the key. */
  lemma TagsNeverCollide(key: OhKey, xs: Chunks, s: u64, t: u64)
    requires xs != [] && s != t
    ensures !Collides(key, xs, s, xs, t, false)
  {
    hide Collides, Fold, Product;
    var m := |xs| - 1;
    LastChunkCollides(key, xs, s, xs, t);
    if Enh(key, m, xs[m], s) == Enh(key, m, xs[m], t) {
      TagsSeparate(Nh(key, m, xs[m]), s, t);
    }
  }

  // ---------------------------------------------------------------- different numbers of chunks

  /** A collision, solved for the ENH value of the longer block. */
  lemma LongerCollision(key: OhKey, xs: Chunks, s: u64, ys: Chunks, t: u64)
    requires xs != [] && |xs| < |ys| && Collides(key, xs, s, ys, t, false)
    ensures var m := |ys| - 1;
            Enh(key, m, ys[m], t) == VXor(PhFold(key, ys[..m]), OhPrimary(key, s, xs))
  {
    hide Enh, VXor, PhFold;
    var m := |ys| - 1;
    var f, e := PhFold(key, ys[..m]), Enh(key, m, ys[m], t);
    var c := OhPrimary(key, s, xs);
    VXorComm(f, e);
    VXorCancel(e, f, c);
    VXorComm(c, f);
  }

  /**
   * Blocks with different numbers of chunks: unless the keyed low word of the longer block's last
   * chunk is zero, which it is for a single value of its key word, at most one value of the other
   * key word of that chunk makes them collide.
   */
  lemma LongerBlock(xs: Chunks, s: u64, ys: Chunks, t: u64, key: OhKey, v: u64, v': u64)
    requires xs != [] && |xs| < |ys|
    requires (ys[|ys| - 1].lo + key[2 * |ys| - 2]) % W != 0
    requires Collides(key[2 * |ys| - 1 := v], xs, s, ys, t, false)
    requires Collides(key[2 * |ys| - 1 := v'], xs, s, ys, t, false)
    ensures v == v'
  {
    hide Collides, VXor, PhFold, Fold, Product, SameBut, Enh, Add64;
    var m, w := |ys| - 1, 2 * |ys| - 1;
    var k, k' := key[w := v], key[w := v'];
    UpdatedKey(key, w, v, v');
    LongerCollision(k, xs, s, ys, t);
    LongerCollision(k', xs, s, ys, t);
    PhFoldSame(k, k', ys[..m], m);
    PhFoldSame(k, k', xs[..|xs| - 1], m);
    PhSame(k, k', m, |xs| - 1, xs[|xs| - 1]);
    KeyedFold(k, m, ys[m], t);
    KeyedFold(k', m, ys[m], t);
    var x := Add64(ys[m].lo, key[2 * m]);
    NonzeroSum(ys[m].lo, key[2 * m]);
    SameProduct(x, ys[m].hi, v, v', t);
  }

  lemma NonzeroSum(x: u64, y: u64)
    ensures Add64(x, y) == (x + y) % W
  {
  }

  lemma SameProduct(x: u64, b: u64, v: u64, v': u64, t: u64)
    requires x != 0
    requires Fold(Product(x, Add64(b, v)), t) == Fold(Product(x, Add64(b, v')), t)
    ensures v == v'
  {
    hide Fold, Product, Wraps, Add64;
    var y: int, z: int := Add64(b, v), Add64(b, v');
    AddSteps(b, b, v, v');
    ProductsCongruent(x, y, t, x, z, t);
    OneFactor(x, y, z, t);
    NhSteps(x, 0, y - z, y - z);
  }

  lemma OneFactor(x: int, y: int, z: int, t: int)
    ensures x * y - x * z - W * (t - t) == x * (y - z) - 0 * (y - z)
  {
  }

  // ---------------------------------------------------------------- different checksums

  /** Twisting words do not reach the primary sums. */
  lemma {:induction false} TwistedFolds(key: OhKey, w: nat, v: u64, cs: Chunks, n: nat)
    requires 32 <= w < 34 && |cs| < n
    ensures ShuffleFold(key[w := v], cs, n) == ShuffleFold(key, cs, n)
  {
    hide Ph, Shuffle, VXor;
    if cs != [] {
      var m := |cs| - 1;
      TwistedFolds(key, w, v, cs[..m], n);
      TwistedPh(key, w, v, m, cs[m]);
    }
  }

  lemma TwistedPh(key: OhKey, w: nat, v: u64, i: nat, c: V128)
    requires 32 <= w < 34 && i < 16
    ensures Ph(key[w := v], i, c) == Ph(key, i, c) && Whiten(key[w := v], i, c) == Whiten(key, i, c)
    ensures forall t: u64 :: Enh(key[w := v], i, c, t) == Enh(key, i, c, t)
  {
    hide Clmul, Fold, Product, VXor;
  }

  /** The checksum without the twisting words. */
  function Checksum(key: OhKey, cs: Chunks): V128 {
    if cs == [] then ZERO
    else var m := |cs| - 1; VXor(Checksum(key, cs[..m]), Whiten(key, m, cs[m]))
  }

  lemma {:induction false} LrcIsChecksum(key: OhKey, w: nat, v: u64, cs: Chunks)
    requires 32 <= w < 34
    ensures Checksum(key[w := v], cs) == Checksum(key, cs)
    ensures Lrc(key, cs) == VXor(Checksum(key, cs), V128(key[32], key[33]))
  {
    hide Whiten, VXor;
    var t := V128(key[32], key[33]);
    if cs == [] {
      VXorZero(t);
    } else {
      var m := |cs| - 1;
      var c, u := Checksum(key, cs[..m]), Whiten(key, m, cs[m]);
      LrcIsChecksum(key, w, v, cs[..m]);
      TwistedWhiten(key, w, v, m, cs[m]);
      MoveLast(c, t, u);
    }
  }

  lemma TwistedWhiten(key: OhKey, w: nat, v: u64, i: nat, c: V128)
    requires 32 <= w < 34 && i < 16
    ensures Whiten(key[w := v], i, c) == Whiten(key, i, c)
  {
  }

  /** What the secondary compressor adds to the checksum's PH. */
  function SecondaryRest(key: OhKey, t: u64, cs: Chunks): V128
    requires cs != []
  {
    var m := |cs| - 1;
    VXor(ShuffleFold(key, cs[..m], |cs|), Enh(key, m, cs[m], t))
  }

  lemma SecondarySplits(key: OhKey, t: u64, cs: Chunks)
    requires cs != []
    ensures OhSecondary(key, t, cs) == VXor(SecondaryRest(key, t, cs), LrcPh(key, cs))
  {
    hide Enh, VXor, LrcPh, ShuffleFold;
    var m := |cs| - 1;
    MoveLast(ShuffleFold(key, cs[..m], |cs|), LrcPh(key, cs), Enh(key, m, cs[m], t));
  }

  lemma SecondaryCollision(key: OhKey, xs: Chunks, s: u64, ys: Chunks, t: u64)
    requires xs != [] && ys != [] && Collides(key, xs, s, ys, t, true)
    ensures VXor(LrcPh(key, xs), LrcPh(key, ys))
         == VXor(SecondaryRest(key, s, xs), SecondaryRest(key, t, ys))
  {
    hide VXor, LrcPh, SecondaryRest, OhSecondary;
    var a, b := SecondaryRest(key, s, xs), SecondaryRest(key, t, ys);
    var p, q := LrcPh(key, xs), LrcPh(key, ys);
    SecondarySplits(key, s, xs);
    SecondarySplits(key, t, ys);
    VXorSwap(a, p, b, q);
    VXorCancel(VXor(a, p), VXor(b, q), ZERO);
    VXorCancel(VXor(a, b), VXor(p, q), ZERO);
  }

  lemma TwistedRest(key: OhKey, w: nat, v: u64, t: u64, cs: Chunks)
    requires 32 <= w < 34 && cs != []
    ensures SecondaryRest(key[w := v], t, cs) == SecondaryRest(key, t, cs)
  {
    hide Enh, VXor, ShuffleFold, Ph, Whiten;
    var m := |cs| - 1;
    TwistedFolds(key, w, v, cs[..m], |cs|);
    TwistedPh(key, w, v, m, cs[m]);
  }

  /**
   * Blocks with different checksums, whatever their lengths: at most one value of a twisting word
   * makes the secondary compressor collide.
   */
  lemma OneTwistingWord(xs: Chunks, s: u64, ys: Chunks, t: u64, key: OhKey, v: u64, v': u64)
    requires xs != [] && ys != [] && Checksum(key, xs) != Checksum(key, ys)
    requires var w := if Checksum(key, xs).lo != Checksum(key, ys).lo then 33 else 32;
             && Collides(key[w := v], xs, s, ys, t, true)
             && Collides(key[w := v'], xs, s, ys, t, true)
    ensures v == v'
  {
    hide Collides, VXor, SecondaryRest, Clmul, Checksum, Lrc, Xor;
    var a, b := Checksum(key, xs), Checksum(key, ys);
    var w := if a.lo != b.lo then 33 else 32;
    var k, k' := key[w := v], key[w := v'];
    SecondaryCollision(k, xs, s, ys, t);
    SecondaryCollision(k', xs, s, ys, t);
    TwistedRest(key, w, v, s, xs);
    TwistedRest(key, w, v, t, ys);
    TwistedRest(key, w, v', s, xs);
    TwistedRest(key, w, v', t, ys);
    TwistedLrc(key, w, v, xs);
    TwistedLrc(key, w, v, ys);
    TwistedLrc(key, w, v', xs);
    TwistedLrc(key, w, v', ys);
    if w == 33 {
      XorCancel(a.lo, b.lo, key[32]);
      PhSpreads(Xor64(a.lo, key[32]), Xor64(b.lo, key[32]), a.hi, b.hi, v, v');
    } else {
      XorCancel(a.hi, b.hi, key[33]);
      PhSpreadsLeft(a.lo, b.lo, Xor64(a.hi, key[33]), Xor64(b.hi, key[33]), v, v');
    }
  }

  lemma TwistedLrc(key: OhKey, w: nat, v: u64, cs: Chunks)
    requires 32 <= w < 34
    ensures var a, k := Checksum(key, cs), key[w := v];
            LrcPh(k, cs) == Clmul(Xor64(a.lo, k[32]), Xor64(a.hi, k[33]))
  {
    hide Clmul, Lrc, Checksum;
    LrcIsChecksum(key, w, v, cs);
    LrcIsChecksum(key[w := v], w, v, cs);
    assert VXor(Checksum(key, cs), V128(key[w := v][32], key[w := v][33])) == Lrc(key[w := v], cs);
  }

  // ---------------------------------------------------------------- checksums of different lengths

  /** The key with other words for chunk `i`. */
  function ChunkWords(key: OhKey, i: nat, a: u64, b: u64): (k: OhKey)
    requires i < 16
  {
    key[2 * i := a][2 * i + 1 := b]
  }

  /** Words past the chunks of a block do not reach its checksum. */
  lemma {:induction false} ChecksumIgnores(key: OhKey, i: nat, a: u64, b: u64, cs: Chunks)
    requires |cs| <= i < 16
    ensures Lrc(ChunkWords(key, i, a, b), cs) == Lrc(key, cs)
  {
    hide VXor;
    if cs != [] {
      ChecksumIgnores(key, i, a, b, cs[..|cs| - 1]);
    }
  }

  lemma LrcLast(key: OhKey, cs: Chunks)
    requires cs != []
    ensures var m := |cs| - 1; Lrc(key, cs) == VXor(Lrc(key, cs[..m]), Whiten(key, m, cs[m]))
  {
  }

  /** A chunk whitened by two key words determines them. */
  lemma WhitenDetermines(key: OhKey, i: nat, a: u64, b: u64, a': u64, b': u64, c: V128)
    requires i < 16
    requires Whiten(ChunkWords(key, i, a, b), i, c) == Whiten(ChunkWords(key, i, a', b'), i, c)
    ensures a == a' && b == b'
  {
    hide Xor;
    XorComm(c.lo, a);
    XorComm(c.lo, a');
    XorComm(c.hi, b);
    XorComm(c.hi, b');
    XorCancel(a, a', c.lo);
    XorCancel(b, b', c.hi);
  }

  /** Equal checksums, solved for the whitened last chunk of the longer block. */
  lemma ChecksumSolved(key: OhKey, xs: Chunks, ys: Chunks, a: u64, b: u64)
    requires |xs| < |ys|
    requires var k := ChunkWords(key, |ys| - 1, a, b); Lrc(k, xs) == Lrc(k, ys)
    ensures var m := |ys| - 1;
            Whiten(ChunkWords(key, m, a, b), m, ys[m]) == VXor(Lrc(key, ys[..m]), Lrc(key, xs))
  {
    hide VXor, Whiten, Lrc, ChunkWords;
    var m := |ys| - 1;
    var k := ChunkWords(key, m, a, b);
    ChecksumIgnores(key, m, a, b, xs);
    ChecksumIgnores(key, m, a, b, ys[..m]);
    LrcLast(k, ys);
    VXorComm(Lrc(key, ys[..m]), Whiten(k, m, ys[m]));
    VXorCancel(Whiten(k, m, ys[m]), Lrc(key, ys[..m]), Lrc(key, xs));
  }

  /**
   * Blocks with different numbers of chunks: with all the other words fixed, their checksums match
   * for at most one value of the two key words of the longer block's last chunk.
   */
  lemma OneChecksumKey(key: OhKey, xs: Chunks, ys: Chunks, a: u64, b: u64, a': u64, b': u64)
    requires |xs| < |ys|
    requires var k := key[2 * |ys| - 2 := a][2 * |ys| - 1 := b]; Lrc(k, xs) == Lrc(k, ys)
    requires var k := key[2 * |ys| - 2 := a'][2 * |ys| - 1 := b']; Lrc(k, xs) == Lrc(k, ys)
    ensures a == a' && b == b'
  {
    hide VXor, Whiten, Lrc;
    ChecksumSolved(key, xs, ys, a, b);
    ChecksumSolved(key, xs, ys, a', b');
    WhitenDetermines(key, |ys| - 1, a, b, a', b', ys[|ys| - 1]);
  }
}
