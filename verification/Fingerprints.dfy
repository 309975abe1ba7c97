/**
 * Collisions of both compressors, counted over two key words: one for each of two chunks through
 * PH in which the blocks differ.
 */
module Fingerprints {
  import opened Words
  import opened CarryLess
  import opened Lanes
  import opened Oh
  import opened FiniteSets
  import opened Shufflers
  import Universality

  /** The key word of chunk `i` that is opposite to a lane where the two blocks differ. */
  function WordOf(xs: Chunks, ys: Chunks, i: nat): (w: nat)
    requires i < |xs| == |ys|
    ensures w / 2 == i && w < 32
  {
    if xs[i].lo != ys[i].lo then 2 * i + 1 else 2 * i
  }

  function TwoWords(key: OhKey, u: nat, a: u64, w: nat, b: u64): (k: OhKey)
    requires u < 32 && w < 32
  {
    key[u := a][w := b]
  }

  /** The values of the two words for which both compressors collide. */
  ghost function CollidingPairs(key: OhKey, xs: Chunks, s: u64, ys: Chunks, t: u64, i: nat, j: nat)
      : set<(int, int)>
    requires i < |xs| == |ys| && j < |xs|
  {
    set a: int, b: int |
      && 0 <= a < W && 0 <= b < W
      && BothCollide(TwoWords(key, WordOf(xs, ys, i), a, WordOf(xs, ys, j), b), xs, s, ys, t) :: (a, b)
  }

  /** These are the pairs of words for which both compressors give both blocks the same value. */
  lemma CollidingPairMeans(key: OhKey, xs: Chunks, s: u64, ys: Chunks, t: u64, i: nat, j: nat, a: int, b: int)
    requires i < |xs| == |ys| && j < |xs|
    ensures (a, b) in CollidingPairs(key, xs, s, ys, t, i, j)
       <==> && 0 <= a < W && 0 <= b < W
            && var k := key[WordOf(xs, ys, i) := a][WordOf(xs, ys, j) := b];
               && OhPrimary(k, s, xs) == OhPrimary(k, t, ys)
               && OhSecondary(k, s, xs) == OhSecondary(k, t, ys)
  {
    hide OhPrimary, OhSecondary, WordOf;
  }

  // ---------------------------------------------------------------- numbering the null space

  /** Numbers the values whose lanes are multiples of 2^d. */
  function Index(x: V128, d: nat): nat
    requires d <= 64
  {
    High(x.lo, d) + Pow2(64 - d) * High(x.hi, d)
  }

  lemma HighBound(x: nat, d: nat, k: nat)
    requires d <= k && x < Pow2(k)
    ensures High(x, d) < Pow2(k - d)
  {
    hide Pow2;
    Pow2Add(d, k - d);
    var h, p, q := High(x, d), Pow2(d), Pow2(k - d);
    if h >= q {
      MulLe(q, h, p);
      assert false;
    }
  }

  /** Values with a clear top bit need one bit less. */
  lemma IndexBound(x: V128, d: nat)
    requires d <= 63 && x.hi < Pow2(63)
    ensures Index(x, d) < Pow2(127 - 2 * d)
  {
    hide Pow2, High;
    Pow2Values();
    HighBound(x.lo, d, 64);
    HighBound(x.hi, d, 63);
    Pow2Add(64 - d, 63 - d);
    DigitsBound(High(x.lo, d), High(x.hi, d), Pow2(64 - d), Pow2(63 - d));
  }

  lemma DigitsBound(l: nat, h: nat, p: nat, q: nat)
    requires l < p && h < q
    ensures l + p * h < p * q
  {
    MulLe(h, q - 1, p);
    assert p * (q - 1) == p * q - p;
  }

  lemma IndexInjective(x: V128, y: V128, d: nat)
    requires d <= 64 && LowZero(x, d) && LowZero(y, d) && Index(x, d) == Index(y, d)
    ensures x == y
  {
    hide Pow2, High;
    Pow2Values();
    HighBound(x.lo, d, 64);
    HighBound(y.lo, d, 64);
    DivModUnique(High(x.hi, d), High(x.lo, d), Pow2(64 - d));
    DivModUnique(High(y.hi, d), High(y.lo, d), Pow2(64 - d));
    MultipleOf(x.lo, d);
    MultipleOf(x.hi, d);
    MultipleOf(y.lo, d);
    MultipleOf(y.hi, d);
  }

  // ---------------------------------------------------------------- changes

  lemma XorTopClear(x: V128, y: V128)
    requires x.hi < Pow2(63) && y.hi < Pow2(63)
    ensures VXor(x, y).hi < Pow2(63)
  {
    hide Xor, Pow2;
    XorBound(x.hi, y.hi, 63);
  }

  lemma PhTopClear(key: OhKey, i: nat, c: V128)
    requires i < 16
    ensures Ph(key, i, c).hi < Pow2(63)
  {
    hide GfMul, Pow2, Whiten;
    var x := Whiten(key, i, c);
    ClmulBound(x.lo, x.hi);
    Pow2Values();
    Pow2Add(61, 2);
    assert Pow2(2) == 4 by { Pow2Double(1); Pow2Double(0); PowZero(); }
  }

  lemma PowZero()
    ensures Pow2(0) == 1
  {
  }

  lemma ChangeTopClear(key: OhKey, key': OhKey, xs: Chunks, ys: Chunks, k: nat)
    requires k < |xs| == |ys|
    ensures Change(key, key', xs, ys, k).hi < Pow2(63)
  {
    hide Pow2, Ph, VXor;
    PhTopClear(key, k, xs[k]);
    PhTopClear(key, k, ys[k]);
    PhTopClear(key', k, xs[k]);
    PhTopClear(key', k, ys[k]);
    XorTopClear(Ph(key, k, xs[k]), Ph(key, k, ys[k]));
    XorTopClear(Ph(key', k, xs[k]), Ph(key', k, ys[k]));
    XorTopClear(Delta(key, xs, ys, k), Delta(key', xs, ys, k));
  }

  lemma TwoWordsSame(key: OhKey, u: nat, a: u64, a': u64, w: nat, b: u64, b': u64)
    requires u < 32 && w < 32 && u / 2 != w / 2
    ensures SameButTwo(TwoWords(key, u, a, w, b), TwoWords(key, u, a', w, b'), u / 2, w / 2)
    ensures Universality.SameBut(TwoWords(key, u, a, w, b), key[w := b], u / 2)
    ensures Universality.SameBut(TwoWords(key, u, a, w, b), key[u := a], w / 2)
  {
  }

  /** A chunk's difference does not see the other chunk's words. */
  lemma DeltaOf(key: OhKey, key': OhKey, xs: Chunks, ys: Chunks, i: nat, k: nat)
    requires k < |xs| == |ys| && k != i && Universality.SameBut(key, key', i)
    ensures Delta(key, xs, ys, k) == Delta(key', xs, ys, k)
  {
    hide Ph, VXor, Universality.SameBut;
    Universality.PhSame(key, key', i, k, xs[k]);
    Universality.PhSame(key, key', i, k, ys[k]);
  }

  /** Where the blocks differ, a chunk's difference determines its key word. */
  lemma DeltaSeparates(key: OhKey, xs: Chunks, ys: Chunks, i: nat, v: u64, v': u64)
    requires i < |xs| == |ys| && xs[i] != ys[i]
    requires var w := WordOf(xs, ys, i);
             Delta(key[w := v], xs, ys, i) == Delta(key[w := v'], xs, ys, i)
    ensures v == v'
  {
    hide Ph, VXor;
    Universality.PhSeparatesAt(key, i, WordOf(xs, ys, i), xs[i], ys[i], v, v');
  }

  lemma ChangeInjective(key: OhKey, k: OhKey, k': OhKey, xs: Chunks, ys: Chunks, i: nat)
    requires i < |xs| == |ys| && Change(key, k, xs, ys, i) == Change(key, k', xs, ys, i)
    ensures Delta(k, xs, ys, i) == Delta(k', xs, ys, i)
  {
    hide VXor, Delta;
    var d, a, b := Delta(key, xs, ys, i), Delta(k, xs, ys, i), Delta(k', xs, ys, i);
    VXorComm(d, a);
    VXorComm(d, b);
    VXorCancel(a, b, d);
  }

  /** The changes in both chunks determine the two words. */
  lemma PairDetermined(key: OhKey, base: OhKey, xs: Chunks, ys: Chunks, i: nat, j: nat,
                       a: u64, b: u64, a': u64, b': u64)
    requires i < |xs| == |ys| && j < |xs| && i != j && xs[i] != ys[i] && xs[j] != ys[j]
    requires var u, w := WordOf(xs, ys, i), WordOf(xs, ys, j);
             var k, k' := TwoWords(key, u, a, w, b), TwoWords(key, u, a', w, b');
             && Change(base, k, xs, ys, i) == Change(base, k', xs, ys, i)
             && Change(base, k, xs, ys, j) == Change(base, k', xs, ys, j)
    ensures a == a' && b == b'
  {
    hide Change, Delta, TwoWords, WordOf, Universality.SameBut, SameButTwo;
    var u, w := WordOf(xs, ys, i), WordOf(xs, ys, j);
    var k, k' := TwoWords(key, u, a, w, b), TwoWords(key, u, a', w, b');
    TwoWordsSame(key, u, a, a, w, b, b);
    TwoWordsSame(key, u, a', a', w, b', b');
    ChangeInjective(base, k, k', xs, ys, i);
    ChangeInjective(base, k, k', xs, ys, j);
    DeltaOf(k, key[u := a], xs, ys, j, i);
    DeltaOf(k', key[u := a'], xs, ys, j, i);
    DeltaOf(k, key[w := b], xs, ys, i, j);
    DeltaOf(k', key[w := b'], xs, ys, i, j);
    DeltaSeparates(key, xs, ys, i, a, a');
    DeltaSeparates(key, xs, ys, j, b, b');
  }

  // ---------------------------------------------------------------- the count

  /** Relative to one colliding pair, every other one has an index in the null space. */
  function PairIndex(key: OhKey, base: OhKey, xs: Chunks, ys: Chunks, i: nat, j: nat, p: (int, int)): nat
    requires i < j < |xs| - 1 && |xs| == |ys| && 0 <= p.0 < W && 0 <= p.1 < W
  {
    Index(Change(base, TwoWords(key, WordOf(xs, ys, i), p.0, WordOf(xs, ys, j), p.1), xs, ys, i),
          Depth(i + 1, j + 1, |xs|))
  }

  lemma PairChanges(key: OhKey, xs: Chunks, s: u64, ys: Chunks, t: u64, i: nat, j: nat,
                    p: (int, int), q: (int, int))
    requires |xs| == |ys| && i < j < |xs| - 1 && Lrc(key, xs) == Lrc(key, ys)
    requires p in CollidingPairs(key, xs, s, ys, t, i, j) && q in CollidingPairs(key, xs, s, ys, t, i, j)
    ensures var u, w := WordOf(xs, ys, i), WordOf(xs, ys, j);
            var base, k := TwoWords(key, u, p.0, w, p.1), TwoWords(key, u, q.0, w, q.1);
            && Change(base, k, xs, ys, i) == Change(base, k, xs, ys, j)
            && LowZero(Change(base, k, xs, ys, i), Depth(i + 1, j + 1, |xs|))
  {
    hide Change, Lrc, BothCollide, LowZero, TwoWords, WordOf, SameButTwo, Universality.SameBut;
    var u, w := WordOf(xs, ys, i), WordOf(xs, ys, j);
    var base, k := TwoWords(key, u, p.0, w, p.1), TwoWords(key, u, q.0, w, q.1);
    TwoWordsSame(key, u, p.0, q.0, w, p.1, q.1);
    ChecksumsAgree(key, base, xs, ys);
    TwoKeysCollide(base, k, xs, s, ys, t, i, j);
  }

  lemma DepthRange(i: nat, j: nat, n: nat)
    requires 0 < i < j < n <= 16
    ensures 49 <= Depth(i, j, n) <= 62
  {
  }

  /**
   * Two blocks with the same number of chunks and the same checksum that differ in the PH chunks
   * `i` and `j`, and anywhere else, under any tags. With all the other key words fixed, both
   * compressors collide for at most 2^(127 - 2 * Depth) of the 2^128 values of one word of each of
   * the two chunks, and so never for more than 2^29.
   */
  lemma FewCollidingPairs(key: OhKey, xs: Chunks, s: u64, ys: Chunks, t: u64, i: nat, j: nat)
    requires |xs| == |ys| && i < j < |xs| - 1 && Lrc(key, xs) == Lrc(key, ys)
    requires xs[i] != ys[i] && xs[j] != ys[j]
    ensures |CollidingPairs(key, xs, s, ys, t, i, j)|
         <= Pow2(127 - 2 * Depth(i + 1, j + 1, |xs|)) <= Pow2(29)
  {
    hide Change, Lrc, LowZero, TwoWords, WordOf, Index, Pow2, CollidingPairs, Depth, PairIndex;
    var d := Depth(i + 1, j + 1, |xs|);
    var pairs := CollidingPairs(key, xs, s, ys, t, i, j);
    DepthRange(i + 1, j + 1, |xs|);
    Pow2Le(127 - 2 * d, 29);
    if pairs != {} {
      var p := Some(pairs);
      CountPairs(key, xs, s, ys, t, i, j, p);
    }
  }

  lemma CountPairs(key: OhKey, xs: Chunks, s: u64, ys: Chunks, t: u64, i: nat, j: nat, p: (int, int))
    requires |xs| == |ys| && i < j < |xs| - 1 && Lrc(key, xs) == Lrc(key, ys)
    requires xs[i] != ys[i] && xs[j] != ys[j] && p in CollidingPairs(key, xs, s, ys, t, i, j)
    ensures |CollidingPairs(key, xs, s, ys, t, i, j)| <= Pow2(127 - 2 * Depth(i + 1, j + 1, |xs|))
  {
    hide Change, Lrc, LowZero, TwoWords, WordOf, Index, Pow2, Depth, BothCollide, PairIndex;
    var d := Depth(i + 1, j + 1, |xs|);
    var u, w := WordOf(xs, ys, i), WordOf(xs, ys, j);
    var pairs := CollidingPairs(key, xs, s, ys, t, i, j);
    var base := TwoWords(key, u, p.0, w, p.1);
    DepthRange(i + 1, j + 1, |xs|);
    var f := (q: (int, int)) requires 0 <= q.0 < W && 0 <= q.1 < W => PairIndex(key, base, xs, ys, i, j, q);
    forall q | q in pairs ensures f(q) < Pow2(127 - 2 * d) {
      PairIndexBound(key, base, xs, ys, i, j, q);
    }
    forall q, r | q in pairs && r in pairs && f(q) == f(r) ensures q == r {
      PairChanges(key, xs, s, ys, t, i, j, p, q);
      PairChanges(key, xs, s, ys, t, i, j, p, r);
      PairIndexSame(key, base, xs, ys, i, j, q, r);
      PairDetermined(key, base, xs, ys, i, j, q.0, q.1, r.0, r.1);
    }
    InjectionBound(pairs, f, Pow2(127 - 2 * d));
  }

  lemma PairIndexBound(key: OhKey, base: OhKey, xs: Chunks, ys: Chunks, i: nat, j: nat, p: (int, int))
    requires i < j < |xs| - 1 && |xs| == |ys| && 0 <= p.0 < W && 0 <= p.1 < W
    ensures Depth(i + 1, j + 1, |xs|) <= 62
    ensures PairIndex(key, base, xs, ys, i, j, p) < Pow2(127 - 2 * Depth(i + 1, j + 1, |xs|))
  {
    hide Change, TwoWords, WordOf, Index, Pow2, Depth;
    var k := TwoWords(key, WordOf(xs, ys, i), p.0, WordOf(xs, ys, j), p.1);
    DepthRange(i + 1, j + 1, |xs|);
    ChangeTopClear(base, k, xs, ys, i);
    IndexBound(Change(base, k, xs, ys, i), Depth(i + 1, j + 1, |xs|));
  }

  lemma PairIndexSame(key: OhKey, base: OhKey, xs: Chunks, ys: Chunks, i: nat, j: nat,
                      p: (int, int), q: (int, int))
    requires i < j < |xs| - 1 && |xs| == |ys|
    requires 0 <= p.0 < W && 0 <= p.1 < W && 0 <= q.0 < W && 0 <= q.1 < W
    requires PairIndex(key, base, xs, ys, i, j, p) == PairIndex(key, base, xs, ys, i, j, q)
    requires var u, w := WordOf(xs, ys, i), WordOf(xs, ys, j);
             var d := Depth(i + 1, j + 1, |xs|);
             && LowZero(Change(base, TwoWords(key, u, p.0, w, p.1), xs, ys, i), d)
             && LowZero(Change(base, TwoWords(key, u, q.0, w, q.1), xs, ys, i), d)
    ensures var u, w := WordOf(xs, ys, i), WordOf(xs, ys, j);
            Change(base, TwoWords(key, u, p.0, w, p.1), xs, ys, i)
            == Change(base, TwoWords(key, u, q.0, w, q.1), xs, ys, i)
  {
    hide Change, LowZero, TwoWords, WordOf, Index, Depth;
    var u, w := WordOf(xs, ys, i), WordOf(xs, ys, j);
    DepthRange(i + 1, j + 1, |xs|);
    IndexInjective(Change(base, TwoWords(key, u, p.0, w, p.1), xs, ys, i),
                   Change(base, TwoWords(key, u, q.0, w, q.1), xs, ys, i), Depth(i + 1, j + 1, |xs|));
  }

  // ---------------------------------------------------------------- one PH chunk and the last one

  lemma {:induction false} OneChecksumChange(key: OhKey, xs: Chunks, ys: Chunks, m: nat, j: nat)
    requires AgreeBut(xs, ys, m, j, j)
    ensures VXor(Lrc(key, xs[..m]), Lrc(key, ys[..m])) == if j < m then VXor(xs[j], ys[j]) else ZERO
    decreases m
  {
    hide VXor, Whiten;
    if m == 0 {
      VXorSelf(Lrc(key, []));
    } else {
      var l := m - 1;
      OneChecksumChange(key, xs, ys, l, j);
      assert xs[..m][..l] == xs[..l] && ys[..m][..l] == ys[..l];
      WhitenDifference(key, l, xs[l], ys[l]);
      VXorSwap(Lrc(key, xs[..l]), Whiten(key, l, xs[l]), Lrc(key, ys[..l]), Whiten(key, l, ys[l]));
      VXorSelf(xs[l]);
      VXorZero(VXor(xs[l], ys[l]));
      VXorZero(VXor(Lrc(key, xs[..l]), Lrc(key, ys[..l])));
    }
  }

  /** One differing chunk alone always shows in the checksum. */
  lemma LastDiffersToo(key: OhKey, xs: Chunks, ys: Chunks, j: nat)
    requires |xs| == |ys| && j < |xs| - 1 && AgreeBut(xs, ys, |xs| - 1, j, j)
    requires Lrc(key, xs) == Lrc(key, ys) && xs[j] != ys[j]
    ensures xs[|xs| - 1] != ys[|ys| - 1]
  {
    hide VXor, Lrc;
    if xs[|xs| - 1] == ys[|ys| - 1] {
      OneChecksumChange(key, xs, ys, |xs|, j);
      assert xs[..|xs|] == xs && ys[..|ys|] == ys;
      VXorSelf(Lrc(key, xs));
      VXorCancel(xs[j], ys[j], ZERO);
    }
  }

  /**
   * Two blocks with the same number of chunks and the same checksum that differ in one PH chunk and
   * in the last chunk: with all the other key words fixed, both compressors collide for at most one
   * of the 2^128 values of one word of each of the two chunks.
   */
  lemma OneCollidingPair(key: OhKey, xs: Chunks, s: u64, ys: Chunks, t: u64, j: nat,
                         a: u64, b: u64, a': u64, b': u64)
    requires |xs| == |ys| && j < |xs| - 1 && AgreeBut(xs, ys, |xs| - 1, j, j)
    requires Lrc(key, xs) == Lrc(key, ys) && xs[j] != ys[j]
    requires var u, w := WordOf(xs, ys, j), WordOf(xs, ys, |xs| - 1);
             && BothCollide(TwoWords(key, u, a, w, b), xs, s, ys, t)
             && BothCollide(TwoWords(key, u, a', w, b'), xs, s, ys, t)
    ensures a == a' && b == b'
  {
    hide Lrc, BothCollide, TwoWords, WordOf, AgreeBut, Ph, Enh;
    var m := |xs| - 1;
    LastDiffersToo(key, xs, ys, j);
    SeparateCollisions(key, xs, s, ys, t, j, a, b);
    SeparateCollisions(key, xs, s, ys, t, j, a', b');
    EqualDeltas(key, xs, ys, j, a, a');
    DeltaSeparates(key, xs, ys, j, a, a');
    LastSeparates(key, xs, s, ys, t, b, b');
  }

  lemma EqualDeltas(key: OhKey, xs: Chunks, ys: Chunks, j: nat, a: u64, a': u64)
    requires j < |xs| == |ys|
    requires var u := WordOf(xs, ys, j);
             && Ph(key[u := a], j, xs[j]) == Ph(key[u := a], j, ys[j])
             && Ph(key[u := a'], j, xs[j]) == Ph(key[u := a'], j, ys[j])
    ensures var u := WordOf(xs, ys, j); Delta(key[u := a], xs, ys, j) == Delta(key[u := a'], xs, ys, j)
  {
    hide Ph, VXor, WordOf;
    VXorSelf(Ph(key[WordOf(xs, ys, j) := a], j, xs[j]));
    VXorSelf(Ph(key[WordOf(xs, ys, j) := a'], j, xs[j]));
  }

  lemma LastSeparates(key: OhKey, xs: Chunks, s: u64, ys: Chunks, t: u64, b: u64, b': u64)
    requires |xs| == |ys| && xs != [] && xs[|xs| - 1] != ys[|ys| - 1]
    requires var m, w := |xs| - 1, WordOf(xs, ys, |xs| - 1);
             && Enh(key[w := b], m, xs[m], s) == Enh(key[w := b], m, ys[m], t)
             && Enh(key[w := b'], m, xs[m], s) == Enh(key[w := b'], m, ys[m], t)
    ensures b == b'
  {
    hide Enh;
    var m := |xs| - 1;
    Universality.EnhSeparatesAt(key, m, WordOf(xs, ys, m), xs[m], ys[m], s, t, b, b');
  }

  /** A collision of both compressors splits into one equation for each of the two words. */
  lemma SeparateCollisions(key: OhKey, xs: Chunks, s: u64, ys: Chunks, t: u64, j: nat, a: u64, b: u64)
    requires |xs| == |ys| && j < |xs| - 1 && AgreeBut(xs, ys, |xs| - 1, j, j)
    requires Lrc(key, xs) == Lrc(key, ys)
    requires BothCollide(TwoWords(key, WordOf(xs, ys, j), a, WordOf(xs, ys, |xs| - 1), b), xs, s, ys, t)
    ensures var u, w, m := WordOf(xs, ys, j), WordOf(xs, ys, |xs| - 1), |xs| - 1;
            && Ph(key[u := a], j, xs[j]) == Ph(key[u := a], j, ys[j])
            && Enh(key[w := b], m, xs[m], s) == Enh(key[w := b], m, ys[m], t)
  {
    hide Lrc, BothCollide, TwoWords, WordOf, AgreeBut, Ph, Enh, Universality.SameBut, SameButTwo;
    var u, w, m := WordOf(xs, ys, j), WordOf(xs, ys, |xs| - 1), |xs| - 1;
    var k := TwoWords(key, u, a, w, b);
    TwoWordsSame(key, u, a, a, w, b, b);
    ChecksumsAgree(key, k, xs, ys);
    OnePhChunk(k, xs, s, ys, t, j);
    Universality.PhSame(k, key[u := a], m, j, xs[j]);
    Universality.PhSame(k, key[u := a], m, j, ys[j]);
    Universality.PhSame(k, key[w := b], j, m, xs[m]);
    Universality.PhSame(k, key[w := b], j, m, ys[m]);
  }
}
