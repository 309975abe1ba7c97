/** The xor-rotate finalizer and its inverse. */
module Finalizer {
  import opened Words

  // ---------------------------------------------------------------- bits of a split word

  lemma {:induction false} SmallBit(x: nat, k: nat, i: nat)
    requires x < Pow2(k) && k <= i
    ensures !Bit(x, i)
    decreases i
  {
    if i == 0 {
    } else {
      SmallBit(x / 2, if k == 0 then 0 else k - 1, i - 1);
    }
  }

  lemma {:induction false} SumBit(v: nat, u: nat, n: nat, i: nat)
    requires v < Pow2(n)
    ensures Bit(v + Pow2(n) * u, i) == if i < n then Bit(v, i) else Bit(u, i - n)
    decreases n
  {
    if n == 0 {
      assert v + Pow2(n) * u == u;
    } else {
      MulDouble(Pow2(n - 1), u);
      HalfSum(v, Pow2(n - 1) * u);
      if i > 0 {
        SumBit(v / 2, u, n - 1, i - 1);
      }
    }
  }

  lemma LowHighBit(x: nat, k: nat, i: nat)
    ensures i < k ==> Bit(Low(x, k), i) == Bit(x, i)
    ensures Bit(High(x, k), i) == Bit(x, k + i)
  {
    hide Bit, Pow2;
    SumBit(Low(x, k), High(x, k), k, i);
    SumBit(Low(x, k), High(x, k), k, k + i);
  }

  lemma WordsEq(x: u64, y: u64)
    requires forall i: nat :: i < 64 ==> Bit(x, i) == Bit(y, i)
    ensures x == y
  {
    hide Bit;
    Pow2Values();
    forall i: nat
      ensures Bit(x, i) == Bit(y, i)
    {
      if i >= 64 {
        SmallBit(x, 64, i);
        SmallBit(y, 64, i);
      }
    }
    BitsEq(x, y);
  }

  // ---------------------------------------------------------------- rotations

  /** Rotates left: the operands of the machine's `or` have no bit in common, so it is their sum. */
  function Rotl(x: u64, n: nat): u64
    requires n <= 64
  {
    RotlParts(x, n);
    Shl(x, n) + Shr(x, 64 - n)
  }

  lemma RotlParts(x: u64, n: nat)
    requires n <= 64
    ensures Shr(x, 64 - n) < Pow2(n)
    ensures Shl(x, n) == Pow2(n) * Low(x, 64 - n)
    ensures Shl(x, n) + Shr(x, 64 - n) < W
  {
    hide Pow2;
    Pow2Add(n, 64 - n);
    Pow2Values();
    SplitProduct(Pow2(n), Pow2(64 - n), Low(x, 64 - n), High(x, 64 - n));
  }

  /** Multiplying by p moves the high part v out of the word, past the low part u. */
  lemma SplitProduct(p: nat, q: nat, u: nat, v: nat)
    requires p * q == W && u < q && u + q * v < W
    ensures v < p && u * p + v < W
    ensures (u + q * v) * p % W == u * p
  {
    if p <= v {
      MulLe(p, v, q);
      assert false;
    }
    MulLe(u, q - 1, p);
    assert (q - 1) * p == W - p;
    assert (u + q * v) * p == u * p + W * v;
    DivModUnique(v, u * p, W);
  }

  lemma RotlBit(x: u64, n: nat, i: nat)
    requires n <= 64 && i < 64
    ensures Bit(Rotl(x, n), i) == Bit(x, if i < n then i + 64 - n else i - n)
  {
    hide Bit, Pow2;
    RotlParts(x, n);
    var u, v := Low(x, 64 - n), High(x, 64 - n);
    SumBit(v, u, n, i);
    LowHighBit(x, 64 - n, if i < n then i else i - n);
  }

  lemma RotlRotl(x: u64, a: nat, b: nat)
    requires a <= 64 && b <= 64
    ensures Rotl(Rotl(x, a), b) == Rotl(x, (a + b) % 64)
  {
    hide Bit, Rotl;
    forall i: nat | i < 64
      ensures Bit(Rotl(Rotl(x, a), b), i) == Bit(Rotl(x, (a + b) % 64), i)
    {
      RotlBit(Rotl(x, a), b, i);
      RotlBit(x, a, if i < b then i + 64 - b else i - b);
      RotlBit(x, (a + b) % 64, i);
    }
    WordsEq(Rotl(Rotl(x, a), b), Rotl(x, (a + b) % 64));
  }

  lemma RotlXor(x: u64, y: u64, n: nat)
    requires n <= 64
    ensures Rotl(Xor64(x, y), n) == Xor64(Rotl(x, n), Rotl(y, n))
  {
    hide Bit, Rotl, Xor;
    XorBits();
    forall i: nat | i < 64
      ensures Bit(Rotl(Xor64(x, y), n), i) == Bit(Xor64(Rotl(x, n), Rotl(y, n)), i)
    {
      RotlBit(Xor64(x, y), n, i);
      RotlBit(x, n, i);
      RotlBit(y, n, i);
    }
    WordsEq(Rotl(Xor64(x, y), n), Xor64(Rotl(x, n), Rotl(y, n)));
  }

  // ---------------------------------------------------------------- xor of two rotations

  function XorRot2(x: u64, a: nat, b: nat): u64
    requires a <= 64 && b <= 64
  {
    Xor64(Xor64(x, Rotl(x, a)), Rotl(x, b))
  }

  function Finalize(x: u64): u64 {
    XorRot2(x, 8, 33)
  }

  lemma XorRot2Rotl(x: u64, a: nat, b: nat, n: nat)
    requires a <= 64 && b <= 64 && n <= 64
    ensures Rotl(XorRot2(x, a, b), n)
         == Xor64(Xor64(Rotl(x, n), Rotl(x, (a + n) % 64)), Rotl(x, (b + n) % 64))
  {
    hide Rotl, Xor64;
    RotlXor(Xor64(x, Rotl(x, a)), Rotl(x, b), n);
    RotlXor(x, Rotl(x, a), n);
    RotlRotl(x, a, n);
    RotlRotl(x, b, n);
  }

  lemma CancelCrossTerms(x: u64, p: u64, q: u64, r: u64, s: u64, t: u64)
    ensures Xor64(Xor64(Xor64(Xor64(x, p), q), Xor64(Xor64(p, r), s)), Xor64(Xor64(q, s), t))
         == Xor64(Xor64(x, r), t)
  {
    hide Xor, Bit;
    XorBits();
    BitsEq(Xor(Xor(Xor(Xor(x, p), q), Xor(Xor(p, r), s)), Xor(Xor(q, s), t)), Xor(Xor(x, r), t));
  }

  /** Composing the map with itself doubles both rotation counts. */
  lemma Doubling(x: u64, a: nat, b: nat)
    requires a <= 64 && b <= 64
    ensures XorRot2(XorRot2(x, a, b), a, b) == XorRot2(x, 2 * a % 64, 2 * b % 64)
  {
    hide Rotl, Xor64;
    var ra, rb := Rotl(x, a), Rotl(x, b);
    XorRot2Rotl(x, a, b, a);
    XorRot2Rotl(x, a, b, b);
    CancelCrossTerms(x, ra, rb, Rotl(x, 2 * a % 64), Rotl(x, (a + b) % 64), Rotl(x, 2 * b % 64));
  }

  lemma TransposeTerms(x: u64, p: u64, q: u64, r: u64, s: u64,
                       pr: u64, ps: u64, qr: u64, qs: u64)
    ensures Xor64(Xor64(Xor64(Xor64(x, p), q), Xor64(Xor64(r, pr), qr)), Xor64(Xor64(s, ps), qs))
         == Xor64(Xor64(Xor64(Xor64(x, r), s), Xor64(Xor64(p, pr), ps)), Xor64(Xor64(q, qr), qs))
  {
    hide Xor, Bit;
    XorBits();
    BitsEq(Xor(Xor(Xor(Xor(x, p), q), Xor(Xor(r, pr), qr)), Xor(Xor(s, ps), qs)),
           Xor(Xor(Xor(Xor(x, r), s), Xor(Xor(p, pr), ps)), Xor(Xor(q, qr), qs)));
  }

  lemma Commute(x: u64, a: nat, b: nat, c: nat, d: nat)
    requires a <= 64 && b <= 64 && c <= 64 && d <= 64
    ensures XorRot2(XorRot2(x, a, b), c, d) == XorRot2(XorRot2(x, c, d), a, b)
  {
    hide Rotl, Xor64;
    XorRot2Rotl(x, a, b, c);
    XorRot2Rotl(x, a, b, d);
    XorRot2Rotl(x, c, d, a);
    XorRot2Rotl(x, c, d, b);
    TransposeTerms(x, Rotl(x, a), Rotl(x, b), Rotl(x, c), Rotl(x, d),
                   Rotl(x, (a + c) % 64), Rotl(x, (a + d) % 64),
                   Rotl(x, (b + c) % 64), Rotl(x, (b + d) % 64));
  }

  // ---------------------------------------------------------------- inverse

  /** `steps` rounds, doubling the counts after each. */
  function Rounds(x: u64, a: nat, b: nat, steps: nat): u64
    requires a <= 64 && b <= 64
    decreases steps
  {
    if steps == 0 then x else Rounds(XorRot2(x, a, b), 2 * a % 64, 2 * b % 64, steps - 1)
  }

  function Unfinalize(x: u64): u64 {
    Rounds(x, 8, 33, 6)
  }

  /** Rotation counts after `steps` doublings. */
  function Doubled(a: nat, steps: nat): nat
    decreases steps
  {
    if steps == 0 then a else Doubled(2 * a % 64, steps - 1)
  }

  /** The rounds telescope: each one absorbs what the previous left over. */
  lemma {:induction false} RoundsTelescope(x: u64, a: nat, b: nat, steps: nat)
    requires a < 64 && b < 64
    ensures Doubled(a, steps) < 64 && Doubled(b, steps) < 64
    ensures Rounds(XorRot2(x, a, b), a, b, steps) == XorRot2(x, Doubled(a, steps), Doubled(b, steps))
    decreases steps
  {
    hide XorRot2;
    if steps == 0 {
    } else {
      Doubling(x, a, b);
      RoundsTelescope(x, 2 * a % 64, 2 * b % 64, steps - 1);
    }
  }

  lemma {:induction false} RoundsCommute(x: u64, a: nat, b: nat, steps: nat, c: nat, d: nat)
    requires a <= 64 && b <= 64 && c <= 64 && d <= 64
    ensures Rounds(XorRot2(x, c, d), a, b, steps) == XorRot2(Rounds(x, a, b, steps), c, d)
    decreases steps
  {
    hide XorRot2;
    if steps == 0 {
    } else {
      Commute(x, c, d, a, b);
      RoundsCommute(XorRot2(x, a, b), 2 * a % 64, 2 * b % 64, steps - 1, c, d);
    }
  }

  lemma XorRot2Zero(x: u64)
    ensures XorRot2(x, 0, 0) == x
  {
    hide Xor, Bit;
    Pow2Values();
    assert Low(x, 64) == x;
    RotlParts(x, 0);
    assert Rotl(x, 0) == x;
    XorSelf(x);
    XorZero(x);
  }

  lemma DoubledNext(a: nat, steps: nat)
    requires steps > 0
    ensures Doubled(a, steps) == Doubled(2 * a % 64, steps - 1)
  {
  }

  lemma {:induction false} DoubledZero(steps: nat)
    ensures Doubled(0, steps) == 0
  {
    if steps > 0 {
      DoubledZero(steps - 1);
    }
  }

  /** 64 divides the sixth doubling of any count. */
  lemma SixDoublings()
    ensures Doubled(8, 6) == 0 && Doubled(33, 6) == 0
  {
    hide Doubled;
    DoubledNext(8, 6);
    DoubledNext(16, 5);
    DoubledNext(32, 4);
    DoubledZero(3);
    DoubledNext(33, 6);
    DoubledNext(2, 5);
    DoubledNext(4, 4);
    DoubledNext(8, 3);
    DoubledNext(16, 2);
    DoubledNext(32, 1);
    DoubledZero(0);
  }

  /** Six rounds undo the finalizer, on both sides: it is a bijection on words. */
  lemma UnfinalizeInverts(x: u64)
    ensures Unfinalize(Finalize(x)) == x
    ensures Finalize(Unfinalize(x)) == x
  {
    hide XorRot2, Rounds, Doubled;
    RoundsTelescope(x, 8, 33, 6);
    SixDoublings();
    XorRot2Zero(x);
    RoundsCommute(x, 8, 33, 6, 8, 33);
  }

  /** Each bit of the result is the exclusive or of three bits of the argument. */
  lemma FinalizeBits(x: u64, i: nat)
    requires i < 64
    ensures Bit(Finalize(x), i) == ((Bit(x, i) != Bit(x, (i + 56) % 64)) != Bit(x, (i + 31) % 64))
  {
    hide Bit, Rotl, Xor;
    XorBit(x, Rotl(x, 8), i);
    XorBit(Xor(x, Rotl(x, 8)), Rotl(x, 33), i);
    RotlBit(x, 8, i);
    RotlBit(x, 33, i);
  }
}
