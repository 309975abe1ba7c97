/** Carry-less multiplication: polynomials over GF(2), with bit i the coefficient of X^i. */
module CarryLess {
  import opened Words

  function GfMul(x: nat, y: nat): nat
    decreases x
  {
    if x == 0 then 0
    else Xor(if x % 2 == 1 then y else 0, 2 * GfMul(x / 2, y))
  }

  lemma XorDouble(x: nat, y: nat)
    ensures Xor(2 * x, 2 * y) == 2 * Xor(x, y)
  {
    hide Xor;
    XorUnfold(2 * x, 2 * y);
  }

  lemma {:induction false} GfMulXorRight(x: nat, y: nat, z: nat)
    ensures GfMul(x, Xor(y, z)) == Xor(GfMul(x, y), GfMul(x, z))
    decreases x
  {
    if x == 0 {
      XorSelf(0);
    } else {
      var a, b := GfMul(x / 2, y), GfMul(x / 2, z);
      GfMulXorRight(x / 2, y, z);
      XorDouble(a, b);
      XorSwap(if x % 2 == 1 then y else 0, if x % 2 == 1 then z else 0, 2 * a, 2 * b);
      XorSelf(0);
    }
  }

  /** The recursion equation, also where the first factor is zero. */
  lemma GfMulUnfold(x: nat, y: nat)
    ensures GfMul(x, y) == Xor(if x % 2 == 1 then y else 0, 2 * GfMul(x / 2, y))
  {
    XorZero(0);
  }

  lemma {:induction false} GfMulXorLeft(x: nat, y: nat, z: nat)
    ensures GfMul(Xor(x, y), z) == Xor(GfMul(x, z), GfMul(y, z))
    decreases x + y
  {
    if x == 0 && y == 0 {
      XorSelf(0);
    } else {
      var a, b := GfMul(x / 2, z), GfMul(y / 2, z);
      var u, v := if x % 2 == 1 then z else 0, if y % 2 == 1 then z else 0;
      GfMulXorLeft(x / 2, y / 2, z);
      XorUnfold(x, y);
      GfMulUnfold(Xor(x, y), z);
      GfMulUnfold(x, z);
      GfMulUnfold(y, z);
      XorDouble(a, b);
      XorSwap(u, v, 2 * a, 2 * b);
      ConditionalXor(x, y, z);
    }
  }

  lemma ConditionalXor(x: nat, y: nat, z: nat)
    ensures Xor(if x % 2 == 1 then z else 0, if y % 2 == 1 then z else 0)
         == if (x + y) % 2 == 1 then z else 0
  {
    XorSelf(z);
    XorZero(z);
    XorSelf(0);
  }

  lemma {:induction false} GfMulEvenRight(x: nat, y: nat)
    ensures GfMul(x, 2 * y) == 2 * GfMul(x, y)
    decreases x
  {
    if x != 0 {
      GfMulEvenRight(x / 2, y);
      XorDouble(if x % 2 == 1 then y else 0, 2 * GfMul(x / 2, y));
    }
  }

  lemma GfMulEvenLeft(x: nat, y: nat)
    ensures GfMul(2 * x, y) == 2 * GfMul(x, y)
  {
    GfMulUnfold(2 * x, y);
    XorZero(2 * GfMul(x, y));
  }

  lemma {:induction false} GfMulSmallRight(x: nat)
    ensures GfMul(x, 0) == 0 && GfMul(x, 1) == x
    decreases x
  {
    hide Xor;
    if x != 0 {
      GfMulSmallRight(x / 2);
      XorZero(0);
      XorSplit(x % 2, 0, 0, x / 2, 1);
      XorZero(x % 2);
      XorZero(x / 2);
      assert Pow2(1) == 2;
    }
  }

  lemma {:induction false} GfMulComm(x: nat, y: nat)
    ensures GfMul(x, y) == GfMul(y, x)
    decreases x
  {
    hide Xor;
    GfMulSmallRight(y);
    if x != 0 {
      GfMulComm(x / 2, y);
      GfMulXorRight(y, x % 2, 2 * (x / 2));
      GfMulEvenRight(y, x / 2);
      XorSplit(x % 2, 0, 0, x / 2, 1);
      XorZero(x % 2);
      XorZero(x / 2);
      assert Pow2(1) == 2;
    }
  }

  /** Carry-less multiplication has no zero divisors. */
  lemma {:induction false} GfMulNonzero(x: nat, y: nat)
    requires x > 0 && y > 0
    ensures GfMul(x, y) > 0
    decreases x + y
  {
    hide Xor;
    if x % 2 == 0 {
      GfMulNonzero(x / 2, y);
      GfMulEvenLeft(x / 2, y);
    } else if y % 2 == 0 {
      GfMulNonzero(x, y / 2);
      GfMulEvenRight(x, y / 2);
    } else {
      XorUnfold(y, 2 * GfMul(x / 2, y));
    }
  }

  /** Multiplication by a nonzero polynomial is injective, on either side. */
  lemma GfMulInjective(c: nat, x: nat, y: nat)
    requires c > 0
    ensures GfMul(c, x) == GfMul(c, y) ==> x == y
    ensures GfMul(x, c) == GfMul(y, c) ==> x == y
  {
    XorCancel(x, y, 0);
    if x != y {
      var d := Xor(x, y);
      GfMulNonzero(c, d);
      GfMulNonzero(d, c);
      GfMulXorRight(c, x, y);
      GfMulXorLeft(x, y, c);
      XorSelf(GfMul(c, x));
      XorSelf(GfMul(x, c));
    }
  }

  lemma {:induction false} Pow2Le(a: nat, b: nat)
    requires a <= b
    ensures Pow2(a) <= Pow2(b)
    decreases b
  {
    if a < b {
      Pow2Le(a, b - 1);
    }
  }

  /** The product of an a-bit and a b-bit polynomial has at most a + b - 1 bits. */
  lemma {:induction false} GfMulBound(x: nat, y: nat, a: nat, b: nat)
    requires a >= 1 && x < Pow2(a) && y < Pow2(b)
    ensures GfMul(x, y) < Pow2(a + b - 1)
    decreases a
  {
    if x == 0 {
    } else {
      var half := GfMul(x / 2, y);
      if a == 1 {
        assert half == 0;
      } else {
        GfMulBound(x / 2, y, a - 1, b);
        assert 2 * half < Pow2(a + b - 1);
      }
      Pow2Le(b, a + b - 1);
      XorBound(if x % 2 == 1 then y else 0, 2 * half, a + b - 1);
    }
  }

  lemma {:induction false} GfMulPow2(i: nat, y: nat)
    ensures GfMul(Pow2(i), y) == y * Pow2(i)
    decreases i
  {
    hide Xor;
    if i == 0 {
      XorZero(y);
    } else {
      GfMulPow2(i - 1, y);
      GfMulEvenLeft(Pow2(i - 1), y);
    }
  }

  lemma {:induction false} LowBit(x: nat, i: nat)
    ensures Low(x, i + 1) == Low(x, i) + (if Bit(x, i) then Pow2(i) else 0)
    decreases i
  {
    if i == 0 {
    } else {
      LowBit(x / 2, i - 1);
      LowHalf(x, i);
      LowHalf(x, i + 1);
    }
  }

  lemma LowHalf(x: nat, k: nat)
    requires k > 0
    ensures Low(x, k) == 2 * Low(x / 2, k - 1) + x % 2
  {
    var p, q := Pow2(k - 1), High(x / 2, k - 1);
    var r := 2 * Low(x / 2, k - 1) + x % 2;
    MulDouble(p, q);
    assert x == r + Pow2(k) * q;
    DivModUnique(q, r, Pow2(k));
  }

  lemma LowXorBit(x: nat, i: nat)
    requires Bit(x, i)
    ensures Low(x, i + 1) == Xor(Low(x, i), Pow2(i))
  {
    hide Xor;
    LowBit(x, i);
    XorSplit(Low(x, i), 0, 0, 1, i);
    XorZero(Low(x, i));
    XorZero(1);
  }

  /** One iteration of the schoolbook loop. */
  lemma GfMulLoopStep(x: nat, y: nat, i: nat)
    ensures GfMul(Low(x, i + 1), y)
         == if Bit(x, i) then Xor(GfMul(Low(x, i), y), y * Pow2(i)) else GfMul(Low(x, i), y)
  {
    hide *;
    if Bit(x, i) {
      LowXorBit(x, i);
      GfMulXorLeft(Low(x, i), Pow2(i), y);
      GfMulPow2(i, y);
    } else {
      LowBit(x, i);
    }
  }
}
