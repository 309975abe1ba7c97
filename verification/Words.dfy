/** 64-bit words as integers, with bitwise exclusive or defined on all naturals. */
module Words {

  const W: int := 0x1_0000_0000_0000_0000

  type u64 = x: int | 0 <= x < 0x1_0000_0000_0000_0000
  type byte = x: int | 0 <= x < 0x100

  // ---------------------------------------------------------------- powers of two

  function Pow2(k: nat): (p: nat)
    ensures p >= 1
  {
    if k == 0 then 1 else 2 * Pow2(k - 1)
  }

  lemma {:induction false} Pow2Add(a: nat, b: nat)
    ensures Pow2(a + b) == Pow2(a) * Pow2(b)
  {
    if b == 0 {
    } else {
      Pow2Add(a, b - 1);
    }
  }

  lemma Pow2Values()
    ensures Pow2(8) == 0x100 && Pow2(16) == 0x1_0000 && Pow2(32) == 0x1_0000_0000
    ensures Pow2(61) == 0x2000_0000_0000_0000 && Pow2(64) == W
  {
    assert Pow2(4) == 16;
    Pow2Add(4, 4);
    Pow2Add(8, 8);
    Pow2Add(16, 16);
    Pow2Add(32, 32);
    Pow2Add(61, 3);
    assert Pow2(3) == 8;
  }

  // ---------------------------------------------------------------- bits

  predicate Bit(x: nat, i: nat)
    decreases i
  {
    if i == 0 then x % 2 == 1 else Bit(x / 2, i - 1)
  }

  /** Numbers with the same bits are the same number. */
  lemma {:induction false} BitsEq(x: nat, y: nat)
    requires forall i: nat :: Bit(x, i) == Bit(y, i)
    ensures x == y
    decreases x + y
  {
    if x == 0 && y == 0 {
    } else {
      assert Bit(x, 0) == Bit(y, 0);
      forall i: nat
        ensures Bit(x / 2, i) == Bit(y / 2, i)
      {
        assert Bit(x, i + 1) == Bit(y, i + 1);
      }
      BitsEq(x / 2, y / 2);
    }
  }

  function Xor(x: nat, y: nat): nat
    decreases x + y
  {
    if x == 0 && y == 0 then 0
    else 2 * Xor(x / 2, y / 2) + (x + y) % 2
  }

  lemma HalfSum(a: nat, c: nat)
    ensures (a + 2 * c) / 2 == a / 2 + c && (a + 2 * c) % 2 == a % 2
  {
  }

  lemma XorUnfold(x: nat, y: nat)
    ensures Xor(x, y) % 2 == (x + y) % 2
    ensures Xor(x, y) / 2 == Xor(x / 2, y / 2)
  {
    var q := Xor(x / 2, y / 2);
    assert Xor(x, y) == (x + y) % 2 + 2 * q;
    HalfSum((x + y) % 2, q);
  }

  lemma {:induction false} XorBit(x: nat, y: nat, i: nat)
    ensures Bit(Xor(x, y), i) == (Bit(x, i) != Bit(y, i))
    decreases i
  {
    hide Xor;
    XorUnfold(x, y);
    if i > 0 {
      XorBit(x / 2, y / 2, i - 1);
    }
  }

  lemma XorBits()
    ensures forall x: nat, y: nat, i: nat {:trigger Bit(Xor(x, y), i)} ::
              Bit(Xor(x, y), i) == (Bit(x, i) != Bit(y, i))
  {
    forall x: nat, y: nat, i: nat
      ensures Bit(Xor(x, y), i) == (Bit(x, i) != Bit(y, i))
    {
      XorBit(x, y, i);
    }
  }

  lemma {:induction false} ZeroBit(i: nat)
    ensures !Bit(0, i)
  {
    if i > 0 {
      ZeroBit(i - 1);
    }
  }

  lemma XorComm(x: nat, y: nat)
    ensures Xor(x, y) == Xor(y, x)
  {
    XorBits();
    BitsEq(Xor(x, y), Xor(y, x));
  }

  lemma XorAssoc(x: nat, y: nat, z: nat)
    ensures Xor(Xor(x, y), z) == Xor(x, Xor(y, z))
  {
    XorBits();
    BitsEq(Xor(Xor(x, y), z), Xor(x, Xor(y, z)));
  }

  lemma XorZero(x: nat)
    ensures Xor(x, 0) == x && Xor(0, x) == x
  {
    forall i: nat
      ensures Bit(Xor(x, 0), i) == Bit(x, i)
    {
      XorBit(x, 0, i);
      ZeroBit(i);
    }
    BitsEq(Xor(x, 0), x);
    XorComm(x, 0);
  }

  lemma XorSelf(x: nat)
    ensures Xor(x, x) == 0
  {
    forall i: nat
      ensures Bit(Xor(x, x), i) == Bit(0, i)
    {
      XorBit(x, x, i);
      ZeroBit(i);
    }
    BitsEq(Xor(x, x), 0);
  }

  /** Exclusive or only vanishes on equal arguments, and cancels. */
  lemma XorCancel(x: nat, y: nat, z: nat)
    ensures Xor(x, y) == 0 <==> x == y
    ensures Xor(x, y) == z <==> x == Xor(y, z)
    ensures Xor(x, z) == Xor(y, z) <==> x == y
  {
    XorSelf(x);
    XorSelf(y);
    XorSelf(z);
    XorAssoc(x, y, y);
    XorAssoc(y, x, y);
    XorAssoc(x, z, z);
    XorAssoc(y, z, z);
    XorAssoc(y, y, z);
    XorComm(y, x);
    XorComm(y, z);
    XorZero(x);
    XorZero(y);
    XorZero(z);
  }

  /** Swaps the middle operands of a four-way exclusive or. */
  lemma XorSwap(a: nat, b: nat, c: nat, d: nat)
    ensures Xor(Xor(a, b), Xor(c, d)) == Xor(Xor(a, c), Xor(b, d))
  {
    XorBits();
    BitsEq(Xor(Xor(a, b), Xor(c, d)), Xor(Xor(a, c), Xor(b, d)));
  }

  lemma {:induction false} XorBound(x: nat, y: nat, k: nat)
    requires x < Pow2(k) && y < Pow2(k)
    ensures Xor(x, y) < Pow2(k)
    decreases k
  {
    if k > 0 {
      XorBound(x / 2, y / 2, k - 1);
    }
  }

  /** Exclusive or acts separately below and above any bit position. */
  lemma {:induction false} XorSplit(a: nat, b: nat, c: nat, d: nat, k: nat)
    requires a < Pow2(k) && b < Pow2(k)
    ensures Xor(a + Pow2(k) * c, b + Pow2(k) * d) == Xor(a, b) + Pow2(k) * Xor(c, d)
    decreases k
  {
    if k == 0 {
    } else {
      var p := Pow2(k - 1);
      MulDouble(p, c);
      MulDouble(p, d);
      MulDouble(p, Xor(c, d));
      XorSplit(a / 2, b / 2, c, d, k - 1);
      XorStep(a, b, p * c, p * d);
    }
  }

  lemma MulDouble(p: nat, c: nat)
    ensures 2 * p * c == 2 * (p * c) && p * c >= 0
  {
  }

  lemma XorStep(a: nat, b: nat, c: nat, d: nat)
    ensures Xor(a + 2 * c, b + 2 * d) == 2 * Xor(a / 2 + c, b / 2 + d) + (a + b) % 2
  {
    hide Xor;
    HalfSum(a, c);
    HalfSum(b, d);
    XorUnfold(a + 2 * c, b + 2 * d);
    HalfSum(a + b, c + d);
  }

  lemma MulMono(m: int, t: int)
    requires m > 0
    ensures t >= 1 ==> m * t >= m
    ensures t <= -1 ==> m * t <= -m
  {
  }

  lemma DivModUnique(q: int, r: int, m: int)
    requires 0 <= r < m
    ensures (r + m * q) / m == q && (r + m * q) % m == r
  {
    var x := r + m * q;
    assert x == m * (x / m) + x % m;
    var t := q - x / m;
    assert m * t == x % m - r;
    MulMono(m, t);
  }

  /** The low `k` bits of `x`. */
  function Low(x: nat, k: nat): (r: nat)
    ensures r < Pow2(k)
  {
    x % Pow2(k)
  }

  /** The bits of `x` from position `k` up. */
  function High(x: nat, k: nat): (r: nat)
    ensures x == Low(x, k) + Pow2(k) * r
    ensures r <= x
  {
    QuotientBound(x, Pow2(k));
    x / Pow2(k)
  }

  lemma QuotientBound(x: nat, p: nat)
    requires p >= 1
    ensures 0 <= x / p <= x && x == x % p + p * (x / p)
  {
  }

  /** Exclusive or commutes with taking low or high bits. */
  lemma XorLowHigh(x: nat, y: nat, k: nat)
    ensures Low(Xor(x, y), k) == Xor(Low(x, k), Low(y, k))
    ensures High(Xor(x, y), k) == Xor(High(x, k), High(y, k))
  {
    XorDivModParts(Low(x, k), Low(y, k), High(x, k), High(y, k), k);
  }

  lemma XorDivModParts(a: nat, b: nat, c: nat, d: nat, k: nat)
    requires a < Pow2(k) && b < Pow2(k)
    ensures Xor(a + Pow2(k) * c, b + Pow2(k) * d) % Pow2(k) == Xor(a, b)
    ensures Xor(a + Pow2(k) * c, b + Pow2(k) * d) / Pow2(k) == Xor(c, d)
  {
    XorSplit(a, b, c, d, k);
    XorBound(a, b, k);
    DivModUnique(Xor(c, d), Xor(a, b), Pow2(k));
  }

  lemma XorScale(x: nat, y: nat, k: nat)
    ensures Xor(x * Pow2(k), y * Pow2(k)) == Xor(x, y) * Pow2(k)
  {
    XorSplit(0, 0, x, y, k);
  }

  // ---------------------------------------------------------------- word operations

  function Xor64(x: u64, y: u64): u64 {
    Pow2Values();
    XorBound(x, y, 64);
    Xor(x, y)
  }

  /** `x << s` on a 64-bit word. */
  function Shl(x: nat, s: nat): u64 {
    (x * Pow2(s)) % W
  }

  /** `x >> s` on a 64-bit word. */
  function Shr(x: u64, s: nat): u64 {
    High(x, s)
  }

  lemma ModMul(x: int, y: int, m: int)
    requires m > 0
    ensures (x % m) * y % m == x * y % m
  {
    var q := x / m;
    assert x == m * q + x % m;
    assert x * y == (x % m) * y + m * (q * y);
    ModAddMultiple((x % m) * y, q * y, m);
  }

  lemma ModAddMultiple(x: int, q: int, m: int)
    requires m > 0
    ensures (x + m * q) % m == x % m
  {
    assert x == m * (x / m) + x % m;
    assert x + m * q == x % m + m * (x / m + q);
    DivModUnique(x / m + q, x % m, m);
  }

  lemma ModAdd(x: int, y: int, m: int)
    requires m > 0
    ensures (x % m + y) % m == (x + y) % m
    ensures (x % m + y % m) % m == (x + y) % m
  {
    assert x == m * (x / m) + x % m;
    assert y == m * (y / m) + y % m;
    ModAddMultiple(x % m + y, x / m, m);
    ModAddMultiple(x % m + y % m, x / m + y / m, m);
    assert m * (x / m + y / m) == m * (x / m) + m * (y / m);
  }

  lemma ShlAdd(x: nat, s: nat, t: nat)
    ensures Shl(Shl(x, s), t) == Shl(x, s + t)
  {
    Pow2Add(s, t);
    ModMul(x * Pow2(s), Pow2(t), W);
    assert x * Pow2(s) * Pow2(t) == x * Pow2(s + t);
  }

  lemma XorModW(x: nat, y: nat)
    ensures Xor(x, y) % W == Xor(x % W, y % W)
  {
    Pow2Values();
    XorLowHigh(x, y, 64);
  }

  /** Left shifts distribute over exclusive or. */
  lemma ShlXor(x: u64, y: u64, s: nat)
    ensures Shl(Xor64(x, y), s) == Xor64(Shl(x, s), Shl(y, s))
  {
    var p := Pow2(s);
    XorScale(x, y, s);
    XorModW(x * p, y * p);
  }

  /** The full product of two words: its high and its low half. */
  function Mul128(x: u64, y: u64): (r: (u64, u64))
    ensures r.0 * W + r.1 == x * y
  {
    ProductBound(x, y, W, W);
    (x * y / W, x * y % W)
  }

  lemma ProductBound(x: nat, y: nat, a: nat, b: nat)
    requires x < a && y < b
    ensures 0 <= x * y < a * b
    ensures x * y <= (a - 1) * (b - 1)
  {
    MulLe(x, a - 1, y);
    MulLe(y, b - 1, a - 1);
  }

  lemma MulLe(x: int, y: int, z: nat)
    requires x <= y
    ensures x * z <= y * z
  {
  }
}
