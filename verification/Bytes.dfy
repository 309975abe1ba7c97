/** Little-endian loads. */
module Bytes {
  import opened Words
  import opened Lanes

  type bytes = seq<byte>

  function Le(s: bytes): nat {
    if s == [] then 0 else s[0] + 256 * Le(s[1..])
  }

  lemma {:induction false} LeBound(s: bytes)
    ensures Le(s) < Pow2(8 * |s|)
  {
    if s == [] {
    } else {
      LeBound(s[1..]);
      Pow2Add(8 * |s| - 8, 8);
      Pow2Values();
    }
  }

  /** A load of a given width determines its bytes. */
  lemma {:induction false} LeInjective(s: bytes, t: bytes)
    requires |s| == |t| && Le(s) == Le(t)
    ensures s == t
  {
    if s == [] {
    } else {
      assert s[0] == Le(s) % 256 && t[0] == Le(t) % 256;
      LeInjective(s[1..], t[1..]);
      assert s == [s[0]] + s[1..] && t == [t[0]] + t[1..];
    }
  }

  function LoadWord(s: bytes): u64
    requires |s| == 8
  {
    LeBound(s);
    Pow2Values();
    Le(s)
  }

  function LoadChunk(s: bytes): V128
    requires |s| == 16
  {
    V128(LoadWord(s[..8]), LoadWord(s[8..]))
  }

  // ---------------------------------------------------------------- what a load reads

  lemma DivDiv(x: nat, a: nat, b: nat)
    requires a > 0 && b > 0
    ensures a * b > 0 && x / (a * b) == x / a / b
  {
    MulMono(a, b);
    var q, r := x / a, x % a;
    var q2, r2 := q / b, q % b;
    MulLe(r2, b - 1, a);
    assert x == (a * r2 + r) + a * b * q2 by {
      assert a * q == a * (b * q2 + r2) == a * (b * q2) + a * r2;
      assert a * (b * q2) == a * b * q2;
    }
    assert r2 * a <= (b - 1) * a == a * b - a;
    DivModUnique(q2, a * r2 + r, a * b);
  }

  lemma LeCons(s: bytes)
    requires s != []
    ensures Le(s) % 256 == s[0] && Le(s) / 256 == Le(s[1..])
  {
    DivModUnique(Le(s[1..]), s[0], 256);
  }

  lemma {:induction false} LeByte(s: bytes, i: nat)
    requires i < |s|
    ensures Le(s) / Pow2(8 * i) % 256 == s[i]
    decreases i
  {
    hide Le;
    LeCons(s);
    if i == 0 {
      assert Pow2(0) == 1;
    } else {
      hide Pow2;
      LeByte(s[1..], i - 1);
      Pow2Add(8, 8 * i - 8);
      Pow2Values();
      DivDiv(Le(s), 256, Pow2(8 * i - 8));
    }
  }

  /** Byte `i` of an 8-byte load is the `i`th byte in memory: the lowest comes first. */
  lemma LoadWordBytes(s: bytes, i: nat)
    requires |s| == 8 && i < 8
    ensures LoadWord(s) / Pow2(8 * i) % 256 == s[i]
  {
    hide Le;
    LeByte(s, i);
  }

  /** An 8-byte load, written out. */
  lemma LoadWordValue(s: bytes)
    requires |s| == 8
    ensures LoadWord(s)
         == s[0] + 0x100 * (s[1] as int) + 0x1_0000 * (s[2] as int) + 0x100_0000 * (s[3] as int)
            + 0x1_0000_0000 * (s[4] as int) + 0x100_0000_0000 * (s[5] as int)
            + 0x1_0000_0000_0000 * (s[6] as int) + 0x100_0000_0000_0000 * (s[7] as int)
  {
    LeFour(s[..4]);
    LeFour(s[4..]);
    LeSplit(s, 4);
    assert Pow2(8 * 4) == 0x1_0000_0000 by {
      Pow2Values();
    }
  }

  lemma {:induction false} LeSplit(s: bytes, i: nat)
    requires i <= |s|
    ensures Le(s) == Le(s[..i]) + Pow2(8 * i) * Le(s[i..])
    decreases i
  {
    if i == 0 {
      assert s[0..] == s && Pow2(0) == 1;
    } else {
      hide Pow2;
      LeSplit(s[1..], i - 1);
      assert s[1..][..i - 1] == s[..i][1..] && s[1..][i - 1..] == s[i..];
      Pow2Add(8, 8 * i - 8);
      Pow2Values();
      MulShift(256, Pow2(8 * i - 8), Le(s[i..]));
    }
  }

  lemma MulShift(a: nat, b: nat, c: nat)
    ensures a * (b * c) == a * b * c
  {
  }

  /** A 16- and a 32-bit value, written out. */
  lemma LeTwo(s: bytes)
    requires |s| == 2
    ensures Le(s) == s[0] + 0x100 * (s[1] as int)
  {
    assert Le(s[1..]) == s[1] + 256 * Le(s[1..][1..]);
  }

  lemma LeFour(s: bytes)
    requires |s| == 4
    ensures Le(s) == s[0] + 0x100 * (s[1] as int) + 0x1_0000 * (s[2] as int) + 0x100_0000 * (s[3] as int)
  {
    LeSplit(s, 2);
    LeTwo(s[..2]);
    LeTwo(s[2..]);
    assert Pow2(8 * 2) == 0x1_0000 by {
      Pow2Values();
    }
  }

  /** Byte `i` of a 16-byte value, lane by lane. */
  function ByteOf(x: V128, i: nat): nat
    requires i < 16
  {
    if i < 8 then x.lo / Pow2(8 * i) % 256 else x.hi / Pow2(8 * i - 64) % 256
  }

  /** The first eight bytes of a chunk are its low lane, the others its high one. */
  lemma LoadChunkBytes(s: bytes, i: nat)
    requires |s| == 16 && i < 16
    ensures ByteOf(LoadChunk(s), i) == s[i]
    ensures i < 8 ==> LoadChunk(s).lo / Pow2(8 * i) % 256 == s[i] && LoadChunk(s).hi / Pow2(8 * i) % 256 == s[8 + i]
  {
    hide LoadWord, Pow2;
    LoadWordBytes(s[..8], i % 8);
    LoadWordBytes(s[8..], i % 8);
  }
}
