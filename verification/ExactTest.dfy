/** The statistics of the exact permutation test: two classes tagged, sorted together, and read in
    one pass over the sorted array. */
module ExactTest {
  import opened Words
  import opened HybridSort

  const HALF: int := 0x8000_0000_0000_0000

  /** The class of an observation: 0 for A, 1 for B. */
  type bit = c: int | 0 <= c < 2

  // ---------------------------------------------------------------- what the statistics are about

  /** An observation moved by the offset of its class, modulo 2^63. */
  function Shifted(x: u64, offset: u64): u64 {
    (x + offset) % HALF
  }

  function Shift(s: seq<u64>, offset: u64): (r: seq<u64>)
    ensures |r| == |s|
    ensures forall i :: 0 <= i < |s| ==> r[i] == (s[i] + offset) % 0x8000_0000_0000_0000
  {
    seq(|s|, i requires 0 <= i < |s| => Shifted(s[i], offset))
  }

  /** How many of `ys` are below `x`. */
  function Below(ys: seq<u64>, x: u64): nat {
    if ys == [] then 0 else (if ys[0] < x then 1 else 0) + Below(ys[1..], x)
  }

  /** How many pairs of an element of `xs` and one of `ys` have the first above the second. */
  function Pairs(xs: seq<u64>, ys: seq<u64>): nat {
    if xs == [] then 0 else Below(ys, xs[0]) + Pairs(xs[1..], ys)
  }

  function Sum(s: seq<u64>): nat {
    if s == [] then 0 else Sum(s[..|s| - 1]) + s[|s| - 1]
  }

  // ---------------------------------------------------------------- tags

  /** The tagged observation, in wrapping 64-bit arithmetic: the class is the low bit. */
  function Tag(x: u64, offset: u64, c: bit): u64 {
    (2 * x % W + (2 * offset + c) % W) % W
  }

  lemma TagIsShifted(x: u64, offset: u64, c: bit)
    ensures Tag(x, offset, c) == 2 * Shifted(x, offset) + c
    ensures Tag(x, offset, c) == 2 * ((x + offset) % 0x8000_0000_0000_0000) + c
  {
    ModAdd(2 * x, 2 * offset + c, W);
    var q, r := (x + offset) / HALF, (x + offset) % HALF;
    DivModUnique(q, 2 * r + c, W);
  }

  function Tags(s: seq<u64>, offset: u64, c: bit): seq<u64> {
    seq(|s|, i requires 0 <= i < |s| => Tag(s[i], offset, c))
  }

  /** The first `m` observations tagged as class A, the others as class B. */
  function TagAll(s: seq<u64>, m: nat, aOffset: u64, bOffset: u64): (r: seq<u64>)
    requires m <= |s|
    ensures |r| == |s|
  {
    Tags(s[..m], aOffset, 0) + Tags(s[m..], bOffset, 1)
  }

  /** The observations of one class, in order, without their tags. */
  function ClassOf(s: seq<u64>, c: bit): (r: seq<u64>)
    ensures |r| <= |s|
  {
    if s == [] then []
    else
      var v := s[|s| - 1];
      ClassOf(s[..|s| - 1], c) + if v % 2 == c then [v / 2] else []
  }

  lemma ClassSnoc(s: seq<u64>, v: u64, c: bit)
    ensures ClassOf(s + [v], c) == ClassOf(s, c) + if v % 2 == c then [v / 2] else []
  {
    assert (s + [v])[..|s|] == s;
  }

  lemma {:induction false} ClassConcat(s: seq<u64>, t: seq<u64>, c: bit)
    ensures ClassOf(s + t, c) == ClassOf(s, c) + ClassOf(t, c)
  {
    if t == [] {
      assert s + t == s;
    } else {
      hide ClassOf;
      var n, v := |t| - 1, t[|t| - 1];
      ClassConcat(s, t[..n], c);
      assert t == t[..n] + [v] && s + t == (s + t[..n]) + [v];
      ClassSnoc(t[..n], v, c);
      ClassSnoc(s + t[..n], v, c);
    }
  }

  lemma TagSplit(t: u64, c: bit, v: u64)
    ensures t % 2 == c && t / 2 == v <==> t == 2 * v + c
  {
  }

  lemma {:induction false} ClassCount(s: seq<u64>, c: bit, v: u64)
    ensures multiset(ClassOf(s, c))[v] == if 2 * v + c < W then multiset(s)[2 * v + c] else 0
  {
    if s != [] {
      hide ClassOf;
      var n, t := |s| - 1, s[|s| - 1];
      assert s == s[..n] + [t];
      ClassCount(s[..n], c, v);
      ClassSnoc(s[..n], t, c);
      TagSplit(t, c, v);
      if 2 * v + c < W {
        MultisetSnoc(s[..n], t, 2 * v + c);
      }
      MultisetSnoc(ClassOf(s[..n], c), t / 2, v);
      assert ClassOf(s[..n], c) + [] == ClassOf(s[..n], c);
    }
  }

  lemma {:induction false} ClassMember(s: seq<u64>, c: bit, v: u64)
    requires v in ClassOf(s, c)
    ensures 2 * v + c < W && 2 * v + c in s
  {
    ClassCount(s, c, v);
    assert v in multiset(ClassOf(s, c));
  }

  lemma {:induction false} ClassSorted(s: seq<u64>, c: bit)
    requires Sorted(s)
    ensures Sorted(ClassOf(s, c))
  {
    if s != [] {
      var n := |s| - 1;
      ClassSorted(s[..n], c);
      if s[n] % 2 == c {
        forall v | v in ClassOf(s[..n], c) ensures v <= s[n] / 2 {
          ClassMember(s[..n], c, v);
        }
        SortedConcat(ClassOf(s[..n], c), [s[n] / 2], s[n] / 2);
      }
    }
  }

  lemma TagsSnoc(s: seq<u64>, offset: u64, c: bit)
    requires s != []
    ensures var n := |s| - 1;
            && Tags(s, offset, c) == Tags(s[..n], offset, c) + [Tag(s[n], offset, c)]
            && Shift(s, offset) == Shift(s[..n], offset) + [Shifted(s[n], offset)]
  {
    hide Tag, Shifted;
  }

  lemma TagParts(x: u64, offset: u64, c: bit)
    ensures Tag(x, offset, c) % 2 == c && Tag(x, offset, c) / 2 == Shifted(x, offset)
  {
    hide Tag, Shifted;
    TagIsShifted(x, offset, c);
    TagSplit(Tag(x, offset, c), c, Shifted(x, offset));
  }

  lemma {:induction false} ClassOfTags(s: seq<u64>, offset: u64, c: bit, d: bit)
    ensures ClassOf(Tags(s, offset, c), d) == if d == c then Shift(s, offset) else []
  {
    if s != [] {
      hide ClassOf, Tag, Tags, Shift, Shifted;
      var n := |s| - 1;
      ClassOfTags(s[..n], offset, c, d);
      TagParts(s[n], offset, c);
      TagsSnoc(s, offset, c);
      ClassSnoc(Tags(s[..n], offset, c), Tag(s[n], offset, c), d);
    }
  }

  /** Every tag, in place: twice the moved observation, and one more in class B. */
  lemma TagAllValues(s: seq<u64>, m: nat, aOffset: u64, bOffset: u64, i: nat)
    requires m <= |s| && i < |s|
    ensures TagAll(s, m, aOffset, bOffset)[i]
         == if i < m then 2 * ((s[i] + aOffset) % 0x8000_0000_0000_0000)
            else 2 * ((s[i] + bOffset) % 0x8000_0000_0000_0000) + 1
  {
    hide Tag;
    if i < m {
      TagIsShifted(s[i], aOffset, 0);
    } else {
      TagIsShifted(s[i], bOffset, 1);
    }
  }

  lemma ClassOfSorted(s: seq<u64>, c: bit)
    ensures ClassOf(SortOf(s), c) == SortOf(ClassOf(s, c))
  {
    hide ClassOf, SortOf;
    SortKeepsAll(s);
    forall v: u64 ensures multiset(ClassOf(SortOf(s), c))[v] == multiset(ClassOf(s, c))[v] {
      ClassCount(s, c, v);
      ClassCount(SortOf(s), c, v);
    }
    assert multiset(ClassOf(s, c)) == multiset(ClassOf(SortOf(s), c));
    ClassSorted(SortOf(s), c);
    SortOfSorted(ClassOf(s, c), ClassOf(SortOf(s), c));
  }

  /** Each class of the sorted tags is the sorted class, moved by its offset. */
  lemma SortedClasses(s: seq<u64>, m: nat, aOffset: u64, bOffset: u64)
    requires m <= |s|
    ensures var t := SortOf(TagAll(s, m, aOffset, bOffset));
            && ClassOf(t, 0) == SortOf(Shift(s[..m], aOffset))
            && ClassOf(t, 1) == SortOf(Shift(s[m..], bOffset))
  {
    hide ClassOf, SortOf, Tags, Shift;
    var a, b := Tags(s[..m], aOffset, 0), Tags(s[m..], bOffset, 1);
    ClassOfSorted(a + b, 0);
    ClassOfSorted(a + b, 1);
    ClassConcat(a, b, 0);
    ClassConcat(a, b, 1);
    ClassOfTags(s[..m], aOffset, 0, 0);
    ClassOfTags(s[..m], aOffset, 0, 1);
    ClassOfTags(s[m..], bOffset, 1, 0);
    ClassOfTags(s[m..], bOffset, 1, 1);
    assert Shift(s[..m], aOffset) + [] == Shift(s[..m], aOffset);
    assert [] + Shift(s[m..], bOffset) == Shift(s[m..], bOffset);
  }

  /** Tags `a[from..to]` in place, and widens the running bounds. */
  method TagClass(a: array<u64>, from: nat, to: nat, shifted: u64, min0: u64, max0: u64) returns (min: u64, max: u64)
    requires from <= to <= a.Length
    modifies a
    ensures forall k :: from <= k < to ==> a[k] == (2 * old(a[k]) % W + shifted) % W
    ensures forall k :: 0 <= k < a.Length && !(from <= k < to) ==> a[k] == old(a[k])
    ensures min <= min0 && max >= max0 && forall k :: from <= k < to ==> min <= a[k] <= max
  {
    min, max := min0, max0;
    for i := from to to
      invariant forall k :: from <= k < i ==> a[k] == (2 * old(a[k]) % W + shifted) % W
      invariant forall k :: 0 <= k < a.Length && !(from <= k < i) ==> a[k] == old(a[k])
      invariant min <= min0 && max >= max0 && forall k :: from <= k < i ==> min <= a[k] <= max
    {
      a[i] := (2 * a[i] % W + shifted) % W;
      min := if min < a[i] then min else a[i];
      max := if max > a[i] then max else a[i];
    }
  }

  method OffsetSort(draws: seq<u64>, a: array<u64>, m: nat, n: nat, aOffset: u64, bOffset: u64)
    requires a.Length == m + n
    modifies a
    ensures a[..] == SortOf(TagAll(old(a[..]), m, aOffset, bOffset))
  {
    hide SortOf;
    var shiftedA, shiftedB := 2 * aOffset % W, (2 * bOffset + 1) % W;
    var min, max := TagClass(a, 0, m, shiftedA, W - 1, 0);
    min, max := TagClass(a, m, m + n, shiftedB, min, max);
    assert a[..] == TagAll(old(a[..]), m, aOffset, bOffset);
    HybridSort.HybridSort(draws, a, min, max);
  }

  // ---------------------------------------------------------------- counting pairs

  lemma {:induction false} BelowConcat(s: seq<u64>, t: seq<u64>, x: u64)
    ensures Below(s + t, x) == Below(s, x) + Below(t, x)
  {
    if s == [] {
      assert s + t == t;
    } else {
      BelowConcat(s[1..], t, x);
      assert (s + t)[1..] == s[1..] + t;
    }
  }

  lemma {:induction false} AllBelow(ys: seq<u64>, x: u64)
    requires forall k :: 0 <= k < |ys| ==> ys[k] < x
    ensures Below(ys, x) == |ys|
  {
    if ys != [] {
      AllBelow(ys[1..], x);
    }
  }

  lemma {:induction false} PairsConcat(s: seq<u64>, t: seq<u64>, ys: seq<u64>)
    ensures Pairs(s + t, ys) == Pairs(s, ys) + Pairs(t, ys)
  {
    if s == [] {
      assert s + t == t;
    } else {
      PairsConcat(s[1..], t, ys);
      assert (s + t)[1..] == s[1..] + t;
    }
  }

  /** An element of `ys` that none of `xs` exceeds takes part in no pair. */
  lemma {:induction false} PairsSkip(xs: seq<u64>, ys: seq<u64>, y: u64)
    requires forall k :: 0 <= k < |xs| ==> xs[k] <= y
    ensures Pairs(xs, ys + [y]) == Pairs(xs, ys)
  {
    if xs != [] {
      PairsSkip(xs[1..], ys, y);
      BelowConcat(ys, [y], xs[0]);
    }
  }

  lemma {:induction false} BelowInsert(v: u64, ys: seq<u64>, x: u64)
    ensures Below(Insert(v, ys), x) == Below([v], x) + Below(ys, x)
  {
    if ys != [] && v > ys[0] {
      BelowInsert(v, ys[1..], x);
    }
  }

  lemma {:induction false} BelowSorted(ys: seq<u64>, x: u64)
    ensures Below(SortOf(ys), x) == Below(ys, x)
  {
    if ys != [] {
      BelowSorted(ys[1..], x);
      BelowInsert(ys[0], SortOf(ys[1..]), x);
    }
  }

  lemma {:induction false} PairsInsert(v: u64, xs: seq<u64>, ys: seq<u64>)
    ensures Pairs(Insert(v, xs), ys) == Below(ys, v) + Pairs(xs, ys)
  {
    if xs != [] && v > xs[0] {
      PairsInsert(v, xs[1..], ys);
    }
  }

  /** The number of pairs does not depend on the order of either class. */
  lemma {:induction false} PairsSorted(xs: seq<u64>, ys: seq<u64>)
    ensures Pairs(SortOf(xs), SortOf(ys)) == Pairs(xs, ys)
  {
    if xs != [] {
      PairsSorted(xs[1..], ys);
      PairsInsert(xs[0], SortOf(xs[1..]), SortOf(ys));
      BelowSorted(ys, xs[0]);
    }
  }

  /** The counts are the sizes of sets of indices. */
  lemma {:induction false} BelowCounted(ys: seq<u64>, x: u64)
    ensures Below(ys, x) == |set j | 0 <= j < |ys| && ys[j] < x|
  {
    var js := set j | 0 <= j < |ys| && ys[j] < x;
    if ys == [] {
      assert js == {};
    } else {
      var n := |ys| - 1;
      BelowCounted(ys[..n], x);
      BelowConcat(ys[..n], [ys[n]], x);
      assert ys == ys[..n] + [ys[n]];
      var front := set j | 0 <= j < |ys[..n]| && ys[..n][j] < x;
      assert js == front + if ys[n] < x then {n} else {};
    }
  }

  lemma {:induction false} RowCounted(ys: seq<u64>, x: u64, i: int)
    ensures Below(ys, x) == |set j | 0 <= j < |ys| && ys[j] < x :: (i, j)|
  {
    var js := set j | 0 <= j < |ys| && ys[j] < x :: (i, j);
    if ys == [] {
      assert js == {};
    } else {
      var n := |ys| - 1;
      RowCounted(ys[..n], x, i);
      BelowConcat(ys[..n], [ys[n]], x);
      assert ys == ys[..n] + [ys[n]];
      var front := set j | 0 <= j < |ys[..n]| && ys[..n][j] < x :: (i, j);
      assert js == front + if ys[n] < x then {(i, n)} else {};
    }
  }

  lemma {:induction false} PairsCounted(xs: seq<u64>, ys: seq<u64>)
    ensures Pairs(xs, ys) == |set i, j | 0 <= i < |xs| && 0 <= j < |ys| && xs[i] > ys[j] :: (i, j)|
  {
    var all := set i, j | 0 <= i < |xs| && 0 <= j < |ys| && xs[i] > ys[j] :: (i, j);
    if xs == [] {
      assert all == {};
    } else {
      hide Pairs, Below;
      var n := |xs| - 1;
      var front := set i, j | 0 <= i < |xs[..n]| && 0 <= j < |ys| && xs[..n][i] > ys[j] :: (i, j);
      var row := set j | 0 <= j < |ys| && ys[j] < xs[n] :: (n, j);
      PairsCounted(xs[..n], ys);
      PairsConcat(xs[..n], [xs[n]], ys);
      PairsOne(xs[n], ys);
      RowCounted(ys, xs[n], n);
      assert xs == xs[..n] + [xs[n]];
      assert all == front + row;
      assert front !! row;
    }
  }

  /** Counting in the sorted tags counts the pairs of the original observations. */
  lemma SortedTagsCountPairs(s: seq<u64>, m: nat, aOffset: u64, bOffset: u64)
    requires m <= |s|
    ensures var t := SortOf(TagAll(s, m, aOffset, bOffset));
            Pairs(ClassOf(t, 0), ClassOf(t, 1)) == Pairs(Shift(s[..m], aOffset), Shift(s[m..], bOffset))
  {
    SortedClasses(s, m, aOffset, bOffset);
    PairsSorted(Shift(s[..m], aOffset), Shift(s[m..], bOffset));
  }

  /** The next tag is class A: it is above every B before it, since ties put A first. */
  lemma NextIsA(s: seq<u64>, i: nat)
    requires Sorted(s) && i < |s| && s[i] % 2 == 0
    ensures var (p, q) := (s[..i], s[..i + 1]);
            && ClassOf(q, 1) == ClassOf(p, 1)
            && Pairs(ClassOf(q, 0), ClassOf(q, 1)) == Pairs(ClassOf(p, 0), ClassOf(p, 1)) + |ClassOf(p, 1)|
  {
    hide ClassOf, Pairs;
    var p := s[..i];
    assert s[..i + 1] == p + [s[i]];
    ClassSnoc(p, s[i], 0);
    ClassSnoc(p, s[i], 1);
    forall k | 0 <= k < |ClassOf(p, 1)| ensures ClassOf(p, 1)[k] < s[i] / 2 {
      ClassMember(p, 1, ClassOf(p, 1)[k]);
    }
    AllBelow(ClassOf(p, 1), s[i] / 2);
    PairsConcat(ClassOf(p, 0), [s[i] / 2], ClassOf(p, 1));
    PairsOne(s[i] / 2, ClassOf(p, 1));
  }

  lemma PairsOne(x: u64, ys: seq<u64>)
    ensures Pairs([x], ys) == Below(ys, x)
  {
    assert [x][1..] == [];
  }

  /** The next tag is class B: no A before it is above it. */
  lemma NextIsB(s: seq<u64>, i: nat)
    requires Sorted(s) && i < |s| && s[i] % 2 == 1
    ensures var (p, q) := (s[..i], s[..i + 1]);
            && |ClassOf(q, 1)| == |ClassOf(p, 1)| + 1
            && Pairs(ClassOf(q, 0), ClassOf(q, 1)) == Pairs(ClassOf(p, 0), ClassOf(p, 1))
  {
    hide ClassOf, Pairs;
    var p := s[..i];
    assert s[..i + 1] == p + [s[i]];
    ClassSnoc(p, s[i], 0);
    ClassSnoc(p, s[i], 1);
    assert ClassOf(p, 0) + [] == ClassOf(p, 0);
    forall k | 0 <= k < |ClassOf(p, 0)| ensures ClassOf(p, 0)[k] <= s[i] / 2 {
      ClassMember(p, 0, ClassOf(p, 0)[k]);
    }
    PairsSkip(ClassOf(p, 0), ClassOf(p, 1), s[i] / 2);
  }

  /** A floating-point result, where rounding is not the point. */
  datatype Statistic = NotANumber | Value(value: real)

  method CountPairs(a: array<u64>) returns (acc: nat)
    requires Sorted(a[..])
    ensures acc == Pairs(ClassOf(a[..], 0), ClassOf(a[..], 1))
  {
    hide ClassOf, Pairs, Sorted;
    ghost var s := a[..];
    acc := 0;
    var bCount := 0;
    NoPairs();
    assert s[..0] == [];
    for i := 0 to a.Length
      invariant bCount == |ClassOf(s[..i], 1)|
      invariant acc == Pairs(ClassOf(s[..i], 0), ClassOf(s[..i], 1))
    {
      if a[i] % 2 == 0 {
        NextIsA(s, i);
        acc := acc + bCount;
      } else {
        NextIsB(s, i);
        bCount := bCount + 1;
      }
    }
    assert s[..a.Length] == s;
  }

  lemma NoPairs()
    ensures ClassOf([], 0) == [] && ClassOf([], 1) == [] && Pairs([], []) == 0
  {
  }

  method GtProb(a: array<u64>, m: nat, n: nat) returns (p: Statistic)
    requires a.Length == m + n && Sorted(a[..])
    ensures p == if m == 0 || n == 0 then NotANumber
                 else Value(Pairs(ClassOf(a[..], 0), ClassOf(a[..], 1)) as real / (m as real * n as real))
  {
    var acc := CountPairs(a);
    if m == 0 || n == 0 {
      return NotANumber;
    }
    return Value(acc as real / (1.0 * m as real * n as real));
  }

  // ---------------------------------------------------------------- order statistics

  lemma ClassPrefix(s: seq<u64>, i: nat, c: bit)
    requires i < |s| && s[i] % 2 == c
    ensures var k := |ClassOf(s[..i], c)|;
            k < |ClassOf(s, c)| && ClassOf(s, c)[k] == s[i] / 2
  {
    hide ClassOf;
    assert s == s[..i + 1] + s[i + 1..] && s[..i + 1] == s[..i] + [s[i]];
    ClassConcat(s[..i + 1], s[i + 1..], c);
    ClassSnoc(s[..i], s[i], c);
  }

  /** The largest rank, when the requested one is past the end. */
  function Clamp(rank: nat, size: nat): (r: nat)
    requires size > 0
    ensures r < size
  {
    if rank >= size then size - 1 else rank
  }

  /**
   * What the element of a given rank, counted from 0, is: at most that many elements are below it,
   * and more than that many are not above it; past the end it is the largest.
   */
  ghost predicate OrderStatistic(s: seq<u64>, rank: nat, x: u64) {
    && x in s
    && |set i | 0 <= i < |s| && s[i] < x| <= rank
    && if rank < |s| then |set i | 0 <= i < |s| && s[i] <= x| > rank
       else forall i :: 0 <= i < |s| ==> s[i] <= x
  }

  lemma AtMostCounted(s: seq<u64>, x: u64)
    requires x < W - 1
    ensures |set i | 0 <= i < |s| && s[i] <= x| == Below(s, x + 1)
  {
    BelowCounted(s, x + 1);
    assert (set i | 0 <= i < |s| && s[i] <= x) == set i | 0 <= i < |s| && s[i] < x + 1;
  }

  lemma {:induction false} NoneBelow(s: seq<u64>, x: u64)
    requires forall i :: 0 <= i < |s| ==> s[i] >= x
    ensures Below(s, x) == 0
  {
    if s != [] {
      NoneBelow(s[1..], x);
    }
  }

  lemma BelowAtMost(s: seq<u64>, x: u64)
    ensures Below(s, x) <= |s|
  {
  }

  /** In a sorted sequence, the element at the clamped index is the order statistic. */
  lemma ClampedRank(s: seq<u64>, rank: nat)
    requires Sorted(s) && s != [] && forall v :: v in s ==> v < W - 1
    ensures OrderStatistic(s, rank, s[Clamp(rank, |s|)])
  {
    hide Below;
    var k := Clamp(rank, |s|);
    var x := s[k];
    assert x in s;
    BelowCounted(s, x);
    AtMostCounted(s, x);
    assert s == s[..k] + s[k..] && s == s[..k + 1] + s[k + 1..];
    BelowConcat(s[..k], s[k..], x);
    BelowAtMost(s[..k], x);
    NoneBelow(s[k..], x);
    BelowConcat(s[..k + 1], s[k + 1..], x + 1);
    AllBelow(s[..k + 1], x + 1);
  }

  /** Order statistics do not depend on the order. */
  lemma StatisticUnsorted(s: seq<u64>, rank: nat, x: u64)
    requires x < W - 1 && OrderStatistic(SortOf(s), rank, x)
    ensures OrderStatistic(s, rank, x)
  {
    hide SortOf, Below;
    var t := SortOf(s);
    SortKeepsAll(s);
    SortLength(s);
    assert x in multiset(t);
    BelowCounted(s, x);
    BelowCounted(t, x);
    AtMostCounted(s, x);
    AtMostCounted(t, x);
    BelowSorted(s, x);
    BelowSorted(s, x + 1);
    forall i | 0 <= i < |s| && rank >= |s| ensures s[i] <= x {
      assert s[i] in multiset(t);
      assert s[i] in t;
    }
  }

  /** The counter of a class after `seen` of its elements: it wraps once its rank has passed. */
  predicate Counting(countDown: u64, rank: nat, seen: nat) {
    countDown == if seen <= rank then rank - seen else W + rank - seen
  }

  /** What a class has been through: its counter, and its value once its rank has passed. */
  predicate Selecting(all: seq<u64>, rank: nat, seen: nat, countDown: u64, value: u64) {
    && seen <= |all| && rank < |all| < W
    && Counting(countDown, rank, seen)
    && (seen > rank ==> value == all[rank])
  }

  lemma SelectNext(all: seq<u64>, rank: nat, seen: nat, countDown: u64, value: u64)
    requires Selecting(all, rank, seen, countDown, value) && seen < |all|
    ensures countDown == 0 <==> seen == rank
    ensures Selecting(all, rank, seen + 1, Minus(countDown, 1), if countDown == 0 then all[seen] else value)
  {
    if countDown == 0 {
      DivModUnique(-1, W - 1, W);
    } else {
      DivModUnique(0, countDown - 1, W);
    }
  }

  /** The counter and the value of class `c` after `i` tags. */
  predicate SelectingAt(s: seq<u64>, i: nat, c: bit, rank: nat, countDown: u64, value: u64) {
    i <= |s| && Selecting(ClassOf(s, c), rank, |ClassOf(s[..i], c)|, countDown, value)
  }

  /** Whether the rank of class `c` has passed after `i` tags: 1 if so. */
  function Passed(s: seq<u64>, i: nat, c: bit, rank: nat): nat
    requires i <= |s|
  {
    if |ClassOf(s[..i], c)| > rank then 1 else 0
  }

  lemma SelectStart(s: seq<u64>, c: bit, rank: nat)
    requires rank < |ClassOf(s, c)| < W
    ensures SelectingAt(s, 0, c, rank, rank, 0) && Passed(s, 0, c, rank) == 0
  {
  }

  /** The next tag moves its own class only. */
  lemma SelectStep(s: seq<u64>, i: nat, c: bit, rank: nat, countDown: u64, value: u64)
    requires i < |s| && SelectingAt(s, i, c, rank, countDown, value)
    ensures if s[i] % 2 == c
            then && SelectingAt(s, i + 1, c, rank, Minus(countDown, 1),
                                if countDown == 0 then s[i] / 2 else value)
                 && Passed(s, i + 1, c, rank) == Passed(s, i, c, rank) + if countDown == 0 then 1 else 0
            else && SelectingAt(s, i + 1, c, rank, countDown, value)
                 && Passed(s, i + 1, c, rank) == Passed(s, i, c, rank)
  {
    hide ClassOf, Minus, Selecting;
    assert s[..i + 1] == s[..i] + [s[i]];
    ClassSnoc(s[..i], s[i], c);
    if s[i] % 2 == c {
      ClassPrefix(s, i, c);
      SelectNext(ClassOf(s, c), rank, |ClassOf(s[..i], c)|, countDown, value);
      SelectingBounds(ClassOf(s, c), rank, |ClassOf(s[..i], c)|, countDown, value);
    } else {
      assert ClassOf(s[..i], c) + [] == ClassOf(s[..i], c);
    }
  }

  lemma SelectingBounds(all: seq<u64>, rank: nat, seen: nat, countDown: u64, value: u64)
    requires Selecting(all, rank, seen, countDown, value)
    ensures rank < |all| && (seen > rank ==> value == all[rank])
  {
  }

  lemma SelectEnd(s: seq<u64>, i: nat, c: bit, rank: nat, countDown: u64, value: u64)
    requires SelectingAt(s, i, c, rank, countDown, value)
    ensures Passed(s, i, c, rank) <= 1
    ensures Passed(s, i, c, rank) == 1 || i == |s| ==>
              rank < |ClassOf(s, c)| && value == ClassOf(s, c)[rank] && Passed(s, i, c, rank) == 1
  {
    hide ClassOf;
    assert s[..|s|] == s;
  }

  method SelectRanks(a: array<u64>, ranks: seq<u64>) returns (values: array<u64>)
    requires a.Length < W && |ranks| == 2
    requires forall c: bit :: ranks[c] < |ClassOf(a[..], c)|
    ensures fresh(values) && values.Length == 2
    ensures forall c: bit :: values[c] == ClassOf(a[..], c)[ranks[c]]
  {
    hide ClassOf, Minus, SelectingAt, Passed;
    ghost var s := a[..];
    values := new u64[2](_ => 0);
    var countDown := new u64[2](i requires 0 <= i < 2 => ranks[i]);
    var written := 0;
    SelectStart(s, 0, ranks[0]);
    SelectStart(s, 1, ranks[1]);
    for i := 0 to a.Length
      invariant SelectingAt(s, i, 0, ranks[0], countDown[0], values[0])
      invariant SelectingAt(s, i, 1, ranks[1], countDown[1], values[1])
      invariant written == Passed(s, i, 0, ranks[0]) + Passed(s, i, 1, ranks[1]) < 2
    {
      var c, value := a[i] % 2, a[i] / 2;
      SelectStep(s, i, 0, ranks[0], countDown[0], values[0]);
      SelectStep(s, i, 1, ranks[1], countDown[1], values[1]);
      var hit := countDown[c] == 0;
      countDown[c] := Minus(countDown[c], 1);
      if hit {
        values[c] := value;
        written := written + 1;
      }
      SelectEnd(s, i + 1, 0, ranks[0], countDown[0], values[0]);
      SelectEnd(s, i + 1, 1, ranks[1], countDown[1], values[1]);
      if hit && written == 2 {
        return;
      }
    }
    SelectEnd(s, a.Length, 0, ranks[0], countDown[0], values[0]);
    SelectEnd(s, a.Length, 1, ranks[1], countDown[1], values[1]);
    assert false;
  }

  lemma ClassStatistic(s: seq<u64>, c: bit, rank: nat)
    requires Sorted(s) && ClassOf(s, c) != []
    ensures OrderStatistic(ClassOf(s, c), rank, ClassOf(s, c)[Clamp(rank, |ClassOf(s, c)|)])
  {
    hide ClassOf, OrderStatistic;
    ClassSorted(s, c);
    forall v | v in ClassOf(s, c) ensures v < W - 1 {
      ClassMember(s, c, v);
    }
    ClampedRank(ClassOf(s, c), rank);
  }

  /** The difference of the two classes' elements of the requested ranks. */
  method QuantileDiff(a: array<u64>, m: nat, n: nat, rankA: nat, rankB: nat) returns (d: Statistic)
    requires a.Length == m + n < W && m == |ClassOf(a[..], 0)| && n == |ClassOf(a[..], 1)|
    ensures d == if m == 0 || n == 0 then Value(0.0)
                 else var x, y := ClassOf(a[..], 0)[Clamp(rankA, m)], ClassOf(a[..], 1)[Clamp(rankB, n)];
                      Value(x as real - y as real)
    ensures m > 0 && n > 0 && Sorted(a[..]) ==>
              exists x: u64, y: u64 ::
                && OrderStatistic(ClassOf(a[..], 0), rankA, x) && OrderStatistic(ClassOf(a[..], 1), rankB, y)
                && d == Value(x as real - y as real)
  {
    if m == 0 || n == 0 {
      return Value(0.0);
    }
    hide ClassOf, OrderStatistic, Sorted;
    if Sorted(a[..]) {
      ClassStatistic(a[..], 0, rankA);
      ClassStatistic(a[..], 1, rankB);
    }
    var values := SelectRanks(a, [Clamp(rankA, m), Clamp(rankB, n)]);
    if values[0] < values[1] {
      return Value(-1.0 * (values[1] - values[0]) as real);
    }
    return Value((values[0] - values[1]) as real);
  }

  /** The sorted tags of any observations hold both classes in full, as the one-pass statistics
      require. */
  lemma SortedTagsKeepClasses(s: seq<u64>, m: nat, aOffset: u64, bOffset: u64)
    requires m <= |s|
    ensures var t := SortOf(TagAll(s, m, aOffset, bOffset));
            |ClassOf(t, 0)| == m && |ClassOf(t, 1)| == |s| - m
  {
    SortedClasses(s, m, aOffset, bOffset);
    SortLength(Shift(s[..m], aOffset));
    SortLength(Shift(s[m..], bOffset));
  }

  // ---------------------------------------------------------------- truncated means

  /** The elements of ranks `start` to `stop`, among those seen. */
  function Trim(s: seq<u64>, start: nat, stop: nat): seq<u64>
    requires start <= stop
  {
    if |s| <= start then [] else s[start..if |s| < stop then |s| else stop]
  }

  lemma TrimSnoc(s: seq<u64>, v: u64, start: nat, stop: nat)
    requires start <= stop
    ensures Trim(s + [v], start, stop) == Trim(s, start, stop) + if start <= |s| < stop then [v] else []
  {
  }

  lemma SumSnoc(s: seq<u64>, v: u64)
    ensures Sum(s + [v]) == Sum(s) + v
  {
    assert (s + [v])[..|s|] == s;
  }

  method SumTrimmed(a: array<u64>, starts: seq<nat>, stops: seq<nat>) returns (sum: array<int>)
    requires |starts| == |stops| == 2 && starts[0] <= stops[0] && starts[1] <= stops[1]
    ensures fresh(sum) && sum.Length == 2
    ensures sum[0] == Sum(Trim(ClassOf(a[..], 0), starts[0], stops[0]))
    ensures sum[1] == Sum(Trim(ClassOf(a[..], 1), starts[1], stops[1]))
  {
    hide ClassOf, Trim, Sum;
    ghost var s := a[..];
    sum := new int[2](_ => 0);
    var seen := new nat[2](_ => 0);
    NoPairs();
    TrimNone(starts[0], stops[0]);
    TrimNone(starts[1], stops[1]);
    assert s[..0] == [] && s[..a.Length] == s;
    for i := 0 to a.Length
      invariant seen[0] == |ClassOf(s[..i], 0)| && sum[0] == Sum(Trim(ClassOf(s[..i], 0), starts[0], stops[0]))
      invariant seen[1] == |ClassOf(s[..i], 1)| && sum[1] == Sum(Trim(ClassOf(s[..i], 1), starts[1], stops[1]))
    {
      var c := a[i] % 2;
      var index := seen[c];
      assert s[..i + 1] == s[..i] + [s[i]];
      SumNext(s[..i], s[i], 0, starts[0], stops[0]);
      SumNext(s[..i], s[i], 1, starts[1], stops[1]);
      seen[c] := seen[c] + 1;
      if index < starts[c] || index >= stops[c] {
        continue;
      }
      sum[c] := sum[c] + a[i] / 2;
    }
  }

  lemma TrimNone(start: nat, stop: nat)
    requires start <= stop
    ensures Sum(Trim([], start, stop)) == 0
  {
  }

  lemma SumNext(s: seq<u64>, v: u64, c: bit, start: nat, stop: nat)
    requires start <= stop
    ensures var k := |ClassOf(s, c)|;
            && |ClassOf(s + [v], c)| == k + (if v % 2 == c then 1 else 0)
            && Sum(Trim(ClassOf(s + [v], c), start, stop))
               == Sum(Trim(ClassOf(s, c), start, stop)) + if v % 2 == c && start <= k < stop then v / 2 else 0
  {
    hide ClassOf, Trim, Sum;
    ClassSnoc(s, v, c);
    if v % 2 == c {
      TrimSnoc(ClassOf(s, c), v / 2, start, stop);
      SumSnoc(Trim(ClassOf(s, c), start, stop), v / 2);
      assert Trim(ClassOf(s, c), start, stop) + [] == Trim(ClassOf(s, c), start, stop);
    } else {
      assert ClassOf(s, c) + [] == ClassOf(s, c);
    }
  }

  /** Sums are fixed by one element and by concatenation. */
  lemma {:induction false} SumIsAdditive(s: seq<u64>, t: seq<u64>, v: u64)
    ensures Sum([]) == 0 && Sum([v]) == v && Sum(s + t) == Sum(s) + Sum(t)
  {
    assert [] + [v] == [v];
    SumSnoc([], v);
    if t == [] {
      assert s + t == s;
    } else {
      var n := |t| - 1;
      SumIsAdditive(s, t[..n], v);
      assert s + t == (s + t[..n]) + [t[n]] && t == t[..n] + [t[n]];
      SumSnoc(s + t[..n], t[n]);
      SumSnoc(t[..n], t[n]);
    }
  }

  lemma MeanTimesCount(s: seq<u64>)
    requires s != []
    ensures Mean(s) * |s| as real == Sum(s) as real
  {
  }

  function Mean(s: seq<u64>): real
    requires s != []
  {
    Sum(s) as real / |s| as real
  }

  lemma MeanOfTrim(s: seq<u64>, start: nat, stop: nat)
    requires start < stop <= |s|
    ensures Mean(s[start..stop]) == Sum(Trim(s, start, stop)) as real / (stop - start) as real
  {
  }

  lemma MeanDifference(x: int, y: int, k: nat)
    requires k > 0
    ensures (x - y) as real / k as real == x as real / k as real - y as real / k as real
  {
  }

  /** The difference of the means left when `startA` and `startB` elements are dropped at each end
      of the two classes. */
  method TruncatedMeanDiff(a: array<u64>, m: nat, n: nat, startA: nat, startB: nat) returns (d: Statistic)
    requires a.Length == m + n && m == |ClassOf(a[..], 0)| && n == |ClassOf(a[..], 1)|
    requires startA <= m && startB <= n
    ensures d == if startA >= m - startA || startB >= n - startB then NotANumber
                 else Value(Mean(ClassOf(a[..], 0)[startA..m - startA]) - Mean(ClassOf(a[..], 1)[startB..n - startB]))
  {
    hide ClassOf, Sum, Mean, Trim;
    var stopA, stopB := m - startA, n - startB;
    if startA >= stopA || startB >= stopB {
      return NotANumber;
    }
    var sum := SumTrimmed(a, [startA, startB], [stopA, stopB]);
    var countA, countB := stopA - startA, stopB - startB;
    MeanOfTrim(ClassOf(a[..], 0), startA, stopA);
    MeanOfTrim(ClassOf(a[..], 1), startB, stopB);
    var meanA, meanB := sum[0] as real / countA as real, sum[1] as real / countB as real;
    if countA == countB {
      MeanDifference(sum[0], sum[1], countA);
      return Value((sum[0] - sum[1]) as real / countA as real);
    }
    return Value(meanA - meanB);
  }

  // ---------------------------------------------------------------- sort, then statistic

  /** Class A's observations before sorting, moved by their offset; then class B's. */
  function ShiftedA(s: seq<u64>, m: nat, aOffset: u64): (r: seq<u64>)
    requires m <= |s|
    ensures |r| == m && forall i :: 0 <= i < m ==> r[i] == (s[i] + aOffset) % 0x8000_0000_0000_0000
  {
    Shift(s[..m], aOffset)
  }

  function ShiftedB(s: seq<u64>, m: nat, bOffset: u64): (r: seq<u64>)
    requires m <= |s|
    ensures |r| == |s| - m
    ensures forall j :: 0 <= j < |s| - m ==> r[j] == (s[m + j] + bOffset) % 0x8000_0000_0000_0000
  {
    Shift(s[m..], bOffset)
  }

  /** The pairs, on the observations as they are before tagging. */
  lemma ShiftedPairsCounted(s: seq<u64>, m: nat, n: nat, aOffset: u64, bOffset: u64)
    requires |s| == m + n
    ensures Pairs(ShiftedA(s, m, aOffset), ShiftedB(s, m, bOffset))
         == |set i, j | 0 <= i < m && 0 <= j < n
                        && (s[i] + aOffset) % 0x8000_0000_0000_0000 > (s[m + j] + bOffset) % 0x8000_0000_0000_0000
                        :: (i, j)|
  {
    hide ShiftedA, ShiftedB, Pairs;
    var xs, ys := ShiftedA(s, m, aOffset), ShiftedB(s, m, bOffset);
    PairsCounted(xs, ys);
    var counted := set i, j | 0 <= i < |xs| && 0 <= j < |ys| && xs[i] > ys[j] :: (i, j);
    assert counted
        == set i, j | 0 <= i < m && 0 <= j < n
                      && (s[i] + aOffset) % 0x8000_0000_0000_0000 > (s[m + j] + bOffset) % 0x8000_0000_0000_0000
                      :: (i, j);
  }

  /** The fraction of pairs of observations with the shifted one of class A above that of class B. */
  method SortThenGtProb(draws: seq<u64>, a: array<u64>, m: nat, n: nat, aOffset: u64, bOffset: u64)
    returns (p: Statistic)
    requires a.Length == m + n
    modifies a
    ensures p == if m == 0 || n == 0 then NotANumber
                 else Value(Pairs(ShiftedA(old(a[..]), m, aOffset), ShiftedB(old(a[..]), m, bOffset)) as real
                            / (m as real * n as real))
    ensures m > 0 && n > 0 ==>
              var s := old(a[..]);
              var above := set i, j | 0 <= i < m && 0 <= j < n
                                      && (s[i] + aOffset) % 0x8000_0000_0000_0000
                                         > (s[m + j] + bOffset) % 0x8000_0000_0000_0000 :: (i, j);
              p == Value(|above| as real / (m as real * n as real))
  {
    hide SortOf, TagAll, ClassOf, Pairs, Sorted;
    SortedTagsCountPairs(a[..], m, aOffset, bOffset);
    ShiftedPairsCounted(a[..], m, n, aOffset, bOffset);
    OffsetSort(draws, a, m, n, aOffset, bOffset);
    p := GtProb(a, m, n);
  }

  lemma ShiftedStatistic(s: seq<u64>, m: nat, aOffset: u64, bOffset: u64, rankA: nat, rankB: nat)
    requires 0 < m < |s|
    ensures var xs, ys := ShiftedA(s, m, aOffset), ShiftedB(s, m, bOffset);
            && |SortOf(xs)| == m && |SortOf(ys)| == |s| - m
            && OrderStatistic(xs, rankA, SortOf(xs)[Clamp(rankA, m)])
            && OrderStatistic(ys, rankB, SortOf(ys)[Clamp(rankB, |s| - m)])
  {
    hide SortOf, ShiftedA, ShiftedB, OrderStatistic, Clamp;
    UnsortedRank(ShiftedA(s, m, aOffset), rankA);
    UnsortedRank(ShiftedB(s, m, bOffset), rankB);
  }

  lemma UnsortedRank(s: seq<u64>, rank: nat)
    requires s != [] && forall i :: 0 <= i < |s| ==> s[i] < W - 1
    ensures |SortOf(s)| == |s| && OrderStatistic(s, rank, SortOf(s)[Clamp(rank, |s|)])
  {
    hide SortOf, OrderStatistic, Clamp;
    SortLength(s);
    SortKeepsAll(s);
    forall v | v in SortOf(s) ensures v < W - 1 {
      assert v in multiset(SortOf(s));
    }
    ClampedRank(SortOf(s), rank);
    assert SortOf(s)[Clamp(rank, |s|)] in SortOf(s);
    StatisticUnsorted(s, rank, SortOf(s)[Clamp(rank, |s|)]);
  }

  /** The difference of an order statistic of each class's shifted observations. */
  method SortThenQuantileDiff(draws: seq<u64>, a: array<u64>, m: nat, n: nat, aOffset: u64, bOffset: u64,
                              rankA: nat, rankB: nat)
    returns (d: Statistic)
    requires a.Length == m + n < W
    modifies a
    ensures |SortOf(ShiftedA(old(a[..]), m, aOffset))| == m && |SortOf(ShiftedB(old(a[..]), m, bOffset))| == n
    ensures d == if m == 0 || n == 0 then Value(0.0)
                 else var x := SortOf(ShiftedA(old(a[..]), m, aOffset))[Clamp(rankA, m)];
                      var y := SortOf(ShiftedB(old(a[..]), m, bOffset))[Clamp(rankB, n)];
                      Value(x as real - y as real)
    ensures m > 0 && n > 0 ==>
              exists x: u64, y: u64 ::
                && OrderStatistic(ShiftedA(old(a[..]), m, aOffset), rankA, x)
                && OrderStatistic(ShiftedB(old(a[..]), m, bOffset), rankB, y)
                && d == Value(x as real - y as real)
  {
    hide SortOf, TagAll, ClassOf, OrderStatistic, Sorted, Clamp;
    SortedClasses(a[..], m, aOffset, bOffset);
    SortedTagsKeepClasses(a[..], m, aOffset, bOffset);
    if 0 < m < a.Length {
      ShiftedStatistic(a[..], m, aOffset, bOffset, rankA, rankB);
    }
    OffsetSort(draws, a, m, n, aOffset, bOffset);
    d := QuantileDiff(a, m, n, rankA, rankB);
  }

  /** The difference of the truncated means of the two classes' shifted observations. */
  method SortThenTruncatedMeanDiff(draws: seq<u64>, a: array<u64>, m: nat, n: nat, aOffset: u64, bOffset: u64,
                                   startA: nat, startB: nat)
    returns (d: Statistic)
    requires a.Length == m + n && startA <= m && startB <= n
    modifies a
    ensures |SortOf(ShiftedA(old(a[..]), m, aOffset))| == m && |SortOf(ShiftedB(old(a[..]), m, bOffset))| == n
    ensures d == if startA >= m - startA || startB >= n - startB then NotANumber
                 else Value(Mean(SortOf(ShiftedA(old(a[..]), m, aOffset))[startA..m - startA])
                            - Mean(SortOf(ShiftedB(old(a[..]), m, bOffset))[startB..n - startB]))
  {
    hide SortOf, TagAll, ClassOf, Mean;
    SortedClasses(a[..], m, aOffset, bOffset);
    SortedTagsKeepClasses(a[..], m, aOffset, bOffset);
    OffsetSort(draws, a, m, n, aOffset, bOffset);
    d := TruncatedMeanDiff(a, m, n, startA, startB);
  }
}
