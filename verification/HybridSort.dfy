/** The hybrid counting / comparison sort behind the exact permutation test. */
module HybridSort {
  import opened Words

  // ---------------------------------------------------------------- sorted sequences

  predicate Sorted(s: seq<u64>) {
    forall i, j :: 0 <= i < j < |s| ==> s[i] <= s[j]
  }

  function Insert(x: u64, s: seq<u64>): seq<u64> {
    if s == [] || x <= s[0] then [x] + s else [s[0]] + Insert(x, s[1..])
  }

  lemma {:induction false} InsertKeepsAll(x: u64, s: seq<u64>)
    ensures multiset(Insert(x, s)) == multiset(s) + multiset{x}
  {
    if s != [] && x > s[0] {
      assert s == [s[0]] + s[1..];
      InsertKeepsAll(x, s[1..]);
    }
  }

  lemma {:induction false} InsertSorted(x: u64, s: seq<u64>)
    requires Sorted(s)
    ensures Sorted(Insert(x, s))
  {
    if s != [] && x > s[0] {
      InsertSorted(x, s[1..]);
      InsertKeepsAll(x, s[1..]);
      var r := Insert(x, s[1..]);
      forall i | 0 <= i < |r| ensures s[0] <= r[i] {
        assert r[i] in multiset(r);
        assert r[i] in s[1..] || r[i] == x;
      }
    }
  }

  /** The sorted permutation of `s`. */
  function SortOf(s: seq<u64>): (r: seq<u64>)
    ensures Sorted(r)
  {
    if s == [] then
      []
    else
      InsertSorted(s[0], SortOf(s[1..]));
      Insert(s[0], SortOf(s[1..]))
  }

  lemma {:induction false} SortKeepsAll(s: seq<u64>)
    ensures multiset(SortOf(s)) == multiset(s)
  {
    if s != [] {
      SortKeepsAll(s[1..]);
      InsertKeepsAll(s[0], SortOf(s[1..]));
      assert s == [s[0]] + s[1..];
    }
  }

  lemma SortLength(s: seq<u64>)
    ensures |SortOf(s)| == |s|
  {
    SortKeepsAll(s);
    assert |multiset(SortOf(s))| == |multiset(s)|;
  }

  lemma InOrder(s: seq<u64>, i: nat, j: nat)
    requires Sorted(s) && i <= j < |s|
    ensures s[i] <= s[j]
  {
  }

  lemma SortedPart(s: seq<u64>, i: nat, j: nat)
    requires Sorted(s) && i <= j <= |s|
    ensures Sorted(s[i..j])
  {
  }

  lemma HeadIsLeast(s: seq<u64>, v: u64)
    requires Sorted(s) && v in multiset(s)
    ensures s != [] && s[0] <= v
  {
    assert v in s;
  }

  lemma HeadsAgree(s: seq<u64>, t: seq<u64>)
    requires s != [] && Sorted(s) && Sorted(t) && multiset(s) == multiset(t)
    ensures t != [] && s[0] == t[0]
  {
    hide Sorted;
    assert s[0] in multiset(s);
    HeadIsLeast(t, s[0]);
    assert t[0] in multiset(t);
    HeadIsLeast(s, t[0]);
  }

  lemma TailsAgree(s: seq<u64>, t: seq<u64>)
    requires s != [] && t != [] && s[0] == t[0] && multiset(s) == multiset(t)
    ensures multiset(s[1..]) == multiset(t[1..])
  {
    assert s == [s[0]] + s[1..] && t == [t[0]] + t[1..];
    assert multiset(s[1..]) == multiset(s) - multiset{s[0]};
    assert multiset(t[1..]) == multiset(t) - multiset{t[0]};
  }

  /** There is one sorted permutation only. */
  lemma {:induction false} SortedUnique(s: seq<u64>, t: seq<u64>)
    requires Sorted(s) && Sorted(t) && multiset(s) == multiset(t)
    ensures s == t
  {
    if s == [] {
      assert |multiset(t)| == 0;
    } else {
      HeadsAgree(s, t);
      TailsAgree(s, t);
      SortedUnique(s[1..], t[1..]);
      assert s == [s[0]] + s[1..] && t == [t[0]] + t[1..];
    }
  }

  lemma SortedConcat(s: seq<u64>, t: seq<u64>, m: u64)
    requires Sorted(s) && Sorted(t)
    requires (forall v :: v in s ==> v <= m) && (forall v :: v in t ==> m <= v)
    ensures Sorted(s + t)
  {
    forall i, j | 0 <= i < j < |s + t| ensures (s + t)[i] <= (s + t)[j] {
      if i < |s| <= j {
        assert s[i] in s && t[j - |s|] in t;
      }
    }
  }

  lemma SortOfSorted(s: seq<u64>, t: seq<u64>)
    requires Sorted(t) && multiset(s) == multiset(t)
    ensures t == SortOf(s)
  {
    hide SortOf;
    SortKeepsAll(s);
    SortedUnique(t, SortOf(s));
  }

  /** The C library's qsort on the first `n` elements; only its result is modelled. */
  method Qsort(a: array<u64>, n: nat)
    requires n <= a.Length
    modifies a
    ensures a[..n] == SortOf(old(a[..n]))
    ensures a[n..] == old(a[n..])
  {
    var sorted := SortOf(a[..n]);
    SortLength(a[..n]);
    forall i | 0 <= i < n {
      a[i] := sorted[i];
    }
  }

  // ---------------------------------------------------------------- dense range

  /** An inclusive range, empty when `lo > hi`. */
  datatype Range = Range(lo: u64, hi: u64)

  const EMPTY := Range(W - 1, 0)

  predicate Dense(v: u64, r: Range) {
    r.lo <= v <= r.hi
  }

  /** A 64.64 fixed point product: a uniform draw scaled to an index below `limit`. */
  function IndexBelow(draw: u64, limit: nat): (k: nat)
    requires limit > 0
    ensures k < limit
  {
    IndexBelowBound(draw, limit);
    draw * limit / W
  }

  lemma IndexBelowBound(draw: u64, limit: nat)
    requires limit > 0
    ensures 0 <= draw * limit / W < limit
  {
    MulLe(draw, W - 1, limit);
    assert 0 <= draw * limit <= (W - 1) * limit;
  }

  /** The observations picked by the draws, after the minimum taken twice. */
  function Sample(obs: seq<u64>, draws: seq<u64>, min: u64): (r: seq<u64>)
    requires |obs| > 0
    ensures |r| == |draws| + 2
  {
    [min, min] + seq(|draws|, i requires 0 <= i < |draws| => obs[IndexBelow(draws[i], |obs|)])
  }

  /** Drops the end with the widest gap to its neighbour until the window spans at most `num`. */
  function Shrink(s: seq<u64>, lo: nat, hi: nat, num: nat): (w: (nat, nat))
    requires lo <= hi < |s| && Sorted(s)
    decreases hi - lo
  {
    if lo == hi || s[hi] - s[lo] <= num then (lo, hi)
    else if s[lo + 1] - s[lo] > s[hi] - s[hi - 1] then Shrink(s, lo + 1, hi, num)
    else Shrink(s, lo, hi - 1, num)
  }

  /** The window is narrow enough, and one step larger it was not. */
  lemma {:induction false} ShrinkStops(s: seq<u64>, lo: nat, hi: nat, num: nat)
    requires lo <= hi < |s| && Sorted(s)
    ensures var (l, h) := Shrink(s, lo, hi, num);
            && lo <= l <= h <= hi && s[h] - s[l] <= num
            && ((l, h) == (lo, hi)
                || (lo < l && s[h] - s[l - 1] > num) || (h < hi && s[h + 1] - s[l] > num))
    decreases hi - lo
  {
    hide Sorted;
    InOrder(s, lo, hi);
    if lo < hi && s[hi] - s[lo] > num {
      InOrder(s, lo, lo + 1);
      InOrder(s, hi - 1, hi);
      if s[lo + 1] - s[lo] > s[hi] - s[hi - 1] {
        ShrinkStops(s, lo + 1, hi, num);
      } else {
        ShrinkStops(s, lo, hi - 1, num);
      }
    }
  }

  /** The range of the window, kept only if a tenth of the sample is in it. */
  function WindowRange(s: seq<u64>, num: nat): Range
    requires s != [] && Sorted(s)
  {
    var (l, h) := Shrink(s, 0, |s| - 1, num);
    ShrinkStops(s, 0, |s| - 1, num);
    if h - l >= |s| / 10 then Range(s[l], s[h]) else EMPTY
  }

  /** The range chosen for the counting pass. */
  function DenseRange(obs: seq<u64>, draws: seq<u64>, min: u64, max: u64): Range
    requires min <= max && (|obs| > 0 || min == max)
  {
    if max - min <= |obs| then
      Range(min, max)
    else
      SortLength(Sample(obs, draws, min));
      WindowRange(SortOf(Sample(obs, draws, min)), |obs|)
  }

  /** What is sampled: the minimum twice, then the observation at each scaled draw. */
  lemma SampleValues(obs: seq<u64>, draws: seq<u64>, min: u64, i: nat)
    requires |obs| > 0 && i < |draws|
    ensures Sample(obs, draws, min)[0] == min && Sample(obs, draws, min)[1] == min
    ensures 0 <= draws[i] * |obs| / 0x1_0000_0000_0000_0000 < |obs|
    ensures Sample(obs, draws, min)[i + 2] == obs[draws[i] * |obs| / 0x1_0000_0000_0000_0000]
  {
    IndexBelowBound(draws[i], |obs|);
  }

  function Gap(s: seq<u64>, i: nat, j: nat): int
    requires i < |s| && j < |s|
  {
    s[j] as int - s[i] as int
  }

  /** Too wide a window loses its low end if that has the wider gap, and its high end otherwise. */
  predicate GreedyStep(s: seq<u64>, num: nat, w: (nat, nat), v: (nat, nat)) {
    && w.0 < w.1 < |s| && Gap(s, w.0, w.1) > num
    && v == if Gap(s, w.0, w.0 + 1) > Gap(s, w.1 - 1, w.1) then (w.0 + 1, w.1) else (w.0, w.1 - 1)
  }

  /** A greedy search, window by window, from `w` to the first one that is narrow enough. */
  predicate GreedyPath(s: seq<u64>, num: nat, w: (nat, nat), ws: seq<(nat, nat)>) {
    && ws != [] && ws[0] == w
    && (forall k :: 0 <= k < |ws| - 1 ==> GreedyStep(s, num, ws[k], ws[k + 1]))
    && var v := ws[|ws| - 1];
       v.0 <= v.1 < |s| && Gap(s, v.0, v.1) <= num
  }

  lemma {:induction false} ShrinkIsGreedy(s: seq<u64>, lo: nat, hi: nat, num: nat) returns (ws: seq<(nat, nat)>)
    requires lo <= hi < |s| && Sorted(s)
    ensures GreedyPath(s, num, (lo, hi), ws) && ws[|ws| - 1] == Shrink(s, lo, hi, num)
    decreases hi - lo
  {
    hide Sorted;
    InOrder(s, lo, hi);
    if lo == hi || s[hi] - s[lo] <= num {
      ws := [(lo, hi)];
    } else {
      InOrder(s, lo, lo + 1);
      InOrder(s, hi - 1, hi);
      var next := if s[lo + 1] - s[lo] > s[hi] - s[hi - 1] then (lo + 1, hi) else (lo, hi - 1);
      var rest := ShrinkIsGreedy(s, next.0, next.1, num);
      PathCons(s, num, (lo, hi), rest);
      ws := [(lo, hi)] + rest;
    }
  }

  lemma PathCons(s: seq<u64>, num: nat, w: (nat, nat), ws: seq<(nat, nat)>)
    requires ws != [] && GreedyPath(s, num, ws[0], ws) && GreedyStep(s, num, w, ws[0])
    ensures GreedyPath(s, num, w, [w] + ws)
  {
    hide GreedyStep, Gap;
    forall k | 0 <= k < |ws| ensures GreedyStep(s, num, ([w] + ws)[k], ([w] + ws)[k + 1]) {
      if k > 0 {
        assert GreedyStep(s, num, ws[k - 1], ws[k]);
      }
    }
  }

  /** The window of the sorted sample that a search ends in, if a tenth of the sample is in it. */
  predicate KeptWindow(s: seq<u64>, w: (nat, nat), r: Range) {
    w.0 <= w.1 < |s| && r == if w.1 - w.0 >= |s| / 10 then Range(s[w.0], s[w.1]) else Range(0xFFFF_FFFF_FFFF_FFFF, 0)
  }

  /**
   * The whole choice: a range that is narrow enough is taken as it is; otherwise the sorted sample
   * is searched greedily from its ends, and the last window is kept if it holds enough of it.
   */
  lemma DenseRangeIsGreedy(obs: seq<u64>, draws: seq<u64>, min: u64, max: u64)
    requires min <= max && (|obs| > 0 || min == max)
    ensures max - min <= |obs| ==> DenseRange(obs, draws, min, max) == Range(min, max)
    ensures max - min > |obs| ==>
              var s := SortOf(Sample(obs, draws, min));
              exists ws :: && GreedyPath(s, |obs|, (0, |draws| + 1), ws)
                           && KeptWindow(s, ws[|ws| - 1], DenseRange(obs, draws, min, max))
  {
    if max - min > |obs| {
      hide SortOf, Sample, Sorted, GreedyPath;
      var s := SortOf(Sample(obs, draws, min));
      SortLength(Sample(obs, draws, min));
      var ws := ShrinkIsGreedy(s, 0, |s| - 1, |obs|);
      ShrinkStops(s, 0, |s| - 1, |obs|);
      PathNonempty(s, |obs|, (0, |s| - 1), ws);
      assert KeptWindow(s, ws[|ws| - 1], DenseRange(obs, draws, min, max));
    }
  }

  lemma PathNonempty(s: seq<u64>, num: nat, w: (nat, nat), ws: seq<(nat, nat)>)
    requires GreedyPath(s, num, w, ws)
    ensures ws != []
  {
  }

  lemma SampleObserved(obs: seq<u64>, draws: seq<u64>, min: u64, v: u64)
    requires |obs| > 0 && v in SortOf(Sample(obs, draws, min))
    ensures v == min || v in obs
  {
    hide SortOf;
    var s := Sample(obs, draws, min);
    SortKeepsAll(s);
    assert v in multiset(SortOf(s));
    assert v in s;
  }

  /** Whatever the draws, the range is empty or lies between observed values, as wide as the input
      is long at most. */
  lemma DenseRangeIsDense(obs: seq<u64>, draws: seq<u64>, min: u64, max: u64)
    requires min < max && min in obs && max in obs
    requires forall v :: v in obs ==> min <= v <= max
    ensures var r := DenseRange(obs, draws, min, max);
            || r == EMPTY
            || (min <= r.lo <= r.hi <= max && r.hi - r.lo <= |obs| && r.lo in obs && r.hi in obs)
  {
    hide SortOf, Sample, Shrink;
    if max - min > |obs| {
      var s := SortOf(Sample(obs, draws, min));
      SortLength(Sample(obs, draws, min));
      ShrinkStops(s, 0, |s| - 1, |obs|);
      var (l, h) := Shrink(s, 0, |s| - 1, |obs|);
      SampleObserved(obs, draws, min, s[l]);
      SampleObserved(obs, draws, min, s[h]);
    }
  }

  method DrawSample(obs: array<u64>, draws: seq<u64>, min: u64) returns (sample: array<u64>)
    requires obs.Length > 0
    ensures fresh(sample) && sample[..] == Sample(obs[..], draws, min)
  {
    var size := |draws| + 2;
    sample := new u64[size];
    sample[0], sample[1] := min, min;
    for i := 2 to size
      invariant forall k :: 0 <= k < i ==> sample[k] == Sample(obs[..], draws, min)[k]
    {
      var idx := IndexBelow(draws[i - 2], obs.Length);
      sample[i] := obs[idx];
    }
  }

  method NarrowWindow(sample: array<u64>, num: nat) returns (r: Range)
    requires sample.Length > 0 && Sorted(sample[..])
    ensures r == WindowRange(sample[..], num)
  {
    ghost var s := sample[..];
    var lo, hi := 0, sample.Length - 1;
    hide Sorted;
    InOrder(s, lo, hi);
    while sample[hi] - sample[lo] > num
      invariant 0 <= lo <= hi < sample.Length && sample[lo] <= sample[hi]
      invariant Shrink(s, lo, hi, num) == Shrink(s, 0, sample.Length - 1, num)
      decreases hi - lo
    {
      InOrder(s, lo, lo + 1);
      InOrder(s, lo + 1, hi);
      InOrder(s, hi - 1, hi);
      InOrder(s, lo, hi - 1);
      var gapLo := sample[lo + 1] - sample[lo];
      var gapHi := sample[hi] - sample[hi - 1];
      if gapLo > gapHi {
        lo := lo + 1;
      } else {
        hi := hi - 1;
      }
    }
    r := if hi - lo >= sample.Length / 10 then Range(sample[lo], sample[hi]) else EMPTY;
  }

  method FindDenseRange(obs: array<u64>, draws: seq<u64>, min: u64, max: u64) returns (r: Range)
    requires min <= max && (obs.Length > 0 || min == max)
    ensures r == DenseRange(obs[..], draws, min, max)
  {
    if max - min <= obs.Length {
      return Range(min, max);
    }
    hide SortOf, Sorted, Sample, WindowRange;
    var sample := DrawSample(obs, draws, min);
    assert sample.Length == |sample[..]|;
    assert sample[..sample.Length] == sample[..];
    Qsort(sample, sample.Length);
    assert sample[..] == SortOf(Sample(obs[..], draws, min));
    r := NarrowWindow(sample, obs.Length);
  }

  // ---------------------------------------------------------------- counting pass

  function Outliers(s: seq<u64>, r: Range): (o: seq<u64>)
    ensures |o| <= |s|
  {
    if s == [] then []
    else
      var v := s[|s| - 1];
      Outliers(s[..|s| - 1], r) + if Dense(v, r) then [] else [v]
  }

  /** How often each value of the range occurs. */
  function Counts(s: seq<u64>, r: Range): seq<nat> {
    if r.lo > r.hi then [] else seq(r.hi - r.lo + 1, i requires 0 <= i <= r.hi - r.lo => multiset(s)[r.lo + i])
  }

  function Bump(counts: seq<nat>, k: nat): seq<nat>
    requires k < |counts|
  {
    counts[k := counts[k] + 1]
  }

  lemma CountsAt(s: seq<u64>, r: Range, i: nat)
    requires r.lo <= r.hi && i <= r.hi - r.lo
    ensures |Counts(s, r)| == r.hi - r.lo + 1 && Counts(s, r)[i] == multiset(s)[r.lo + i]
  {
  }

  lemma CountsSnoc(s: seq<u64>, r: Range, v: u64)
    requires r.lo <= r.hi
    ensures Dense(v, r) ==> v - r.lo < |Counts(s, r)|
    ensures Counts(s + [v], r) == if Dense(v, r) then Bump(Counts(s, r), v - r.lo) else Counts(s, r)
  {
    hide Counts;
    var c, d := Counts(s, r), Counts(s + [v], r);
    CountsAt(s, r, 0);
    CountsAt(s + [v], r, 0);
    forall i | 0 <= i < |c| ensures d[i] == c[i] + if v == r.lo + i then 1 else 0 {
      CountsAt(s, r, i);
      CountsAt(s + [v], r, i);
      MultisetSnoc(s, v, r.lo + i);
    }
  }

  lemma OutliersSnoc(s: seq<u64>, r: Range, v: u64)
    ensures Outliers(s + [v], r) == if Dense(v, r) then Outliers(s, r) else Outliers(s, r) + [v]
  {
    assert (s + [v])[..|s|] == s;
  }

  lemma MultisetSnoc(s: seq<u64>, v: u64, x: u64)
    ensures multiset(s + [v])[x] == multiset(s)[x] + if v == x then 1 else 0
  {
  }

  lemma {:induction false} OutliersCount(s: seq<u64>, r: Range, v: u64)
    ensures multiset(Outliers(s, r))[v] == if Dense(v, r) then 0 else multiset(s)[v]
  {
    if s != [] {
      hide Outliers;
      var n := |s| - 1;
      OutliersCount(s[..n], r, v);
      assert s == s[..n] + [s[n]];
      OutliersSnoc(s[..n], r, s[n]);
      MultisetSnoc(s[..n], s[n], v);
      MultisetSnoc(Outliers(s[..n], r), s[n], v);
    }
  }

  /** Unsigned subtraction. */
  function Minus(x: u64, y: u64): u64 {
    (x - y) % W
  }

  /** One unsigned comparison of the wrapped difference tests both ends of the range. */
  lemma WrappedTest(v: u64, r: Range)
    requires r.lo <= r.hi
    ensures Minus(v, r.lo) <= r.hi - r.lo <==> Dense(v, r)
    ensures Dense(v, r) ==> Minus(v, r.lo) == v - r.lo
  {
    if v < r.lo {
      DivModUnique(-1, v - r.lo + W, W);
    }
  }

  lemma {:induction false} OutliersConcat(s: seq<u64>, t: seq<u64>, r: Range)
    ensures |Outliers(s + t, r)| == |Outliers(s, r)| + |Outliers(t, r)|
  {
    hide Outliers, Dense;
    if t == [] {
      assert s + t == s;
      NoOutliers(t, r);
    } else {
      var n, v := |t| - 1, t[|t| - 1];
      OutliersConcat(s, t[..n], r);
      assert t == t[..n] + [v] && s + t == (s + t[..n]) + [v];
      OutliersSnoc(t[..n], r, v);
      OutliersSnoc(s + t[..n], r, v);
    }
  }

  lemma {:induction false} NoOutliers(s: seq<u64>, r: Range)
    requires forall v :: v in s ==> Dense(v, r)
    ensures Outliers(s, r) == []
  {
    if s != [] {
      NoOutliers(s[..|s| - 1], r);
    }
  }

  lemma OutliersPermuted(s: seq<u64>, t: seq<u64>, r: Range)
    requires multiset(s) == multiset(t)
    ensures |Outliers(s, r)| == |Outliers(t, r)|
  {
    hide Outliers;
    forall v: u64 ensures multiset(Outliers(s, r))[v] == multiset(Outliers(t, r))[v] {
      OutliersCount(s, r, v);
      OutliersCount(t, r, v);
    }
    assert multiset(Outliers(s, r)) == multiset(Outliers(t, r));
    assert |multiset(Outliers(s, r))| == |multiset(Outliers(t, r))|;
  }

  lemma WindowIsDense(s: seq<u64>, l: nat, h: nat)
    requires Sorted(s) && l <= h < |s|
    ensures Outliers(s[l..h + 1], Range(s[l], s[h])) == []
  {
    forall v | v in s[l..h + 1] ensures Dense(v, Range(s[l], s[h])) {
      var k :| l <= k < h + 1 && s[k] == v;
    }
    NoOutliers(s[l..h + 1], Range(s[l], s[h]));
  }

  lemma WindowCovers(s: seq<u64>, l: nat, h: nat)
    requires Sorted(s) && l <= h < |s|
    ensures |Outliers(s, Range(s[l], s[h]))| + (h - l + 1) <= |s|
  {
    hide Sorted, Outliers;
    var r := Range(s[l], s[h]);
    WindowIsDense(s, l, h);
    assert s == (s[..l] + s[l..h + 1]) + s[h + 1..];
    OutliersConcat(s[..l] + s[l..h + 1], s[h + 1..], r);
    OutliersConcat(s[..l], s[l..h + 1], r);
  }

  /** A sampled range that is kept holds more than a tenth of the sample. */
  lemma DenseRangeCoversSample(obs: seq<u64>, draws: seq<u64>, min: u64, max: u64)
    requires min < max && max - min > |obs| > 0
    ensures var r := DenseRange(obs, draws, min, max); var s := Sample(obs, draws, min);
            r == EMPTY || |Outliers(s, r)| + |s| / 10 + 1 <= |s|
  {
    hide SortOf, Sample, Shrink, Outliers;
    var sample := Sample(obs, draws, min);
    var s := SortOf(sample);
    SortLength(sample);
    SortKeepsAll(sample);
    var (l, h) := Shrink(s, 0, |s| - 1, |obs|);
    ShrinkStops(s, 0, |s| - 1, |obs|);
    WindowCovers(s, l, h);
    OutliersPermuted(sample, s, Range(s[l], s[h]));
  }

  predicate Zeroes(counts: seq<nat>, r: Range) {
    |counts| == r.hi - r.lo + 1 && forall i :: 0 <= i < |counts| ==> counts[i] == 0
  }

  /** Counts the element at `i`, or slides it left. */
  method Place(counts: array<nat>, a: array<u64>, i: nat, outliers: nat, r: Range) returns (next: nat)
    requires r.lo <= r.hi && counts.Length == r.hi - r.lo + 1
    requires outliers <= i < a.Length
    modifies counts, a
    ensures forall k :: i < k < a.Length ==> a[k] == old(a[k])
    ensures if Dense(old(a[i]), r)
            then next == outliers && a[..next] == old(a[..outliers])
            else next == outliers + 1 && a[..next] == old(a[..outliers] + [a[i]])
    ensures counts[..] == if Dense(old(a[i]), r) then Bump(old(counts[..]), old(a[i]) - r.lo) else old(counts[..])
  {
    hide Minus;
    var value := a[i];
    WrappedTest(value, r);
    var offset := Minus(value, r.lo);
    if offset <= r.hi - r.lo {
      counts[offset] := counts[offset] + 1;
      return outliers;
    }
    a[outliers] := value;
    return outliers + 1;
  }

  /** After `i` elements: the outliers so far and the counts. */
  predicate Compressed(s: seq<u64>, i: nat, head: seq<u64>, counts: seq<nat>, r: Range) {
    i <= |s| && head == Outliers(s[..i], r) && counts == Counts(s[..i], r)
  }

  lemma CompressOne(s: seq<u64>, i: nat, head: seq<u64>, counts: seq<nat>, r: Range)
    requires r.lo <= r.hi && Compressed(s, i, head, counts, r) && i < |s|
    ensures |head| <= i && |counts| == r.hi - r.lo + 1
    ensures if Dense(s[i], r)
            then Compressed(s, i + 1, head, Bump(counts, s[i] - r.lo), r)
            else Compressed(s, i + 1, head + [s[i]], counts, r)
  {
    hide Outliers;
    assert s[..i + 1] == s[..i] + [s[i]];
    OutliersSnoc(s[..i], r, s[i]);
    CountsSnoc(s[..i], r, s[i]);
  }

  method CompressCountSort(counts: array<nat>, a: array<u64>, r: Range) returns (outliers: nat)
    requires r.lo <= r.hi ==> Zeroes(counts[..], r)
    modifies counts, a
    ensures outliers == |Outliers(old(a[..]), r)|
    ensures a[..outliers] == Outliers(old(a[..]), r)
    ensures r.lo <= r.hi ==> counts[..] == Counts(old(a[..]), r)
  {
    ghost var s := a[..];
    if r.lo > r.hi {
      AllOutliers(s, r);
      return a.Length;
    }
    EmptyCounts(counts[..], r);
    outliers := 0;
    assert Compressed(s, 0, a[..outliers], counts[..], r);
    hide Compressed, Dense, Bump;
    for i := 0 to a.Length
      invariant outliers <= i && Compressed(s, i, a[..outliers], counts[..], r)
      invariant forall k :: i <= k < a.Length ==> a[k] == s[k]
    {
      CompressOne(s, i, a[..outliers], counts[..], r);
      outliers := Place(counts, a, i, outliers, r);
    }
    CompressedAll(s, a[..outliers], counts[..], r);
  }

  lemma CompressedAll(s: seq<u64>, head: seq<u64>, counts: seq<nat>, r: Range)
    requires Compressed(s, |s|, head, counts, r)
    ensures head == Outliers(s, r) && counts == Counts(s, r)
  {
    assert s[..|s|] == s;
  }

  lemma EmptyCounts(c: seq<nat>, r: Range)
    requires r.lo <= r.hi && Zeroes(c, r)
    ensures c == Counts([], r) && Outliers([], r) == []
  {
  }

  lemma {:induction false} AllOutliers(s: seq<u64>, r: Range)
    requires r.lo > r.hi
    ensures Outliers(s, r) == s
  {
    if s != [] {
      AllOutliers(s[..|s| - 1], r);
      assert s == s[..|s| - 1] + [s[|s| - 1]];
    }
  }

  // ---------------------------------------------------------------- merge

  function Repeat(v: u64, n: nat): seq<u64> {
    seq(n, _ => v)
  }

  /** Each value from `lo` up, as often as its count says. */
  function Splat(counts: seq<nat>, lo: u64): seq<u64>
    requires lo + |counts| <= W
  {
    if counts == [] then []
    else
      var n := |counts| - 1;
      Splat(counts[..n], lo) + Repeat(lo + n, counts[n])
  }

  /** The index of the first element above `v`. */
  function FirstAbove(s: seq<u64>, v: u64): (i: nat)
    ensures i <= |s| && (i < |s| ==> s[i] > v) && forall j :: 0 <= j < i ==> s[j] <= v
  {
    if s == [] || s[0] > v then 0 else 1 + FirstAbove(s[1..], v)
  }

  /** The outliers, with the counted values inserted at their place. */
  function Merge(outliers: seq<u64>, counts: seq<nat>, lo: u64): seq<u64>
    requires lo + |counts| <= W
  {
    var i := FirstAbove(outliers, lo);
    outliers[..i] + Splat(counts, lo) + outliers[i..]
  }

  lemma RepeatCount(v: u64, n: nat, x: u64)
    ensures multiset(Repeat(v, n))[x] == if x == v then n else 0
  {
    if n > 0 {
      RepeatCount(v, n - 1, x);
      assert Repeat(v, n) == Repeat(v, n - 1) + [v];
    }
  }

  lemma ConcatCount(s: seq<u64>, t: seq<u64>, x: u64)
    ensures multiset(s + t)[x] == multiset(s)[x] + multiset(t)[x]
  {
  }

  lemma SplatLast(counts: seq<nat>, lo: u64)
    requires lo + |counts| <= W && counts != []
    ensures var n := |counts| - 1; Splat(counts, lo) == Splat(counts[..n], lo) + Repeat(lo + n, counts[n])
  {
  }

  lemma {:induction false} SplatCount(counts: seq<nat>, lo: u64, x: u64)
    requires lo + |counts| <= W
    ensures multiset(Splat(counts, lo))[x] == if lo <= x < lo + |counts| then counts[x - lo] else 0
  {
    if counts != [] {
      hide Repeat, Splat;
      var n := |counts| - 1;
      SplatCount(counts[..n], lo, x);
      SplatLast(counts, lo);
      RepeatCount(lo + n, counts[n], x);
      ConcatCount(Splat(counts[..n], lo), Repeat(lo + n, counts[n]), x);
    }
  }

  lemma {:induction false} SplatSorted(counts: seq<nat>, lo: u64)
    requires lo + |counts| <= W
    ensures Sorted(Splat(counts, lo))
    ensures forall v :: v in Splat(counts, lo) ==> lo <= v < lo + |counts|
  {
    if counts != [] {
      var n := |counts| - 1;
      SplatSorted(counts[..n], lo);
      SortedConcat(Splat(counts[..n], lo), Repeat(lo + n, counts[n]), lo + n);
    }
  }

  lemma {:induction false} SplatPrefix(counts: seq<nat>, lo: u64, k: nat)
    requires lo + |counts| <= W && k < |counts|
    ensures |Splat(counts[..k], lo)| + counts[k] <= |Splat(counts, lo)|
    ensures Splat(counts[..k + 1], lo) == Splat(counts[..k], lo) + Repeat(lo + k, counts[k])
  {
    assert counts[..k + 1][..k] == counts[..k];
    if k + 1 == |counts| {
      assert counts[..k + 1] == counts;
    } else {
      var n := |counts| - 1;
      SplatPrefix(counts[..n], lo, k);
      assert counts[..n][..k] == counts[..k];
    }
  }

  /** Counting conserves the multiset: every element is an outlier or counted, never both. */
  lemma CountingConserves(s: seq<u64>, r: Range)
    requires r.lo <= r.hi
    ensures multiset(Outliers(s, r)) + multiset(Splat(Counts(s, r), r.lo)) == multiset(s)
    ensures |Outliers(s, r)| + |Splat(Counts(s, r), r.lo)| == |s|
  {
    hide Outliers, Splat;
    var m := multiset(Outliers(s, r)) + multiset(Splat(Counts(s, r), r.lo));
    forall v: u64 ensures m[v] == multiset(s)[v] {
      OutliersCount(s, r, v);
      SplatCount(Counts(s, r), r.lo, v);
    }
    assert m == multiset(s);
    assert |m| == |Outliers(s, r)| + |Splat(Counts(s, r), r.lo)|;
  }

  lemma MergeMultiset(o: seq<u64>, counts: seq<nat>, lo: u64)
    requires lo + |counts| <= W
    ensures multiset(Merge(o, counts, lo)) == multiset(o) + multiset(Splat(counts, lo))
  {
    hide Splat, FirstAbove;
    var i := FirstAbove(o, lo);
    assert o == o[..i] + o[i..];
  }

  lemma MergeSorted(o: seq<u64>, counts: seq<nat>, lo: u64)
    requires 0 < |counts| && lo + |counts| <= W
    requires Sorted(o) && forall v :: v in o ==> v < lo || v >= lo + |counts|
    ensures Sorted(Merge(o, counts, lo))
  {
    hide Splat, FirstAbove, Sorted;
    var i := FirstAbove(o, lo);
    SortedPart(o, 0, i);
    SortedPart(o, i, |o|);
    SplatSorted(counts, lo);
    forall v | v in o[..i] ensures v <= lo {
    }
    SortedConcat(o[..i], Splat(counts, lo), lo);
    forall v | v in o[i..] ensures lo + |counts| <= v {
      FirstAboveRest(o, lo, v);
    }
    SortedConcat(o[..i] + Splat(counts, lo), o[i..], lo + |counts| - 1);
  }

  lemma FirstAboveRest(s: seq<u64>, v: u64, x: u64)
    requires Sorted(s) && x in s[FirstAbove(s, v)..]
    ensures v < x && x in s
  {
    hide FirstAbove;
    var k :| FirstAbove(s, v) <= k < |s| && s[k] == x;
  }

  /** Merging the sorted outliers with the counts sorts the input. */
  lemma MergeSorts(s: seq<u64>, r: Range)
    requires r.lo <= r.hi
    ensures Merge(SortOf(Outliers(s, r)), Counts(s, r), r.lo) == SortOf(s)
  {
    hide Outliers, Splat, SortOf, Merge;
    var o := SortOf(Outliers(s, r));
    SortKeepsAll(Outliers(s, r));
    forall v: u64 | v in o ensures !Dense(v, r) {
      assert v in multiset(o);
      OutliersCount(s, r, v);
    }
    MergeSorted(o, Counts(s, r), r.lo);
    MergeMultiset(o, Counts(s, r), r.lo);
    CountingConserves(s, r);
    SortOfSorted(s, Merge(o, Counts(s, r), r.lo));
  }

  method SkipLow(a: array<u64>, outliers: nat, lo: u64) returns (i: nat)
    requires outliers <= a.Length
    ensures i == FirstAbove(a[..outliers], lo)
  {
    hide FirstAbove;
    i := 0;
    while i < outliers && a[i] <= lo
      invariant i <= outliers
      invariant forall j :: 0 <= j < i ==> a[j] <= lo
    {
      i := i + 1;
    }
    FirstAboveIs(a[..outliers], lo, i);
  }

  /** Each slot past the leading outliers is written once: by the move of the trailing outliers
      to the end, or by the splat of the counts, which ends exactly where they start. */
  method MergeCountsIntoOutliers(a: array<u64>, counts: array<nat>, outliers: nat, r: Range)
    requires outliers <= a.Length
    requires outliers < a.Length ==>
               && r.lo <= r.hi && counts.Length == r.hi - r.lo + 1
               && outliers + |Splat(counts[..], r.lo)| == a.Length
    modifies a
    ensures counts[..] == old(counts[..])
    ensures a[..] == if outliers == a.Length then old(a[..]) else Merge(old(a[..outliers]), counts[..], r.lo)
  {
    if outliers == a.Length {
      return;
    }
    hide Splat, FirstAbove, Merge;
    ghost var o := a[..outliers];
    var i := SkipLow(a, outliers, r.lo);
    var tail := outliers - i;
    if i < outliers {
      Move(a, i, outliers);
    }
    assert a[..i] == o[..i] && a[a.Length - tail..] == o[i..];
    i := SplatCounts(a, counts, i, a.Length - tail, r);
    MergeParts(o, counts[..], r.lo);
    assert a[..] == a[..i] + a[i..];
  }

  lemma MergeParts(o: seq<u64>, counts: seq<nat>, lo: u64)
    requires lo + |counts| <= W
    ensures var i := FirstAbove(o, lo); Merge(o, counts, lo) == o[..i] + Splat(counts, lo) + o[i..]
  {
  }

  lemma FirstAboveIs(s: seq<u64>, v: u64, i: nat)
    requires i <= |s| && (i < |s| ==> s[i] > v) && forall j :: 0 <= j < i ==> s[j] <= v
    ensures FirstAbove(s, v) == i
  {
  }

  /** memmove of `a[from..end]` to the end of the array; the two may overlap. */
  method Move(a: array<u64>, from: nat, end: nat)
    requires from <= end <= a.Length
    modifies a
    ensures a[..from] == old(a[..from])
    ensures a[a.Length - (end - from)..] == old(a[from..end])
  {
    var n, to := end - from, a.Length - (end - from);
    forall k | 0 <= k < n {
      a[to + k] := a[from + k];
    }
  }

  lemma SplatNone(lo: u64)
    ensures Splat([], lo) == []
  {
  }

  lemma RepeatNone(v: u64)
    ensures Repeat(v, 0) == []
  {
  }

  lemma RepeatNext(v: u64, n: nat)
    ensures Repeat(v, n + 1) == Repeat(v, n) + [v] && |Repeat(v, n)| == n
  {
  }

  method SplatCounts(a: array<u64>, counts: array<nat>, start: nat, end: nat, r: Range) returns (i: nat)
    requires start <= end <= a.Length
    requires r.lo <= r.hi && counts.Length == r.hi - r.lo + 1
    requires start + |Splat(counts[..], r.lo)| == end
    modifies a
    ensures i == end
    ensures counts[..] == old(counts[..])
    ensures a[..end] == old(a[..start]) + Splat(counts[..], r.lo)
    ensures a[end..] == old(a[end..])
  {
    hide Splat, Repeat;
    ghost var head, c := a[..start], counts[..];
    SplatNone(r.lo);
    assert c[..0] == [] && head + [] == head;
    i := start;
    var index := 0;
    while index <= r.hi - r.lo
      invariant 0 <= index <= counts.Length && counts[..] == c
      invariant i == start + |Splat(c[..index], r.lo)| <= end
      invariant a[..i] == head + Splat(c[..index], r.lo)
      invariant a[end..] == old(a[end..])
    {
      SplatPrefix(c, r.lo, index);
      var value, count := r.lo + index, counts[index];
      ghost var base, done := i, a[..i];
      RepeatNone(value);
      assert done + [] == done;
      for j := 0 to count
        invariant counts[..] == c && i == base + j
        invariant a[..i] == done + Repeat(value, j)
        invariant a[end..] == old(a[end..])
      {
        a[i] := value;
        i := i + 1;
        RepeatNext(value, j);
        assert a[..i] == a[..i - 1] + [value];
      }
      index := index + 1;
    }
    assert c[..index] == c;
  }

  // ---------------------------------------------------------------- the sort

  lemma SplitSorts(s: seq<u64>, r: Range)
    ensures var o := SortOf(Outliers(s, r));
            && |o| == |Outliers(s, r)|
            && (|o| == |s| ==> o == SortOf(s))
            && (|o| < |s| ==> && r.lo <= r.hi && |o| + |Splat(Counts(s, r), r.lo)| == |s|
                              && Merge(o, Counts(s, r), r.lo) == SortOf(s))
  {
    hide SortOf, Outliers, Splat, Merge;
    SortLength(Outliers(s, r));
    if r.lo > r.hi {
      AllOutliers(s, r);
    } else {
      CountingConserves(s, r);
      MergeSorts(s, r);
      if |Outliers(s, r)| == |s| {
        NothingCounted(SortOf(Outliers(s, r)), Counts(s, r), r.lo);
      }
    }
  }

  lemma NothingCounted(o: seq<u64>, counts: seq<nat>, lo: u64)
    requires lo + |counts| <= W && |Splat(counts, lo)| == 0
    ensures Merge(o, counts, lo) == o
  {
    hide Splat;
  }

  /** Sorts in place, whatever the draws, for any bounds on the values. */
  method HybridSort(draws: seq<u64>, a: array<u64>, min: u64, max: u64)
    requires forall v :: v in a[..] ==> min <= v <= max
    modifies a
    ensures a[..] == SortOf(old(a[..]))
  {
    hide SortOf, Outliers, Splat, Merge, DenseRange;
    ghost var s := a[..];
    var num := a.Length;
    if min >= max {
      forall i, j | 0 <= i < j < |s| ensures s[i] <= s[j] {
        assert s[i] in s && s[j] in s;
      }
      SortOfSorted(s, s);
      return;
    }
    if num < 10 && max - min > num {
      Qsort(a, num);
      assert a[..num] == a[..] && s[..num] == s;
      return;
    }
    var r := FindDenseRange(a, draws, min, max);
    var counts := new nat[if r.lo > r.hi then 0 else r.hi - r.lo + 1](_ => 0);
    var outliers := CompressCountSort(counts, a, r);
    Qsort(a, outliers);
    SplitSorts(s, r);
    assert outliers == a.Length ==> a[..outliers] == a[..];
    MergeCountsIntoOutliers(a, counts, outliers, r);
  }
}
