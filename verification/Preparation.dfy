/** Turning a struct of random words into valid hashing parameters. */
module Preparation {
  import opened Words
  import opened ModArith
  import opened FiniteSets

  const OH_WORDS: nat := 34

  // ---------------------------------------------------------------- specification

  /** A value, with the number of spare words consumed so far; or the spare words ran out. */
  datatype Draw<T> = Failed | Drawn(value: T, used: nat)

  /** The low 61 bits. */
  function Mask(f: u64): u64 {
    f % 0x2000_0000_0000_0000
  }

  predicate Acceptable(f: u64) {
    0 < f < P
  }

  /** Rejection sampling for a multiplier. */
  function PickMultiplier(f: u64, spare: seq<u64>, used: nat): Draw<u64>
    decreases |spare| - used
  {
    if Acceptable(Mask(f)) then Drawn(Mask(f), used)
    else if used >= |spare| then Failed
    else PickMultiplier(spare[used], spare, used + 1)
  }

  /** Replaces each word that repeats an earlier one, from position `i` up. */
  function Deduplicate(oh: seq<u64>, i: nat, spare: seq<u64>, used: nat): Draw<seq<u64>>
    requires i <= |oh|
    decreases |spare| - used, |oh| - i
  {
    if i == |oh| then Drawn(oh, used)
    else if oh[i] in oh[..i] then
      if used >= |spare| then Failed else Deduplicate(oh[i := spare[used]], i, spare, used + 1)
    else Deduplicate(oh, i + 1, spare, used)
  }

  datatype RawParams = RawParams(f0: u64, f1: u64, oh: seq<u64>)

  /** The spare words serve the first multiplier, then the second, then the OH words. */
  function Prepared(w: RawParams, spare: seq<u64>): Draw<RawParams> {
    match PickMultiplier(w.f0, spare, 0)
    case Failed => Failed
    case Drawn(f0, used0) =>
      match PickMultiplier(w.f1, spare, used0)
      case Failed => Failed
      case Drawn(f1, used1) =>
        match Deduplicate(w.oh, 0, spare, used1)
        case Failed => Failed
        case Drawn(oh, used) => Drawn(RawParams(f0, f1, oh), used)
  }

  // ---------------------------------------------------------------- properties

  predicate Distinct(s: seq<u64>) {
    forall i, j :: 0 <= i < j < |s| ==> s[i] != s[j]
  }

  lemma {:induction false} PickIsAcceptable(f: u64, spare: seq<u64>, used: nat)
    requires used <= |spare|
    ensures var d := PickMultiplier(f, spare, used);
            d.Drawn? ==> Acceptable(d.value) && used <= d.used <= |spare|
    decreases |spare| - used
  {
    if !Acceptable(Mask(f)) && used < |spare| {
      PickIsAcceptable(spare[used], spare, used + 1);
    }
  }

  lemma {:induction false} DeduplicateIsDistinct(oh: seq<u64>, i: nat, spare: seq<u64>, used: nat)
    requires i <= |oh| && Distinct(oh[..i]) && used <= |spare|
    ensures var d := Deduplicate(oh, i, spare, used);
            d.Drawn? ==> && Distinct(d.value) && |d.value| == |oh| && d.value[..i] == oh[..i]
                         && used <= d.used <= |spare|
    decreases |spare| - used, |oh| - i
  {
    if i == |oh| {
      assert oh[..i] == oh;
    } else if oh[i] in oh[..i] {
      if used < |spare| {
        assert oh[i := spare[used]][..i] == oh[..i];
        DeduplicateIsDistinct(oh[i := spare[used]], i, spare, used + 1);
      }
    } else {
      assert oh[..i + 1] == oh[..i] + [oh[i]];
      DeduplicateIsDistinct(oh, i + 1, spare, used);
      var d := Deduplicate(oh, i + 1, spare, used);
      assert d.Drawn? ==> d.value[..i] == d.value[..i + 1][..i];
    }
  }

  function Values(s: seq<u64>): set<u64> {
    set x | x in s
  }

  /** Replacing one word adds at most one new value. */
  lemma ReplaceAddsOne(s: seq<u64>, i: nat, v: u64)
    requires i < |s|
    ensures |Values(s[i := v])| <= |Values(s)| + 1
  {
    assert Values(s[i := v]) <= Values(s) + {v};
    SubsetCard(Values(s[i := v]), Values(s) + {v});
  }

  lemma {:induction false} DistinctCard(s: seq<u64>)
    requires Distinct(s)
    ensures |Values(s)| == |s|
  {
    if s != [] {
      var n := |s| - 1;
      DistinctCard(s[..n]);
      assert s == s[..n] + [s[n]];
      assert Values(s) == Values(s[..n]) + {s[n]};
      assert s[n] !in Values(s[..n]);
    }
  }

  /** Every repeated value costs a spare word. */
  lemma {:induction false} RepeatsCost(oh: seq<u64>, i: nat, spare: seq<u64>, used: nat)
    requires i <= |oh| && Distinct(oh[..i]) && used <= |spare|
    ensures var d := Deduplicate(oh, i, spare, used);
            d.Drawn? ==> |oh| - |Values(oh)| <= d.used - used
    decreases |spare| - used, |oh| - i
  {
    if i == |oh| {
      assert oh[..i] == oh;
      DistinctCard(oh);
    } else if oh[i] in oh[..i] {
      if used < |spare| {
        assert oh[i := spare[used]][..i] == oh[..i];
        ReplaceAddsOne(oh, i, spare[used]);
        RepeatsCost(oh[i := spare[used]], i, spare, used + 1);
      }
    } else {
      assert oh[..i + 1] == oh[..i] + [oh[i]];
      RepeatsCost(oh, i + 1, spare, used);
    }
  }

  /**
   * On success both multipliers are valid, the OH words are distinct, and the spare words that
   * were consumed cover all the repeated values: more than two repeats always fail.
   */
  lemma PreparedIsValid(w: RawParams, spare: seq<u64>)
    requires |spare| == 2
    ensures var d := Prepared(w, spare);
            d.Drawn? ==> && 0 < d.value.f0 < 0x1FFF_FFFF_FFFF_FFFF && 0 < d.value.f1 < 0x1FFF_FFFF_FFFF_FFFF
                         && |d.value.oh| == |w.oh| && Distinct(d.value.oh)
                         && |w.oh| - |Values(w.oh)| <= d.used <= 2
  {
    hide Deduplicate, PickMultiplier;
    PickIsAcceptable(w.f0, spare, 0);
    var d0 := PickMultiplier(w.f0, spare, 0);
    if d0.Drawn? {
      PickIsAcceptable(w.f1, spare, d0.used);
      var d1 := PickMultiplier(w.f1, spare, d0.used);
      if d1.Drawn? {
        assert w.oh[..0] == [];
        DeduplicateIsDistinct(w.oh, 0, spare, d1.used);
        RepeatsCost(w.oh, 0, spare, d1.used);
      }
    }
  }

  lemma {:induction false} DistinctUntouched(oh: seq<u64>, i: nat, spare: seq<u64>, used: nat)
    requires i <= |oh| && Distinct(oh)
    ensures Deduplicate(oh, i, spare, used) == Drawn(oh, used)
    decreases |oh| - i
  {
    if i < |oh| {
      assert oh[i] !in oh[..i];
      DistinctUntouched(oh, i + 1, spare, used);
    }
  }

  /** Words that need no repair are kept, up to the mask on the multipliers. */
  lemma ValidIsKept(w: RawParams, spare: seq<u64>)
    requires Acceptable(Mask(w.f0)) && Acceptable(Mask(w.f1)) && Distinct(w.oh)
    ensures Prepared(w, spare) == Drawn(RawParams(Mask(w.f0), Mask(w.f1), w.oh), 0)
  {
    DistinctUntouched(w.oh, 0, spare, 0);
  }

  /** The candidate at `k` is the first one that is valid once masked, and `v` is its masked form. */
  predicate FirstValid(c: seq<u64>, k: nat, v: u64) {
    && k < |c| && v == c[k] % 0x2000_0000_0000_0000 && 0 < v < 0x1FFF_FFFF_FFFF_FFFF
    && forall i :: 0 <= i < k ==> c[i] % 0x2000_0000_0000_0000 in [0, 0x1FFF_FFFF_FFFF_FFFF]
  }

  /** No candidate is valid once masked. */
  predicate NoneValid(c: seq<u64>) {
    forall i :: 0 <= i < |c| ==> c[i] % 0x2000_0000_0000_0000 in [0, 0x1FFF_FFFF_FFFF_FFFF]
  }

  /** Rejection sampling stops at the first candidate that is valid once masked, if there is one. */
  lemma {:induction false} PickIsFirst(f: u64, spare: seq<u64>, used: nat)
    requires used <= |spare|
    ensures var c := [f] + spare[used..];
            match PickMultiplier(f, spare, used)
            case Failed => NoneValid(c)
            case Drawn(v, k) => used <= k <= |spare| && FirstValid(c, k - used, v)
    decreases |spare| - used
  {
    if !Acceptable(Mask(f)) && used < |spare| {
      PickIsFirst(spare[used], spare, used + 1);
      assert ([f] + spare[used..])[1..] == [spare[used]] + spare[used + 1..];
    }
  }

  /**
   * Each multiplier is the first valid one among its own word and the spare words that are left,
   * in masked form; a multiplier that is valid at once is kept.
   */
  lemma MultipliersKept(w: RawParams, spare: seq<u64>)
    ensures var d := Prepared(w, spare);
            d.Drawn? ==> && (Acceptable(Mask(w.f0)) ==> d.value.f0 == Mask(w.f0))
                         && (Acceptable(Mask(w.f1)) ==> d.value.f1 == Mask(w.f1))
                         && exists k: nat, l: nat ::
                              && FirstValid([w.f0] + spare, k, d.value.f0)
                              && k <= |spare|
                              && FirstValid([w.f1] + spare[k..], l, d.value.f1)
  {
    hide Deduplicate, Acceptable;
    PickIsFirst(w.f0, spare, 0);
    var d0 := PickMultiplier(w.f0, spare, 0);
    if d0.Drawn? {
      PickIsFirst(w.f1, spare, d0.used);
      var d1 := PickMultiplier(w.f1, spare, d0.used);
      if d1.Drawn? {
        assert FirstValid([w.f0] + spare, d0.used, d0.value);
        assert FirstValid([w.f1] + spare[d0.used..], d1.used - d0.used, d1.value);
      }
    }
  }

  /** The candidate at `p` is the first one that has not been seen, and `x` is it. */
  predicate FirstFresh(c: seq<u64>, p: nat, seen: seq<u64>, x: u64) {
    && p < |c| && x == c[p] && x !in seen
    && forall q :: 0 <= q < p ==> c[q] in seen
  }

  /**
   * The first words `v` are drawn in order: `u[k]` spare words are gone before word `k`, which is
   * the first of its own value and the spare words left that is not among the words before it.
   */
  predicate Chosen(oh: seq<u64>, spare: seq<u64>, v: seq<u64>, u: seq<nat>) {
    && |v| <= |oh| && |u| == |v| + 1
    && forall k :: 0 <= k < |v| ==> ChosenAt(oh, spare, v, u, k)
  }

  predicate ChosenAt(oh: seq<u64>, spare: seq<u64>, v: seq<u64>, u: seq<nat>, k: nat)
    requires k < |v| <= |oh| && k + 1 < |u|
  {
    && u[k] <= u[k + 1] <= |spare|
    && FirstFresh([oh[k]] + spare[u[k]..], u[k + 1] - u[k], v[..k], v[k])
  }

  /** All the words are drawn, the spare words from position `used` up to `end`. */
  ghost predicate AllChosen(oh: seq<u64>, spare: seq<u64>, used: nat, v: seq<u64>, end: nat) {
    |v| == |oh| && exists u: seq<nat> :: Chosen(oh, spare, v, u) && u[0] == used && u[|v|] == end
  }

  /** Some word has no candidate left that is not among the words before it. */
  ghost predicate RunsOut(oh: seq<u64>, spare: seq<u64>, used: nat) {
    exists v: seq<u64>, u: seq<nat> :: StuckAt(oh, spare, used, v, u)
  }

  ghost predicate StuckAt(oh: seq<u64>, spare: seq<u64>, used: nat, v: seq<u64>, u: seq<nat>) {
    && Chosen(oh, spare, v, u) && |v| < |oh| && u[0] == used && u[|v|] <= |spare|
    && forall x :: x in ([oh[|v|]] + spare[u[|v|]..]) ==> x in v
  }

  /** The candidate at `p` is being tried: all those before it have been seen. */
  predicate Trying(c: seq<u64>, p: nat, seen: seq<u64>, x: u64) {
    p < |c| && x == c[p] && forall q :: 0 <= q < p ==> c[q] in seen
  }

  /** The state in the middle of the loop: `cur` is drawn up to `i`, and its word `i` is being tried. */
  predicate Drawing(oh: seq<u64>, cur: seq<u64>, i: nat, spare: seq<u64>, used: nat, u: seq<nat>) {
    && i <= |oh| == |cur| && used <= |spare|
    && Chosen(oh, spare, cur[..i], u) && u[i] <= used
    && (if i < |oh| then && Trying([oh[i]] + spare[u[i]..], used - u[i], cur[..i], cur[i])
                         && cur[i + 1..] == oh[i + 1..]
        else used == u[i])
  }

  lemma TryFresh(c: seq<u64>, p: nat, seen: seq<u64>, x: u64)
    requires Trying(c, p, seen, x) && x !in seen
    ensures FirstFresh(c, p, seen, x)
  {
  }

  lemma TryNext(c: seq<u64>, p: nat, seen: seq<u64>, x: u64)
    requires Trying(c, p, seen, x) && x in seen
    ensures p + 1 < |c| ==> Trying(c, p + 1, seen, c[p + 1])
    ensures p + 1 == |c| ==> forall y :: y in c ==> y in seen
  {
  }

  lemma ChosenNext(oh: seq<u64>, spare: seq<u64>, v: seq<u64>, u: seq<nat>, x: u64, end: nat)
    requires Chosen(oh, spare, v, u) && |v| < |oh| && u[|v|] <= end <= |spare|
    requires FirstFresh([oh[|v|]] + spare[u[|v|]..], end - u[|v|], v, x)
    ensures Chosen(oh, spare, v + [x], u + [end])
  {
    hide FirstFresh;
    var w, y := v + [x], u + [end];
    forall k | 0 <= k < |w| ensures ChosenAt(oh, spare, w, y, k) {
      if k < |v| {
        assert ChosenAt(oh, spare, v, u, k) && w[..k] == v[..k];
      } else {
        assert w[..k] == v;
      }
    }
  }

  /** A word that repeats none before it is drawn. */
  lemma DrawingKeeps(oh: seq<u64>, cur: seq<u64>, i: nat, spare: seq<u64>, used: nat, u: seq<nat>)
    requires Drawing(oh, cur, i, spare, used, u) && i < |oh| && cur[i] !in cur[..i]
    ensures Drawing(oh, cur, i + 1, spare, used, u + [used])
  {
    hide Chosen, FirstFresh;
    ChosenLengths(oh, spare, cur[..i], u);
    TryFresh([oh[i]] + spare[u[i]..], used - u[i], cur[..i], cur[i]);
    ChosenNext(oh, spare, cur[..i], u, cur[i], used);
    assert cur[..i + 1] == cur[..i] + [cur[i]];
    if i + 1 < |oh| {
      assert cur[i + 1] == cur[i + 1..][0] == oh[i + 1..][0];
      assert cur[i + 2..] == cur[i + 1..][1..] == oh[i + 1..][1..];
    }
  }

  lemma ChosenLengths(oh: seq<u64>, spare: seq<u64>, v: seq<u64>, u: seq<nat>)
    requires Chosen(oh, spare, v, u)
    ensures |u| == |v| + 1 && |v| <= |oh|
  {
  }

  lemma CandidateAt(f: u64, spare: seq<u64>, p: nat, k: nat)
    requires p < k <= |spare|
    ensures |[f] + spare[p..]| == 1 + |spare| - p && ([f] + spare[p..])[k - p] == spare[k - 1]
  {
  }

  /** A word that repeats one before it is replaced by the next spare word. */
  lemma DrawingReplaces(oh: seq<u64>, cur: seq<u64>, i: nat, spare: seq<u64>, used: nat, u: seq<nat>)
    requires Drawing(oh, cur, i, spare, used, u) && i < |oh| && cur[i] in cur[..i] && used < |spare|
    ensures Drawing(oh, cur[i := spare[used]], i, spare, used + 1, u)
  {
    hide Chosen, Trying;
    ChosenLengths(oh, spare, cur[..i], u);
    CandidateAt(oh[i], spare, u[i], used + 1);
    TryNext([oh[i]] + spare[u[i]..], used - u[i], cur[..i], cur[i]);
    var next := cur[i := spare[used]];
    assert next[..i] == cur[..i] && next[i + 1..] == cur[i + 1..];
  }

  lemma DrawingStuck(oh: seq<u64>, cur: seq<u64>, i: nat, spare: seq<u64>, used: nat, u: seq<nat>)
    requires Drawing(oh, cur, i, spare, used, u) && i < |oh| && cur[i] in cur[..i] && used >= |spare|
    ensures u != [] && StuckAt(oh, spare, u[0], cur[..i], u)
  {
    hide Chosen, Trying;
    ChosenLengths(oh, spare, cur[..i], u);
    TryNext([oh[i]] + spare[u[i]..], used - u[i], cur[..i], cur[i]);
  }

  /**
   * Deduplication replaces words in order, each by the first spare word left that is fresh, and
   * fails only when some word runs out of candidates.
   */
  lemma {:induction false} DeduplicateDraws(oh: seq<u64>, cur: seq<u64>, i: nat, spare: seq<u64>, used: nat,
                                            u: seq<nat>)
    requires i <= |cur| && Drawing(oh, cur, i, spare, used, u)
    ensures u != []
    ensures match Deduplicate(cur, i, spare, used)
            case Failed => RunsOut(oh, spare, u[0])
            case Drawn(v, end) => AllChosen(oh, spare, u[0], v, end)
    decreases |spare| - used, |cur| - i
  {
    hide Chosen, Drawing;
    DrawingLengths(oh, cur, i, spare, used, u);
    if i == |cur| {
      DrawingEnds(oh, cur, spare, used, u);
    } else if cur[i] in cur[..i] {
      if used >= |spare| {
        DrawingStuck(oh, cur, i, spare, used, u);
      } else {
        DrawingReplaces(oh, cur, i, spare, used, u);
        DeduplicateDraws(oh, cur[i := spare[used]], i, spare, used + 1, u);
      }
    } else {
      DrawingKeeps(oh, cur, i, spare, used, u);
      DeduplicateDraws(oh, cur, i + 1, spare, used, u + [used]);
    }
  }

  lemma DrawingLengths(oh: seq<u64>, cur: seq<u64>, i: nat, spare: seq<u64>, used: nat, u: seq<nat>)
    requires Drawing(oh, cur, i, spare, used, u)
    ensures i <= |oh| == |cur| && |u| == i + 1 && used <= |spare|
  {
    hide FirstFresh;
  }

  lemma DrawingEnds(oh: seq<u64>, cur: seq<u64>, spare: seq<u64>, used: nat, u: seq<nat>)
    requires Drawing(oh, cur, |cur|, spare, used, u)
    ensures u != [] && AllChosen(oh, spare, u[0], cur, used)
  {
    hide Chosen;
    ChosenLengths(oh, spare, cur[..|cur|], u);
    assert cur[..|cur|] == cur;
  }

  lemma DrawingStarts(oh: seq<u64>, spare: seq<u64>, used: nat)
    requires used <= |spare|
    ensures Drawing(oh, oh, 0, spare, used, [used])
  {
    assert oh[..0] == [] && oh[0..] == oh;
    if oh != [] {
      assert oh == [oh[0]] + oh[1..];
    }
  }

  /**
   * The spare words are drawn in one order: for the first multiplier, then for the second, then for
   * the repeated words, each time up to the first one that will do. Preparation fails exactly when
   * they run out.
   */
  lemma PreparedDraws(w: RawParams, spare: seq<u64>)
    ensures match Prepared(w, spare)
            case Drawn(r, end) =>
              exists k: nat, l: nat ::
                && k <= l <= |spare| && FirstValid([w.f0] + spare, k, r.f0)
                && FirstValid([w.f1] + spare[k..], l - k, r.f1)
                && AllChosen(w.oh, spare, l, r.oh, end)
            case Failed =>
              || NoneValid([w.f0] + spare)
              || exists k: nat, f: u64 ::
                   && k <= |spare| && FirstValid([w.f0] + spare, k, f)
                   && (|| NoneValid([w.f1] + spare[k..])
                       || exists p: nat, g: u64 ::
                            && k + p <= |spare| && FirstValid([w.f1] + spare[k..], p, g)
                            && RunsOut(w.oh, spare, k + p))
  {
    hide Deduplicate, FirstValid, AllChosen, RunsOut, NoneValid;
    PickIsFirst(w.f0, spare, 0);
    match PickMultiplier(w.f0, spare, 0)
    case Failed =>
    case Drawn(f, k) =>
      assert FirstValid([w.f0] + spare, k, f);
      PickIsFirst(w.f1, spare, k);
      match PickMultiplier(w.f1, spare, k)
      case Failed =>
      case Drawn(g, l) =>
        assert FirstValid([w.f1] + spare[k..], l - k, g);
        DrawingStarts(w.oh, spare, l);
        DeduplicateDraws(w.oh, w.oh, 0, spare, l, [l]);
  }

  /** Preparing what has been prepared changes nothing and consumes nothing. */
  lemma PreparedIsFixed(w: RawParams, spare: seq<u64>, spare': seq<u64>)
    requires |spare| == 2 && Prepared(w, spare).Drawn?
    ensures Prepared(Prepared(w, spare).value, spare') == Drawn(Prepared(w, spare).value, 0)
  {
    hide Prepared, PickMultiplier;
    var v := Prepared(w, spare).value;
    PreparedIsValid(w, spare);
    MaskKeeps(v.f0);
    MaskKeeps(v.f1);
    ValidIsKept(v, spare');
  }

  lemma MaskKeeps(f: u64)
    requires Acceptable(f)
    ensures Mask(f) == f
  {
  }

  // ---------------------------------------------------------------- the struct

  lemma SquareReduces(f: u64)
    requires f < P
    ensures MulModFast(f, f) % P == f * f % P
  {
    hide MulModFast;
    Words.ProductBound(f, f, 0x2000_0000_0000_0000, W);
    MulModFastExact(f, f);
    ModModP(MulModFast(f, f));
    ModModP(f * f);
  }

  /** The parameters in memory: two pairs of multipliers, then the OH words. */
  class ParamsBuffer {
    /** Each row ends with a multiplier; its first word is spare until it holds the square. */
    const poly: array2<u64>
    const oh: array<u64>

    ghost predicate Shaped() {
      poly.Length0 == 2 && poly.Length1 == 2 && oh.Length == OH_WORDS
    }

    constructor (p00: u64, p01: u64, p10: u64, p11: u64, words: seq<u64>)
      requires |words| == OH_WORDS
      ensures Shaped() && fresh(poly) && fresh(oh)
      ensures poly[0, 0] == p00 && poly[0, 1] == p01 && poly[1, 0] == p10 && poly[1, 1] == p11
      ensures oh[..] == words
    {
      poly := new u64[2, 2];
      oh := new u64[OH_WORDS](i requires 0 <= i < |words| => words[i]);
      new;
      poly[0, 0], poly[0, 1], poly[1, 0], poly[1, 1] := p00, p01, p10, p11;
    }

    /** Whether one of the first `n` words is `needle`. */
    method ValueIsRepeated(n: nat, needle: u64) returns (found: bool)
      requires n <= oh.Length
      ensures found <==> needle in oh[..n]
    {
      for i := 0 to n
        invariant needle !in oh[..i]
      {
        if oh[i] == needle {
          return true;
        }
      }
      return false;
    }

    /** Draws the multiplier of row `i` and its square. */
    method PrepareRow(i: nat, spare: seq<u64>, used: nat) returns (d: Draw<u64>)
      requires Shaped() && i < 2 && used <= |spare|
      modifies poly
      ensures d == old(PickMultiplier(poly[i, 1], spare, used))
      ensures d.Drawn? ==> poly[i, 1] == d.value && poly[i, 0] == d.value * d.value % P
      ensures forall k :: 0 <= k < 2 && k != i ==>
                poly[k, 0] == old(poly[k, 0]) && poly[k, 1] == old(poly[k, 1])
    {
      var f := poly[i, 1];
      var idx := used;
      while true
        invariant used <= idx <= |spare|
        invariant PickMultiplier(f, spare, idx) == old(PickMultiplier(poly[i, 1], spare, used))
        invariant poly[0, 0] == old(poly[0, 0]) && poly[0, 1] == old(poly[0, 1])
        invariant poly[1, 0] == old(poly[1, 0]) && poly[1, 1] == old(poly[1, 1])
        decreases |spare| - idx
      {
        var masked := f % 0x2000_0000_0000_0000;
        if masked != 0 && masked < P {
          SquareReduces(masked);
          poly[i, 0] := MulModFast(masked, masked) % P;
          poly[i, 1] := masked;
          return Drawn(masked, idx);
        }
        if idx >= |spare| {
          return Failed;
        }
        f := spare[idx];
        idx := idx + 1;
      }
    }

    /** Replaces repeated OH words. */
    method PrepareOh(spare: seq<u64>, used: nat) returns (ok: bool)
      requires Shaped() && used <= |spare|
      modifies oh
      ensures var d := old(Deduplicate(oh[..], 0, spare, used));
              ok == d.Drawn? && (ok ==> oh[..] == d.value)
    {
      var idx := used;
      for i := 0 to OH_WORDS
        invariant used <= idx <= |spare|
        invariant Deduplicate(oh[..], i, spare, idx) == old(Deduplicate(oh[..], 0, spare, used))
      {
        while true
          invariant used <= idx <= |spare|
          invariant Deduplicate(oh[..], i, spare, idx) == old(Deduplicate(oh[..], 0, spare, used))
          decreases |spare| - idx
        {
          var repeated := ValueIsRepeated(i, oh[i]);
          assert oh[..][..i] == oh[..i];
          if !repeated {
            break;
          }
          if idx >= |spare| {
            return false;
          }
          ghost var before := oh[..];
          oh[i] := spare[idx];
          assert oh[..] == before[i := spare[idx]];
          idx := idx + 1;
        }
      }
      return true;
    }

    /** What preparation leaves behind: valid multipliers with their squares, and distinct words. */
    ghost predicate Ready()
      requires Shaped()
      reads poly, oh
    {
      && Acceptable(poly[0, 1]) && poly[0, 0] == poly[0, 1] * poly[0, 1] % P
      && Acceptable(poly[1, 1]) && poly[1, 0] == poly[1, 1] * poly[1, 1] % P
      && Distinct(oh[..])
    }

    /**
     * Makes the struct valid, drawing on the two words that the squares will overwrite. On
     * failure the contents are whatever was left.
     */
    method Prepare() returns (ok: bool)
      requires Shaped()
      modifies poly, oh
      ensures var w := old(RawParams(poly[0, 1], poly[1, 1], oh[..]));
              var d := Prepared(w, old([poly[0, 0], poly[1, 0]]));
              && ok == d.Drawn?
              && (ok ==> && poly[0, 1] == d.value.f0 && poly[0, 0] == d.value.f0 * d.value.f0 % P
                         && poly[1, 1] == d.value.f1 && poly[1, 0] == d.value.f1 * d.value.f1 % P
                         && oh[..] == d.value.oh)
      ensures ok ==> Ready()
      ensures old(Ready()) ==>
                && ok && oh[..] == old(oh[..])
                && poly[0, 0] == old(poly[0, 0]) && poly[0, 1] == old(poly[0, 1])
                && poly[1, 0] == old(poly[1, 0]) && poly[1, 1] == old(poly[1, 1])
    {
      hide PickMultiplier, Deduplicate, Distinct;
      ghost var w, spares := RawParams(poly[0, 1], poly[1, 1], oh[..]), [poly[0, 0], poly[1, 0]];
      PreparedIsValid(w, spares);
      ReadyIsKept(w, spares);
      var spare := [poly[0, 0], poly[1, 0]];
      PickUses(poly[0, 1], spare, 0);
      var d0 := PrepareRow(0, spare, 0);
      if d0.Failed? {
        return false;
      }
      PickUses(poly[1, 1], spare, d0.used);
      var d1 := PrepareRow(1, spare, d0.used);
      if d1.Failed? {
        return false;
      }
      ok := PrepareOh(spare, d1.used);
    }

    lemma ReadyIsKept(w: RawParams, spare: seq<u64>)
      ensures Acceptable(w.f0) && Acceptable(w.f1) && Distinct(w.oh) ==> Prepared(w, spare) == Drawn(w, 0)
    {
      hide Prepared;
      if Acceptable(w.f0) && Acceptable(w.f1) && Distinct(w.oh) {
        MaskKeeps(w.f0);
        MaskKeeps(w.f1);
        ValidIsKept(w, spare);
      }
    }

    /** Preparing twice is preparing once: the second call succeeds and leaves the struct alone. */
    method PrepareTwice() returns (first: bool, second: bool)
      requires Shaped()
      modifies poly, oh
      ensures var d := Prepared(old(RawParams(poly[0, 1], poly[1, 1], oh[..])), old([poly[0, 0], poly[1, 0]]));
              && first == d.Drawn?
              && (first ==> && second
                            && poly[0, 1] == d.value.f0 && poly[0, 0] == d.value.f0 * d.value.f0 % P
                            && poly[1, 1] == d.value.f1 && poly[1, 0] == d.value.f1 * d.value.f1 % P
                            && oh[..] == d.value.oh)
    {
      hide Prepared, Distinct;
      first := Prepare();
      second := Prepare();
    }

    lemma PickUses(f: u64, spare: seq<u64>, used: nat)
      requires used <= |spare|
      ensures var d := PickMultiplier(f, spare, used);
              d.Drawn? ==> d.value < P && used <= d.used <= |spare|
    {
      PickIsAcceptable(f, spare, used);
    }
  }
}
