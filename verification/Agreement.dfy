/** The incremental, the batch and the reference hash of the same bytes. */
module Agreement {
  import opened Words
  import opened Bytes
  import opened Umash
  import opened Sinks
  import Batch
  import Reference

  /** The input after all the pieces. */
  function Concat(pieces: seq<bytes>): bytes {
    if pieces == [] then [] else Concat(pieces[..|pieces| - 1]) + pieces[|pieces| - 1]
  }

  /** What hash 0 or hash 1 of the parameters is for some input. */
  function Wanted(params: Params, seed: u64, which: int, data: bytes): u64
    requires params.Valid()
  {
    if which == 0 then Hash(params.poly0.f, params.oh, seed, data, false)
    else Hash(params.poly1.f, params.oh, seed, data, true)
  }

  /** What the sink's own digests return. */
  lemma WantedIs(sink: Sink, which: int, data: bytes)
    requires sink.Valid()
    ensures sink.params.Valid()
    ensures Wanted(sink.params, sink.seed, which, data)
         == if which == 0 then Hash(sink.params.poly0.f, sink.params.oh, sink.seed, data, false)
            else Hash(sink.params.poly1.f, sink.params.oh, sink.seed, data, true)
  {
    hide Holds, Hash;
  }

  lemma ConcatNext(pieces: seq<bytes>, i: nat)
    requires i < |pieces|
    ensures Concat(pieces[..i + 1]) == Concat(pieces[..i]) + pieces[i]
  {
    assert pieces[..i + 1][..i] == pieces[..i];
  }

  lemma ConcatEnds(pieces: seq<bytes>)
    ensures Concat(pieces[..0]) == [] && Concat(pieces[..|pieces|]) == Concat(pieces)
  {
    assert pieces[..|pieces|] == pieces;
  }

  /** Feeds the pieces with indices from `a` below `b`. */
  method Feed(sink: Sink, wide: bool, pieces: seq<bytes>, a: nat, b: nat)
    requires sink.Valid() && a <= b <= |pieces| && sink.fed == Concat(pieces[..a])
    modifies sink, sink.buf
    ensures sink.Valid() && sink.fed == Concat(pieces[..b])
  {
    hide *;
    for i := a to b
      invariant sink.Valid() && sink.fed == Concat(pieces[..i])
    {
      ConcatNext(pieces, i);
      sink.Update(wide, pieces[i]);
    }
  }

  method FeedThenDigest(sink: Sink, wide: bool, pieces: seq<bytes>, a: nat, b: nat)
    returns (h: u64)
    requires sink.Valid() && a <= b <= |pieces| && sink.fed == Concat(pieces[..a])
    requires 0 <= sink.hashWanted <= 1
    modifies sink, sink.buf
    ensures sink.Valid() && sink.fed == Concat(pieces[..b])
    ensures h == Wanted(sink.params, sink.seed, sink.hashWanted, Concat(pieces[..b]))
  {
    hide *;
    Feed(sink, wide, pieces, a, b);
    WantedIs(sink, sink.hashWanted, Concat(pieces[..b]));
    h := sink.Digest();
  }

  method FeedThenFpDigest(sink: Sink, wide: bool, pieces: seq<bytes>, a: nat, b: nat)
    returns (h0: u64, h1: u64)
    requires sink.Valid() && a <= b <= |pieces| && sink.fed == Concat(pieces[..a])
    requires sink.hashWanted == 2
    modifies sink, sink.buf
    ensures sink.Valid() && sink.fed == Concat(pieces[..b])
    ensures h0 == Wanted(sink.params, sink.seed, 0, Concat(pieces[..b]))
    ensures h1 == Wanted(sink.params, sink.seed, 1, Concat(pieces[..b]))
  {
    hide *;
    Feed(sink, wide, pieces, a, b);
    WantedIs(sink, 0, Concat(pieces[..b]));
    WantedIs(sink, 1, Concat(pieces[..b]));
    var fp := sink.FpDigestSink();
    h0, h1 := fp.0, fp.1;
  }

  /**
   * Feeds an input piece by piece, with a digest after the first `k` pieces and another one at
   * the end. Each is the hash of the bytes so far, however they were split: the early digest
   * leaves the sink usable.
   */
  method FeedHash(wide: bool, params: Params, seed: u64, which: int, pieces: seq<bytes>, k: nat)
    returns (early: u64, last: u64)
    requires params.Valid() && k <= |pieces|
    ensures early == Wanted(params, seed, which, Concat(pieces[..k]))
    ensures last == Wanted(params, seed, which, Concat(pieces))
  {
    hide Hash, Sink.Valid, Concat;
    ConcatEnds(pieces);
    var sink := new Sink.Init(params, seed, which);
    early := FeedThenDigest(sink, wide, pieces, 0, k);
    last := FeedThenDigest(sink, wide, pieces, k, |pieces|);
  }

  /** The same for a fingerprint: both hashes at every step. */
  method FeedFingerprint(wide: bool, params: Params, seed: u64, pieces: seq<bytes>, k: nat)
    returns (early: (u64, u64), last: (u64, u64))
    requires params.Valid() && k <= |pieces|
    ensures early == (Wanted(params, seed, 0, Concat(pieces[..k])),
                      Wanted(params, seed, 1, Concat(pieces[..k])))
    ensures last == (Wanted(params, seed, 0, Concat(pieces)), Wanted(params, seed, 1, Concat(pieces)))
  {
    hide *;
    ConcatEnds(pieces);
    var sink := new Sink.FpInit(params, seed);
    var h0, h1 := FeedThenFpDigest(sink, wide, pieces, 0, k);
    early := (h0, h1);
    h0, h1 := FeedThenFpDigest(sink, wide, pieces, k, |pieces|);
    last := (h0, h1);
  }

  /**
   * The three programs agree on every input, for every split of it, on every processor: `wide`
   * and `wide'` are the dispatch decisions of the incremental and of the batch run.
   */
  method Compare(wide: bool, wide': bool, params: Params, seed: u64, which: int,
                 pieces: seq<bytes>)
    returns (incremental: u64, batch: u64, reference: u64)
    requires params.Valid()
    ensures incremental == batch == reference
  {
    hide Hash;
    var data := Concat(pieces);
    var early;
    early, incremental := FeedHash(wide, params, seed, which, pieces, 0);
    batch := Batch.UmashFull(wide', params, seed, which, data);
    var f := if which == 0 then params.poly0.f else params.poly1.f;
    reference := Reference.ReferenceHash(f, params.oh, seed, data, which != 0);
  }
}
