/** The storage scenario of the C++ wrapper test: a RainflowT initialised
 *  with 10 classes of width 1 from -0.5 and hysteresis 1 is fed the block
 *  1, 6, 2, 8 twice and then finalized.  The turning point storage holds 3,
 *  then 7, then 8 tuples, with the values of the samples in order and no
 *  storage position in any of them.
 */
module RainflowWrapperTest {
  import opened Rainflow
  import opened RainflowEngine
  import opened RainflowContext
  import opened RainflowCpp

  /** The block of samples the test feeds twice. */
  const Block: seq<real> := [1.0, 6.0, 2.0, 8.0]

  /** Each block alternates in direction with steps of 4 to 7, beyond a
      hysteresis of 1. */
  lemma BlockReversing(c: Config)
    requires c.hysteresis == 1.0
    ensures Reversing(c, Block)
  {
    forall i | 1 <= i < |Block|
      ensures ReversesAt(c, Block, i)
    {
    }
  }

  /** So do the two blocks back to back: the step from 8 down to 1 reverses
      the step up to 8. */
  lemma BlockTwiceReversing(c: Config)
    requires c.hysteresis == 1.0
    ensures Reversing(c, Block + Block)
  {
    var d := Block + Block;
    assert d == [1.0, 6.0, 2.0, 8.0, 1.0, 6.0, 2.0, 8.0];
    forall i | 1 <= i < |d|
      ensures ReversesAt(c, d, i)
    {
    }
  }

  /** The engine's side of the test: the first feed releases 1, 6 and 2 and
      holds 8 back; the second releases that 8 and 1, 6, 2 of the second
      block; finalizing releases the last 8.  Together they are every sample
      in order. */
  lemma WrapperReleases(counts: CountsType, strict: bool)
    ensures var e0 := Initial(counts, strict);
            var t1 := FeedAll(e0, Block);
            var t2 := FeedAll(t1.engine, Block);
            var fin := FinishSpec(t2.engine, ResNone);
            && |t1.tps| == 3 && |t2.tps| == 4 && |fin.tps| == 1
            && t1.tps + t2.tps + fin.tps == Samples(e0.cfg, Block + Block)
  {
    var e0 := Initial(counts, strict);
    var c := e0.cfg;
    var d := Block + Block;
    var t1 := FeedAll(e0, Block);
    var t2 := FeedAll(t1.engine, Block);
    BlockReversing(c);
    BlockTwiceReversing(c);
    FeedAllReversing(e0, Block);
    FeedAllReversing(e0, d);
    FeedAllAppend(e0, Block, Block);
    assert FeedAll(e0, d) == Trace(t2.engine, t1.tps + t2.tps, t1.cycles + t2.cycles);
    assert t2.engine.state == BusyInterim && t2.engine.internal.interim == Sample(c, d[7], 8);
    assert Samples(c, d) == Samples(c, d[..7]) + [Sample(c, d[7], 8)];
  }

  /** Stored samples: their values in order, base-1 stream positions, and
      no storage position. */
  lemma SamplesStored(c: Config, data: seq<real>)
    requires c.classCount > 0 && c.classWidth > 0.0
    ensures var s := Samples(c, data);
            && Values(s) == data && Unreferenced(s)
            && forall i :: 0 <= i < |s| ==> s[i].pos == i + 1
  {
    ValuesSamples(c, data);
  }

  /** The context after RFC_init as the test calls it. */
  function Initial(counts: CountsType, strict: bool): (e: Rfc)
    ensures Wf(e) && e.state == Init && e.internal.pos == 0 && e.cfg.hysteresis == 1.0
  {
    Initialised(counts, 10, 1.0, -0.5, 1.0, strict)
  }

  /** A wrapper as the test sets it up: constructed, then initialised. */
  method Started(counts: CountsType, strict: bool) returns (rf: RainflowT)
    ensures fresh(rf) && fresh(rf.ctx) && fresh(rf.ctx.matrix) && rf.Valid()
    ensures rf.ctx.Model() == Initial(counts, strict) && rf.tp == []
  {
    rf := new RainflowT();
    var ok := rf.Init(counts, 10, 1.0, -0.5, 1.0, strict);
  }

  /** The set-up wrapper after its first feed. */
  method FedOnce(counts: CountsType, strict: bool, data: seq<real>) returns (rf: RainflowT)
    ensures fresh(rf) && fresh(rf.ctx) && fresh(rf.ctx.matrix) && rf.Valid()
    ensures rf.ctx.Model() == FeedAll(Initial(counts, strict), data).engine
    ensures rf.tp == FeedAll(Initial(counts, strict), data).tps
  {
    rf := Started(counts, strict);
    var ok := rf.Feed(data);
  }

  /** The test itself, on the wrapper: the storage sizes after each call and
      the stored tuples at the end: every sample of the two blocks, which
      SamplesStored shows to be the values 1, 6, 2, 8, 1, 6, 2, 8 with no
      storage position.  The test finalizes with RES_REPEATED;
      this finalizes with RES_NONE, which releases the same last turning
      point. */
  method WrapperStorage(counts: CountsType, strict: bool) returns (sizes: seq<nat>, stored: seq<ValueTuple>)
    ensures sizes == [3, 7, 8]
    ensures stored == Samples(Initial(counts, strict).cfg, Block + Block)
  {
    ghost var e0 := Initial(counts, strict);
    ghost var t1 := FeedAll(e0, Block);
    ghost var t2 := FeedAll(t1.engine, Block);
    ghost var fin := FinishSpec(t2.engine, ResNone);
    WrapperReleases(counts, strict);
    var rf := FedOnce(counts, strict, Block);
    var first: nat := |rf.tp|;
    var ok := rf.Feed(Block);
    var second: nat := |rf.tp|;
    ok := rf.Finalize(0);
    var third: nat := |rf.tp|;
    sizes, stored := [first, second, third], rf.tp;
  }
}
