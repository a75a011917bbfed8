/** The residue buffer of RFC_init, 2 * class_count entries, on a whole run.
 *
 *  When the hysteresis is at least one class width and every sample lies
 *  inside the classed range, each step beyond the hysteresis changes the
 *  class in its own direction.  The turning points the filter releases then
 *  alternate in class, the four-point loop keeps the residue followed by the
 *  interim point alternating, and the residue never needs more than
 *  2 * class_count slots, the interim point included.
 */
module RainflowCapacity {
  import opened Rainflow
  import opened RainflowEngine
  import opened RainflowResidue

  /** The value lies in the classed range [class_offset, class_offset + class_count * class_width). */
  predicate Inside(classCount: nat, classWidth: real, classOffset: real, v: real)
  {
    classOffset <= v < classOffset + classCount as real * classWidth
  }

  /** The value lies in the classed range of the configuration. */
  predicate InRange(c: Config, v: real)
  {
    Inside(c.classCount, c.classWidth, c.classOffset, v)
  }

  /** The tuple's value lies in the interval of its class. */
  predicate Classed(c: Config, t: ValueTuple)
  {
    var lo := c.classOffset + t.cls as real * c.classWidth;
    CfgWf(c) && lo <= t.value < lo + c.classWidth
  }

  /** A sample inside the classed range lies in the interval of its class. */
  lemma SampleClassed(c: Config, v: real, n: nat)
    requires CfgWf(c) && InRange(c, v)
    ensures Classed(c, Sample(c, v, n))
  {
    var k := Sample(c, v, n).cls;
    assert (k + 1) as real * c.classWidth == k as real * c.classWidth + c.classWidth;
  }

  /** The hysteresis spans at least one class. */
  predicate Coarse(c: Config)
  {
    CfgWf(c) && c.hysteresis >= c.classWidth
  }

  /** Scaling by a positive width keeps the order of class indices. */
  lemma ScaledClasses(p: nat, q: nat, w: real)
    requires w > 0.0 && p as real * w < q as real * w
    ensures p < q
  {
    var x, y := p as real, q as real;
    if y <= x {
      ScaleLe(y, x, w);
    }
  }

  /** Of two class intervals of width w, the one holding a value at least w
      below a value in the other has the lower index. */
  lemma IntervalsOrdered(off: real, w: real, p: nat, q: nat, va: real, vb: real)
    requires w > 0.0
    requires off + p as real * w <= va && vb < off + q as real * w + w && va + w <= vb
    ensures p < q
  {
    ScaledClasses(p, q, w);
  }

  /** Two classed values at least one class width apart lie in different
      classes, in the same order. */
  lemma ClassesApart(c: Config, a: ValueTuple, b: ValueTuple)
    requires Classed(c, a) && Classed(c, b) && a.value + c.classWidth <= b.value
    ensures a.cls < b.cls
  {
    IntervalsOrdered(c.classOffset, c.classWidth, a.cls, b.cls, a.value, b.value);
  }

  /** With a hysteresis of at least one class width, a step beyond the
      hysteresis between classed values changes the class, in the direction
      of the step. */
  lemma StepClasses(c: Config, a: ValueTuple, b: ValueTuple)
    requires Coarse(c) && Classed(c, a) && Classed(c, b)
    requires Exceeds(Abs(b.value - a.value), c.hysteresis, c.strictHysteresis)
    ensures a.cls != b.cls
    ensures b.value > a.value <==> a.cls < b.cls
  {
    if b.value > a.value {
      ClassesApart(c, a, b);
    } else {
      ClassesApart(c, b, a);
    }
  }

  /** The class-level invariant of a run over classed samples: the extrema
      searched for in BUSY are classed, and in BUSY_INTERIM the newest
      residue entry and the interim point are classed and the residue
      followed by the interim point alternates in class. */
  ghost predicate Alternates(e: Rfc)
  {
    && (e.state == Busy ==> Classed(e.cfg, e.internal.lo) && Classed(e.cfg, e.internal.hi))
    && (e.state == BusyInterim ==>
          && e.residue != []
          && Classed(e.cfg, e.residue[|e.residue| - 1]) && Classed(e.cfg, e.internal.interim)
          && Alternating(e.residue + [e.internal.interim]))
  }

  /** In a counting state the residue and the pending interim point together
      take at most 2 * class_count slots. */
  lemma PendingFits(e: Rfc)
    requires Inv(e) && Feeding(e.state) && Alternates(e)
    ensures |e.residue| + (if e.state == BusyInterim then 1 else 0) <= 2 * e.cfg.classCount
  {
    if e.state == BusyInterim {
      PushFits(e.residue, e.internal.interim, e.cfg.classCount);
    }
  }

  /** A classed sample in BUSY keeps the invariant; the first turning point
      it may release goes into an empty residue. */
  lemma BusyAlternates(e: Rfc, v: real)
    requires Inv(e) && e.state == Busy && Coarse(e.cfg) && InRange(e.cfg, v) && Alternates(e)
    ensures var u := FeedOne(e, v);
            Alternates(u.engine) && |e.residue| + |u.tps| <= 2 * e.cfg.classCount
  {
    var c := e.cfg;
    var u := FeedOne(e, v);
    var pt := Sample(c, v, e.internal.pos + 1);
    SampleClassed(c, v, e.internal.pos + 1);
    FeedOneBusy(e, v);
    if u.tps != [] {
      var tp := u.tps[0];
      FeedOneSettles(e, v);
      assert e.residue + u.tps == [tp];
      assert u.engine.residue == [tp];
      StepClasses(c, tp, pt);
      assert u.engine.residue + [u.engine.internal.interim] == [tp, pt];
    }
  }

  /** A release on the level of the residue: the interim point oi goes onto
      the residue, the loop settles it, and a new interim point pt reversing
      the step into oi turns the direction at oi, in a class of its own. */
  lemma SettleThenReverse(c: Config, r: seq<ValueTuple>, oi: ValueTuple, pt: ValueTuple)
    requires Coarse(c) && r != [] && Stable(r) && Alternating(r + [oi]) && InClasses(r + [oi], c.classCount)
    requires Classed(c, r[|r| - 1]) && Classed(c, oi) && Classed(c, pt)
    requires Exceeds(Abs(oi.value - r[|r| - 1].value), c.hysteresis, c.strictHysteresis)
    requires Exceeds(Abs(pt.value - oi.value), c.hysteresis, c.strictHysteresis)
    requires Sign(pt.value - oi.value) * Sign(oi.value - r[|r| - 1].value) < 0
    ensures |r + [oi]| <= 2 * c.classCount
    ensures var s := Settle(r + [oi]).residue;
            s != [] && s[|s| - 1] == oi && Alternating(s + [pt])
  {
    var top := r[|r| - 1];
    var p := r + [oi];
    PushFits(r, oi, c.classCount);
    var s := Settle(p).residue;
    SettleKeepsPrefix(p);
    SettleAlternating(p);
    SettleLastStep(p);
    StepClasses(c, top, oi);
    StepClasses(c, oi, pt);
    assert s[|s| - 1] == oi;
    AlternatingSnoc(s, pt);
  }

  /** The steps behind InterimAlternates when the interim point is released. */
  lemma ReleaseAlternates(e: Rfc, v: real)
    requires Inv(e) && e.state == BusyInterim && Coarse(e.cfg) && InRange(e.cfg, v) && Alternates(e)
    requires FeedOne(e, v).tps != []
    ensures var u := FeedOne(e, v);
            Alternates(u.engine) && |e.residue| + |u.tps| <= 2 * e.cfg.classCount
  {
    var c := e.cfg;
    var r, oi := e.residue, e.internal.interim;
    var u := FeedOne(e, v);
    var pt := Sample(c, v, e.internal.pos + 1);
    SampleClassed(c, v, e.internal.pos + 1);
    FeedOneInterim(e, v);
    FeedOneSettles(e, v);
    assert u.tps == [oi] && e.residue + u.tps == r + [oi];
    assert u.engine.residue == Settle(r + [oi]).residue;
    assert u.engine.internal.interim == pt;
    var top := r[|r| - 1];
    assert Stable(r) && Alternating(r + [oi]);
    assert InClasses(r + [oi], c.classCount) by {
      forall i | 0 <= i < |r| + 1
        ensures (r + [oi])[i].cls < c.classCount
      {
        if i < |r| { assert (r + [oi])[i] == r[i]; }
      }
    }
    assert Exceeds(Abs(oi.value - top.value), c.hysteresis, c.strictHysteresis);
    assert Sign(oi.value - top.value) == e.internal.slope;
    assert pt.value == v;
    assert Exceeds(Abs(pt.value - oi.value), c.hysteresis, c.strictHysteresis);
    assert Sign(pt.value - oi.value) * e.internal.slope < 0;
    SettleThenReverse(c, r, oi, pt);
  }

  /** A classed sample in BUSY_INTERIM keeps the invariant, and a released
      interim point fits onto the residue. */
  lemma InterimAlternates(e: Rfc, v: real)
    requires Inv(e) && e.state == BusyInterim && Coarse(e.cfg) && InRange(e.cfg, v) && Alternates(e)
    ensures var u := FeedOne(e, v);
            Alternates(u.engine) && |e.residue| + |u.tps| <= 2 * e.cfg.classCount
  {
    var c := e.cfg;
    var r, oi := e.residue, e.internal.interim;
    var u := FeedOne(e, v);
    FeedOneInterim(e, v);
    if u.tps != [] {
      ReleaseAlternates(e, v);
    } else {
      PushFits(r, oi, c.classCount);
      if u.engine.internal.interim != oi {
        var pt := Sample(c, v, e.internal.pos + 1);
        SampleClassed(c, v, e.internal.pos + 1);
        assert u.engine.internal.interim == pt;
        FeedOneInv(e, v);
        StepClasses(c, r[|r| - 1], oi);
        StepClasses(c, r[|r| - 1], pt);
        AlternatingReplaceLast(r, oi, pt);
      }
    }
  }

  /** A classed sample keeps the invariant, and whatever it releases fits
      onto the residue. */
  lemma FeedOneAlternates(e: Rfc, v: real)
    requires Inv(e) && Feeding(e.state) && Coarse(e.cfg) && InRange(e.cfg, v) && Alternates(e)
    ensures var u := FeedOne(e, v);
            Alternates(u.engine) && |e.residue| + |u.tps| <= 2 * e.cfg.classCount
  {
    if e.state == Init {
      FeedOneFirst(e, v);
      SampleClassed(e.cfg, v, e.internal.pos + 1);
    } else if e.state == Busy {
      BusyAlternates(e, v);
    } else {
      InterimAlternates(e, v);
    }
  }

  /** Every sample lies in the classed range. */
  predicate AllInRange(c: Config, data: seq<real>)
  {
    forall i :: 0 <= i < |data| ==> InRange(c, data[i])
  }

  /** From a freshly initialised context, on classed samples with a
      hysteresis of at least one class width, the residue alternates in
      class, and the residue with the pending interim point fits into
      2 * class_count slots after every sample. */
  lemma {:induction false} FeedAllAlternates(e: Rfc, data: seq<real>)
    requires Inv(e) && e.state == Init && Coarse(e.cfg) && AllInRange(e.cfg, data)
    ensures var t := FeedAll(e, data);
            && Inv(t.engine) && Feeding(t.engine.state) && Alternates(t.engine)
            && |t.engine.residue| + (if t.engine.state == BusyInterim then 1 else 0) <= 2 * e.cfg.classCount
    decreases |data|
  {
    FeedAllInv(e, data);
    if data != [] {
      var init := data[..|data| - 1];
      assert AllInRange(e.cfg, init) by {
        forall i | 0 <= i < |init|
          ensures InRange(e.cfg, init[i])
        {
          assert init[i] == data[i];
        }
      }
      FeedAllAlternates(e, init);
      var t := FeedAll(e, init);
      FeedOneAlternates(t.engine, data[|data| - 1]);
    }
    PendingFits(FeedAll(e, data).engine);
  }

  /** Finishing after classed samples pushes the pending interim point into
      the room left for it: the residue left is stable, alternating in class
      and shorter than 2 * class_count. */
  lemma FinishFits(e: Rfc, residual: ResidualMethod)
    requires Inv(e) && Feeding(e.state) && Alternates(e)
    ensures var r := FinishSpec(e, residual).engine.residue;
            Stable(r) && Alternating(r) && |r| < 2 * e.cfg.classCount
  {
    if e.state == BusyInterim {
      PushFits(e.residue, e.internal.interim, e.cfg.classCount);
    }
  }

  /** A whole run over samples inside the classed range, with a hysteresis of
      at least one class width, never needs more than the 2 * class_count
      residue slots RFC_init provides: after every sample the residue and the
      interim point fit, and the residue it leaves is stable, alternating in
      class and shorter than 2 * class_count. */
  lemma RunFits(counts: CountsType, classCount: nat, classWidth: real, classOffset: real,
                hysteresis: real, strict: bool, data: seq<real>, residual: ResidualMethod)
    requires classCount > 0 && classWidth > 0.0 && hysteresis >= classWidth
    requires forall i :: 0 <= i < |data| ==> Inside(classCount, classWidth, classOffset, data[i])
    ensures var e0 := Initialised(counts, classCount, classWidth, classOffset, hysteresis, strict);
            forall k :: 0 <= k <= |data| ==> PendingWithin(FeedAll(e0, data[..k]).engine, classCount)
    ensures var r := Run(counts, classCount, classWidth, classOffset, hysteresis, strict, data, residual).engine.residue;
            Stable(r) && Alternating(r) && |r| < 2 * classCount
  {
    var e0 := Initialised(counts, classCount, classWidth, classOffset, hysteresis, strict);
    assert Run(counts, classCount, classWidth, classOffset, hysteresis, strict, data, residual).engine.residue
        == FinishSpec(FeedAll(e0, data).engine, residual).engine.residue;
    InitialisedInv(counts, classCount, classWidth, classOffset, hysteresis, strict);
    assert AllInRange(e0.cfg, data);
    PrefixesFit(e0, data);
    FeedFinishFits(e0, data, residual);
  }

  /** The residue and the pending interim point take at most 2 * class_count slots. */
  predicate PendingWithin(e: Rfc, classCount: nat)
  {
    |e.residue| + (if e.state == BusyInterim then 1 else 0) <= 2 * classCount
  }

  /** From INIT, on classed samples with a hysteresis of at least one class
      width, the residue and the pending interim point fit into
      2 * class_count slots after every prefix of the samples. */
  lemma PrefixesFit(e: Rfc, data: seq<real>)
    requires Inv(e) && e.state == Init && Coarse(e.cfg) && AllInRange(e.cfg, data)
    ensures forall k :: 0 <= k <= |data| ==> PendingWithin(FeedAll(e, data[..k]).engine, e.cfg.classCount)
  {
    forall k | 0 <= k <= |data|
      ensures PendingWithin(FeedAll(e, data[..k]).engine, e.cfg.classCount)
    {
      var p := data[..k];
      assert AllInRange(e.cfg, p) by {
        forall i | 0 <= i < |p|
          ensures InRange(e.cfg, p[i])
        {
          assert p[i] == data[i];
        }
      }
      FeedAllAlternates(e, p);
    }
  }

  /** Feeding classed samples from INIT and finishing leaves a stable,
      class-alternating residue shorter than 2 * class_count. */
  lemma FeedFinishFits(e: Rfc, data: seq<real>, residual: ResidualMethod)
    requires Inv(e) && e.state == Init && Coarse(e.cfg) && AllInRange(e.cfg, data)
    ensures var r := FinishSpec(FeedAll(e, data).engine, residual).engine.residue;
            Stable(r) && Alternating(r) && |r| < 2 * e.cfg.classCount
  {
    FeedAllAlternates(e, data);
    FinishFits(FeedAll(e, data).engine, residual);
  }
}
