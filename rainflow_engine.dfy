/** The rainflow context rfc_ctx of rainflow.h as a value, and RFC_init,
 *  RFC_feed, RFC_finalize and RFC_deinit as functions on it.
 *
 *  Per sample the engine advances the stream position, classifies the value,
 *  runs the hysteresis and peak-valley filter (FilterPoint) and, whenever the
 *  filter releases a turning point, pushes it onto the residue and runs the
 *  four-point closure (Push).  The imperative context in RainflowContext is
 *  proved against these functions.
 */
module RainflowEngine {
  import opened Rainflow

  /** The counting states of rfc_ctx.state. */
  datatype State = Init0 | Init | Busy | BusyInterim | Finalize | Finished | Error

  /** The residual methods of the minimal build: both leave the residue as it is. */
  datatype ResidualMethod = ResNone | ResIgnore

  /** The residual_method argument of RFC_finalize: RFC_RES_NONE is 0 and
      RFC_RES_IGNORE is 1; any other code is invalid. */
  function ResidualOf(code: int): (r: Option<ResidualMethod>)
    ensures r.Some? <==> code == 0 || code == 1
    ensures r == Some(ResNone) <==> code == 0
  {
    if code == 0 then Some(ResNone) else if code == 1 then Some(ResIgnore) else None
  }

  /** The increments, the class parameters and the hysteresis: fixed by RFC_init. */
  datatype Config = Config(
    fullInc: real,
    halfInc: real,
    classCount: nat,
    classWidth: real,
    classOffset: real,
    hysteresis: real,
    strictHysteresis: bool)

  /** rfc_ctx.internal: the current slope, the local extrema (extrema[0] is
      the minimum, extrema[1] the maximum), the interim turning point and the
      stream position of the last sample. */
  datatype Search = Search(slope: int, lo: ValueTuple, hi: ValueTuple, interim: ValueTuple, pos: nat)

  /** rfc_ctx: counting state, residual method, parameters, the residue stack,
      the dense matrix (row = from class, column = to class) and the search. */
  datatype Rfc = Rfc(
    state: State,
    residualMethod: ResidualMethod,
    cfg: Config,
    residue: seq<ValueTuple>,
    matrix: seq<real>,
    internal: Search)

  const NoSearch := Search(0, ZeroTuple, ZeroTuple, ZeroTuple, 0)

  /** A context as zero-initialised storage holds it, before RFC_init. */
  const Zeroed := Rfc(Init0, ResNone, Config(0.0, 0.0, 0, 0.0, 0.0, 0.0, false), [], [], NoSearch)

  /** The states in which RFC_feed and RFC_finalize accept a call. */
  predicate Feeding(s: State)
  {
    s == Init || s == Busy || s == BusyInterim
  }

  predicate CfgWf(c: Config)
  {
    c.classCount > 0 && c.classWidth > 0.0 && c.hysteresis >= 0.0
  }

  predicate SearchWf(s: Search, classCount: nat)
  {
    s.lo.cls < classCount && s.hi.cls < classCount && s.interim.cls < classCount
  }

  /** Well-formed context: valid parameters, a class_count x class_count
      matrix, every stored class inside the class range. */
  predicate Wf(e: Rfc)
  {
    && CfgWf(e.cfg)
    && |e.matrix| == e.cfg.classCount * e.cfg.classCount
    && InClasses(e.residue, e.cfg.classCount)
    && SearchWf(e.internal, e.cfg.classCount)
  }

  /** The context RFC_init builds from valid parameters: the increments of
      the counts type, an empty residue, an all-zero matrix and a fresh search. */
  function Initialised(counts: CountsType, classCount: nat, classWidth: real, classOffset: real,
                       hysteresis: real, strict: bool): (e: Rfc)
    requires classCount > 0 && classWidth > 0.0 && hysteresis >= 0.0
    ensures Wf(e) && e.state == Init && e.residue == [] && e.internal.pos == 0
    ensures e.cfg.classCount == classCount && e.cfg.fullInc == FullIncrement(counts)
    ensures Total(e.matrix) == 0.0 && forall i :: 0 <= i < |e.matrix| ==> e.matrix[i] == 0.0
  {
    var cfg := Config(FullIncrement(counts), HalfIncrement(counts), classCount, classWidth, classOffset,
                      hysteresis, strict);
    Rfc(Init, ResNone, cfg, [], Zeros(classCount * classCount), NoSearch)
  }

  /** RFC_init: accepted only on a zero-initialised context (state INIT0);
      invalid class parameters or a negative hysteresis put the context into
      the error state. */
  function InitSpec(e: Rfc, counts: CountsType, classCount: nat, classWidth: real, classOffset: real,
                    hysteresis: real, strict: bool): (r: (bool, Rfc))
    ensures r.0 <==> e.state == Init0 && classCount > 0 && classWidth > 0.0 && hysteresis >= 0.0
    ensures e.state != Init0 ==> r.1 == e
    ensures e.state == Init0 && !r.0 ==> r.1 == e.(state := Error)
    ensures r.0 ==> Wf(r.1) && r.1.state == Init && r.1.residue == [] && Total(r.1.matrix) == 0.0
  {
    if e.state != Init0 then (false, e)
    else if classCount == 0 || classWidth <= 0.0 || hysteresis < 0.0 then (false, e.(state := Error))
    else (true, Initialised(counts, classCount, classWidth, classOffset, hysteresis, strict))
  }

  /** RFC_deinit: storage released and the context back in state INIT0. */
  function DeinitSpec(e: Rfc): (r: Rfc)
    ensures r.state == Init0 && r.residue == [] && r.matrix == []
  {
    e.(state := Init0, residue := [], matrix := [])
  }

  /** After RFC_deinit the context accepts RFC_init again, whatever state it was in. */
  lemma DeinitAllowsInit(e: Rfc, counts: CountsType, classCount: nat, classWidth: real, classOffset: real,
                         hysteresis: real, strict: bool)
    requires classCount > 0 && classWidth > 0.0 && hysteresis >= 0.0
    ensures InitSpec(DeinitSpec(e), counts, classCount, classWidth, classOffset, hysteresis, strict).0
    ensures !InitSpec(InitSpec(DeinitSpec(e), counts, classCount, classWidth, classOffset, hysteresis, strict).1,
                      counts, classCount, classWidth, classOffset, hysteresis, strict).0
  {
  }

  /* ---------------------------------------------------------------------- */
  /* Hysteresis and peak-valley filtering                                    */
  /* ---------------------------------------------------------------------- */

  /** A reversal counts when it exceeds the hysteresis (or reaches it, in the
      non-strict variant). */
  predicate Exceeds(delta: real, hysteresis: real, strict: bool)
  {
    if strict then delta > hysteresis else delta >= hysteresis
  }

  function Sign(x: real): int
  {
    if x > 0.0 then 1 else if x < 0.0 then -1 else 0
  }

  function Abs(x: real): real
  {
    if x < 0.0 then -x else x
  }

  /** The state of the search after one point, and the turning point it released. */
  datatype Filtered = Filtered(state: State, internal: Search, tp: Option<ValueTuple>)

  /** The turning point search for one new point.  While no turning point is
      known (Busy) the local extrema are tracked; once they lie further apart
      than the hysteresis the older one is released as the first turning
      point and the newer one becomes the interim turning point.  Afterwards
      (BusyInterim) a reversal beyond the hysteresis releases the interim
      point and makes the new point the interim one, a continued slope moves
      the interim point, and anything else is ignored. */
  function FilterPoint(state: State, c: Config, s: Search, pt: ValueTuple): (f: Filtered)
    requires SearchWf(s, c.classCount) && pt.cls < c.classCount
    ensures SearchWf(f.internal, c.classCount) && f.internal.pos == s.pos
    ensures f.tp.Some? ==> f.state == BusyInterim && f.internal.interim == pt
    ensures f.tp.Some? ==> Exceeds(Abs(pt.value - f.tp.value.value), c.hysteresis, c.strictHysteresis)
    ensures f.tp.Some? && s.lo.value <= s.hi.value ==>
              f.internal.slope == Sign(pt.value - f.tp.value.value) && f.internal.slope != 0
    ensures f.tp.Some? ==> f.tp.value == (if state == Busy then (if f.internal.slope < 0 then s.hi else s.lo) else s.interim)
    ensures f.tp.None? ==> f.state == (if state == Init then Busy else state)
  {
    match state
    case Init =>
      Filtered(Busy, s.(lo := pt, hi := pt), None)
    case Busy =>
      if pt.value < s.lo.value then
        if Exceeds(s.hi.value - pt.value, c.hysteresis, c.strictHysteresis) then
          Filtered(BusyInterim, s.(lo := pt, slope := -1, interim := pt), Some(s.hi))
        else
          Filtered(Busy, s.(lo := pt), None)
      else if pt.value > s.hi.value then
        if Exceeds(pt.value - s.lo.value, c.hysteresis, c.strictHysteresis) then
          Filtered(BusyInterim, s.(hi := pt, slope := 1, interim := pt), Some(s.lo))
        else
          Filtered(Busy, s.(hi := pt), None)
      else
        Filtered(Busy, s, None)
    case BusyInterim =>
      var delta := pt.value - s.interim.value;
      var dir := Sign(delta);
      if dir * s.slope < 0 && Exceeds(Abs(delta), c.hysteresis, c.strictHysteresis) then
        Filtered(BusyInterim, s.(interim := pt, slope := dir), Some(s.interim))
      else if dir * s.slope > 0 then
        Filtered(BusyInterim, s.(interim := pt), None)
      else
        Filtered(BusyInterim, s, None)
    case _ =>
      Filtered(state, s, None)
  }

  /* ---------------------------------------------------------------------- */
  /* Feeding and finalising                                                  */
  /* ---------------------------------------------------------------------- */

  /** What a step did: the new context, the turning points it released and
      the cycles it closed, in order. */
  datatype Trace = Trace(engine: Rfc, tps: seq<ValueTuple>, cycles: seq<Cycle>)

  /** A released turning point enters the residue, the four-point closure runs
      and every closed cycle is counted with the full increment. */
  function Push(e: Rfc, tp: ValueTuple): (t: Trace)
    requires Wf(e) && tp.cls < e.cfg.classCount
    ensures Wf(t.engine) && t.tps == [tp] && CyclesIn(t.cycles, e.cfg.classCount)
    ensures t.engine.state == e.state && t.engine.cfg == e.cfg && t.engine.internal == e.internal
    ensures t.engine.residualMethod == e.residualMethod
    ensures |t.engine.residue| + 2 * |t.cycles| == |e.residue| + 1
    ensures t.engine.residue != [] && t.engine.residue[|t.engine.residue| - 1] == tp
    ensures t.engine.matrix == CountCycles(e.matrix, e.cfg.classCount, e.cfg.fullInc, t.cycles)
  {
    var r := e.residue + [tp];
    assert InClasses(r, e.cfg.classCount);
    SettleClasses(r, e.cfg.classCount);
    SettleKeepsPrefix(r);
    var s := Settle(r);
    var m := CountCycles(e.matrix, e.cfg.classCount, e.cfg.fullInc, s.cycles);
    Trace(e.(residue := s.residue, matrix := m), [tp], s.cycles)
  }

  /** The four-point loop over the whole residue, with every closed cycle
      counted into the matrix; the other fields stay as they are. */
  function Closed(e: Rfc): (t: Trace)
    requires Wf(e)
    ensures Wf(t.engine) && t.tps == [] && CyclesIn(t.cycles, e.cfg.classCount)
    ensures t.engine == e.(residue := t.engine.residue, matrix := t.engine.matrix)
    ensures Settled(t.engine.residue, t.cycles) == Settle(e.residue)
    ensures t.engine.matrix == CountCycles(e.matrix, e.cfg.classCount, e.cfg.fullInc, t.cycles)
  {
    SettleClasses(e.residue, e.cfg.classCount);
    var s := Settle(e.residue);
    Trace(e.(residue := s.residue, matrix := CountCycles(e.matrix, e.cfg.classCount, e.cfg.fullInc, s.cycles)),
          [], s.cycles)
  }

  /** The tuple of the n-th sample (base 1) with value v. */
  function Sample(c: Config, v: real, n: nat): (pt: ValueTuple)
    requires c.classCount > 0 && c.classWidth > 0.0
    ensures pt.value == v && pt.pos == n && pt.cls < c.classCount
  {
    ValueTuple(v, Classify(c.classCount, c.classWidth, c.classOffset, v), n, 0, 0.0)
  }

  /** The effect of a filtered point on the context: the new search state,
      and the four-point closure when a turning point was released. */
  function Apply(e: Rfc, f: Filtered): (t: Trace)
    requires Wf(e) && SearchWf(f.internal, e.cfg.classCount)
    requires f.tp.Some? ==> f.tp.value.cls < e.cfg.classCount
    ensures Wf(t.engine) && t.engine.state == f.state && t.engine.internal == f.internal
    ensures t.tps == (if f.tp.Some? then [f.tp.value] else [])
    ensures t.engine.cfg == e.cfg && t.engine.residualMethod == e.residualMethod
    ensures |t.engine.residue| + 2 * |t.cycles| == |e.residue| + |t.tps|
    ensures f.tp.None? ==> t.engine.residue == e.residue && t.cycles == []
    ensures CyclesIn(t.cycles, e.cfg.classCount)
    ensures t.engine.matrix == CountCycles(e.matrix, e.cfg.classCount, e.cfg.fullInc, t.cycles)
  {
    var e1 := e.(state := f.state, internal := f.internal);
    match f.tp
    case None => Trace(e1, [], [])
    case Some(tp) => Push(e1, tp)
  }

  /** One sample: stream position and class, the turning point search, and
      the four-point closure when a turning point was released. */
  function FeedOne(e: Rfc, v: real): (t: Trace)
    requires Wf(e)
    ensures Wf(t.engine) && t.engine.internal.pos == e.internal.pos + 1 && |t.tps| <= 1
    ensures t.engine.cfg == e.cfg && t.engine.residualMethod == e.residualMethod
    ensures |t.engine.residue| + 2 * |t.cycles| == |e.residue| + |t.tps|
    ensures CyclesIn(t.cycles, e.cfg.classCount)
    ensures t.engine.matrix == CountCycles(e.matrix, e.cfg.classCount, e.cfg.fullInc, t.cycles)
  {
    var s := e.internal.(pos := e.internal.pos + 1);
    Apply(e, FilterPoint(e.state, e.cfg, s, Sample(e.cfg, v, s.pos)))
  }

  /** The samples of RFC_feed, one after the other. */
  function FeedAll(e: Rfc, data: seq<real>): (t: Trace)
    requires Wf(e)
    ensures Wf(t.engine) && t.engine.internal.pos == e.internal.pos + |data| && |t.tps| <= |data|
    ensures t.engine.cfg == e.cfg && t.engine.residualMethod == e.residualMethod
    decreases |data|
  {
    if data == [] then Trace(e, [], [])
    else
      var t := FeedAll(e, data[..|data| - 1]);
      var u := FeedOne(t.engine, data[|data| - 1]);
      Trace(u.engine, t.tps + u.tps, t.cycles + u.cycles)
  }

  /** Feeding one more sample after a stretch of samples. */
  lemma FeedAllSnoc(e: Rfc, data: seq<real>, v: real)
    requires Wf(e)
    ensures var t := FeedAll(e, data);
            var u := FeedOne(t.engine, v);
            FeedAll(e, data + [v]) == Trace(u.engine, t.tps + u.tps, t.cycles + u.cycles)
  {
    assert (data + [v])[..|data|] == data;
  }

  /** Feeding two stretches of samples one after the other is feeding their
      concatenation: the turning points and cycles of the second call follow
      those of the first. */
  lemma {:induction false} FeedAllAppend(e: Rfc, a: seq<real>, b: seq<real>)
    requires Wf(e)
    ensures var t := FeedAll(e, a);
            var u := FeedAll(t.engine, b);
            FeedAll(e, a + b) == Trace(u.engine, t.tps + u.tps, t.cycles + u.cycles)
    decreases |b|
  {
    var t := FeedAll(e, a);
    if b == [] {
      assert a + b == a;
    } else {
      var b0 := b[..|b| - 1];
      var v := b[|b| - 1];
      FeedAllAppend(e, a, b0);
      SnocSplit(a, b);
      FeedAllSnoc(e, a + b0, v);
      FeedAllSnoc(t.engine, b0, v);
      var u0 := FeedAll(t.engine, b0);
      var w := FeedOne(u0.engine, v);
      AppendAssoc(t.tps, u0.tps, w.tps);
      AppendAssoc(t.cycles, u0.cycles, w.cycles);
    }
  }

  /** The values of the tuples of a stretch of samples are its values. */
  lemma ValuesSamples(c: Config, data: seq<real>)
    requires c.classCount > 0 && c.classWidth > 0.0
    ensures Values(Samples(c, data)) == data
  {
  }

  /** One sample either releases nothing and leaves the residue alone, or
      releases one turning point that the four-point loop settles. */
  lemma FeedOneSettles(e: Rfc, v: real)
    requires Wf(e)
    ensures var t := FeedOne(e, v);
            && (t.tps == [] ==> t.engine.residue == e.residue && t.cycles == [])
            && (t.tps != [] ==> Settled(t.engine.residue, t.cycles) == Settle(e.residue + t.tps))
  {
    var s := e.internal.(pos := e.internal.pos + 1);
    var f := FilterPoint(e.state, e.cfg, s, Sample(e.cfg, v, s.pos));
    ApplySettles(e, f);
    assert FeedOne(e, v) == Apply(e, f);
  }

  /** The step behind FeedOneSettles, for any outcome of the filter. */
  lemma ApplySettles(e: Rfc, f: Filtered)
    requires Wf(e) && SearchWf(f.internal, e.cfg.classCount)
    requires f.tp.Some? ==> f.tp.value.cls < e.cfg.classCount
    ensures var t := Apply(e, f);
            && (t.tps == [] ==> t.engine.residue == e.residue && t.cycles == [])
            && (t.tps != [] ==> Settled(t.engine.residue, t.cycles) == Settle(e.residue + t.tps))
  {
  }

  /** Over any stretch of samples the residue and the closed cycles are what
      the four-point method makes of the released turning points: the
      turning point search and the counting are separate stages. */
  lemma {:induction false} FeedAllFourPoint(e: Rfc, data: seq<real>)
    requires Wf(e)
    ensures var t := FeedAll(e, data);
            Settled(t.engine.residue, t.cycles) == FourPoint(e.residue, t.tps)
    decreases |data|
  {
    if data != [] {
      var init := data[..|data| - 1];
      FeedAllFourPoint(e, init);
      var t := FeedAll(e, init);
      var u := FeedOne(t.engine, data[|data| - 1]);
      FeedOneSettles(t.engine, data[|data| - 1]);
      if u.tps == [] {
        assert t.tps + u.tps == t.tps;
      } else {
        assert u.tps == [u.tps[0]];
        FourPointSnoc(e.residue, t.tps, u.tps[0]);
      }
    }
  }

  /** Over any stretch of samples every released turning point is either in
      the residue or one of the two ends of a closed cycle. */
  lemma {:induction false} FeedAllTurningPoints(e: Rfc, data: seq<real>)
    requires Wf(e)
    ensures var t := FeedAll(e, data);
            |t.engine.residue| + 2 * |t.cycles| == |e.residue| + |t.tps|
    decreases |data|
  {
    if data != [] {
      FeedAllTurningPoints(e, data[..|data| - 1]);
    }
  }

  /** After any stretch of samples the matrix holds exactly the cycles closed
      on the way, each counted once with the full increment into its
      directional cell. */
  lemma {:induction false} FeedAllMatrix(e: Rfc, data: seq<real>)
    requires Wf(e)
    ensures var t := FeedAll(e, data);
            && CyclesIn(t.cycles, e.cfg.classCount)
            && t.engine.matrix == CountCycles(e.matrix, e.cfg.classCount, e.cfg.fullInc, t.cycles)
    decreases |data|
  {
    if data != [] {
      var init := data[..|data| - 1];
      FeedAllMatrix(e, init);
      var t := FeedAll(e, init);
      var u := FeedOne(t.engine, data[|data| - 1]);
      CountCyclesAppend(e.matrix, e.cfg.classCount, e.cfg.fullInc, t.cycles, u.cycles);
    }
  }

  /** The matrix total grows by one full increment per closed cycle. */
  lemma FeedAllTotal(e: Rfc, data: seq<real>)
    requires Wf(e)
    ensures var t := FeedAll(e, data);
            Total(t.engine.matrix) == Total(e.matrix) + Times(|t.cycles|, e.cfg.fullInc)
  {
    FeedAllMatrix(e, data);
  }

  /** The tuples of a stretch of samples, the first at stream position 1. */
  function Samples(c: Config, data: seq<real>): (tps: seq<ValueTuple>)
    requires c.classCount > 0 && c.classWidth > 0.0
    ensures |tps| == |data|
    ensures forall i :: 0 <= i < |data| ==> tps[i] == Sample(c, data[i], i + 1)
  {
    if data == [] then [] else Samples(c, data[..|data| - 1]) + [Sample(c, data[|data| - 1], |data|)]
  }

  /** Sample i reverses the direction of the step before it, and its own step
      exceeds the hysteresis. */
  predicate ReversesAt(c: Config, data: seq<real>, i: nat)
    requires 1 <= i < |data|
  {
    && Sign(data[i] - data[i - 1]) != 0
    && Exceeds(Abs(data[i] - data[i - 1]), c.hysteresis, c.strictHysteresis)
    && (i >= 2 ==> Sign(data[i] - data[i - 1]) == -Sign(data[i - 1] - data[i - 2]))
  }

  /** A signal that is already peak-valley filtered: every sample reverses the
      direction of the previous step, and every step exceeds the hysteresis. */
  predicate Reversing(c: Config, data: seq<real>)
  {
    forall i :: 1 <= i < |data| ==> ReversesAt(c, data, i)
  }

  /** What is peak-valley filtered stays so when the newest sample is dropped. */
  lemma ReversingPrefix(c: Config, data: seq<real>)
    requires Reversing(c, data) && data != []
    ensures Reversing(c, data[..|data| - 1])
  {
    var init := data[..|data| - 1];
    forall i | 1 <= i < |init|
      ensures ReversesAt(c, init, i)
    {
      assert ReversesAt(c, data, i);
    }
  }

  /** The first sample only starts the search for extrema. */
  lemma FeedOneFirst(e: Rfc, v: real)
    requires Wf(e) && e.state == Init
    ensures var t := FeedOne(e, v);
            && t.engine.state == Busy && t.tps == []
            && t.engine.internal.lo == t.engine.internal.hi == Sample(e.cfg, v, e.internal.pos + 1)
  {
    var s := e.internal.(pos := e.internal.pos + 1);
    var f := FilterPoint(e.state, e.cfg, s, Sample(e.cfg, v, s.pos));
    assert FeedOne(e, v) == Apply(e, f);
  }

  /** The filter step behind FeedOneBusy, for any point pt. */
  lemma ApplyBusy(e: Rfc, s: Search, pt: ValueTuple)
    requires Wf(e) && SearchWf(s, e.cfg.classCount) && pt.cls < e.cfg.classCount
    requires s.lo.value <= s.hi.value
    ensures var c := e.cfg;
            var down := pt.value < s.lo.value && Exceeds(s.hi.value - pt.value, c.hysteresis, c.strictHysteresis);
            var up := pt.value > s.hi.value && Exceeds(pt.value - s.lo.value, c.hysteresis, c.strictHysteresis);
            var t := Apply(e, FilterPoint(Busy, c, s, pt));
            && (t.tps != [] <==> down || up)
            && (down ==> && t.engine.state == BusyInterim && t.tps == [s.hi]
                         && t.engine.internal.interim == pt && t.engine.internal.slope == -1)
            && (up ==> && t.engine.state == BusyInterim && t.tps == [s.lo]
                       && t.engine.internal.interim == pt && t.engine.internal.slope == 1)
            && (!down && !up ==>
                  && t.engine.state == Busy && t.engine.residue == e.residue
                  && t.engine.internal == s.(lo := if pt.value < s.lo.value then pt else s.lo,
                                             hi := if pt.value > s.hi.value then pt else s.hi))
  {
  }

  /** A sample in BUSY: below the minimum by more than the hysteresis from
      the maximum, it releases the maximum as the first turning point and
      becomes the interim one on a falling slope; above the maximum by more
      than the hysteresis from the minimum, it releases the minimum, on a
      rising slope.  Otherwise nothing is released and the sample only
      widens the extrema. */
  lemma FeedOneBusy(e: Rfc, v: real)
    requires Wf(e) && e.state == Busy && e.internal.lo.value <= e.internal.hi.value
    ensures var c := e.cfg;
            var lo, hi := e.internal.lo, e.internal.hi;
            var pt := Sample(c, v, e.internal.pos + 1);
            var down := v < lo.value && Exceeds(hi.value - v, c.hysteresis, c.strictHysteresis);
            var up := v > hi.value && Exceeds(v - lo.value, c.hysteresis, c.strictHysteresis);
            var t := FeedOne(e, v);
            && (t.tps != [] <==> down || up)
            && (down ==> && t.engine.state == BusyInterim && t.tps == [hi]
                         && t.engine.internal.interim == pt && t.engine.internal.slope == -1)
            && (up ==> && t.engine.state == BusyInterim && t.tps == [lo]
                       && t.engine.internal.interim == pt && t.engine.internal.slope == 1)
            && (!down && !up ==>
                  && t.engine.state == Busy && t.engine.residue == e.residue
                  && t.engine.internal.lo == (if v < lo.value then pt else lo)
                  && t.engine.internal.hi == (if v > hi.value then pt else hi))
  {
    var s := e.internal.(pos := e.internal.pos + 1);
    var pt := Sample(e.cfg, v, s.pos);
    ApplyBusy(e, s, pt);
    assert FeedOne(e, v) == Apply(e, FilterPoint(e.state, e.cfg, s, pt));
  }

  /** The filter step behind FeedOneInterim, for any point pt. */
  lemma ApplyInterim(e: Rfc, s: Search, pt: ValueTuple)
    requires Wf(e) && SearchWf(s, e.cfg.classCount) && pt.cls < e.cfg.classCount
    ensures var c := e.cfg;
            var dir := Sign(pt.value - s.interim.value);
            var release := dir * s.slope < 0 && Exceeds(Abs(pt.value - s.interim.value), c.hysteresis, c.strictHysteresis);
            var t := Apply(e, FilterPoint(BusyInterim, c, s, pt));
            && t.engine.state == BusyInterim
            && (t.tps != [] <==> release)
            && (release ==> t.tps == [s.interim] && t.engine.internal == s.(interim := pt, slope := dir))
            && (!release ==> t.engine.residue == e.residue)
            && (!release && dir * s.slope > 0 ==> t.engine.internal == s.(interim := pt))
            && (!release && dir * s.slope <= 0 ==> t.engine.internal == s)
  {
  }

  /** A sample in BUSY_INTERIM: reversing the slope by more than the
      hysteresis, it releases the interim turning point and becomes the new
      one on the reversed slope; continuing the slope, it replaces the
      interim point; otherwise it is ignored.  The residue changes only when
      a turning point is released. */
  lemma FeedOneInterim(e: Rfc, v: real)
    requires Wf(e) && e.state == BusyInterim
    ensures var c := e.cfg;
            var s := e.internal.(pos := e.internal.pos + 1);
            var pt := Sample(c, v, s.pos);
            var dir := Sign(v - e.internal.interim.value);
            var release := dir * s.slope < 0 && Exceeds(Abs(v - e.internal.interim.value), c.hysteresis, c.strictHysteresis);
            var t := FeedOne(e, v);
            && t.engine.state == BusyInterim
            && (t.tps != [] <==> release)
            && (release ==> t.tps == [e.internal.interim] && t.engine.internal == s.(interim := pt, slope := dir))
            && (!release ==> t.engine.residue == e.residue)
            && (!release && dir * s.slope > 0 ==> t.engine.internal == s.(interim := pt))
            && (!release && dir * s.slope <= 0 ==> t.engine.internal == s)
  {
    var s := e.internal.(pos := e.internal.pos + 1);
    var pt := Sample(e.cfg, v, s.pos);
    ApplyInterim(e, s, pt);
    assert FeedOne(e, v) == Apply(e, FilterPoint(e.state, e.cfg, s, pt));
  }

  /** What the turning point search has made of a peak-valley filtered signal
      after all of its samples: the first sample starts the search for
      extrema; from the second on, every sample but the newest is released
      and the newest is the interim turning point. */
  predicate ReversingFed(c: Config, data: seq<real>, t: Trace)
    requires c.classCount > 0 && c.classWidth > 0.0
  {
    var n := |data|;
    && t.engine.internal.pos == n
    && (n == 1 ==> t.engine.state == Busy && t.tps == []
                   && t.engine.internal.lo == t.engine.internal.hi == Sample(c, data[0], 1))
    && (n >= 2 ==> && t.engine.state == BusyInterim
                   && t.tps == Samples(c, data[..n - 1])
                   && t.engine.internal.interim == Sample(c, data[n - 1], n)
                   && t.engine.internal.slope == Sign(data[n - 1] - data[n - 2]))
  }

  /** The second sample of a peak-valley filtered signal releases the first. */
  lemma ReversingSecond(c: Config, data: seq<real>, t: Trace)
    requires Wf(t.engine) && t.engine.cfg == c && |data| == 2
    requires ReversesAt(c, data, 1) && ReversingFed(c, data[..1], t)
    ensures var u := FeedOne(t.engine, data[1]);
            ReversingFed(c, data, Trace(u.engine, t.tps + u.tps, t.cycles + u.cycles))
  {
    FeedOneBusy(t.engine, data[1]);
    assert Samples(c, data[..1]) == [Sample(c, data[0], 1)];
  }

  /** A later sample of a peak-valley filtered signal releases the interim
      turning point, the sample before it. */
  lemma ReversingLater(c: Config, data: seq<real>, t: Trace)
    requires Wf(t.engine) && t.engine.cfg == c && |data| >= 3
    requires ReversesAt(c, data, |data| - 1) && ReversingFed(c, data[..|data| - 1], t)
    ensures var u := FeedOne(t.engine, data[|data| - 1]);
            ReversingFed(c, data, Trace(u.engine, t.tps + u.tps, t.cycles + u.cycles))
  {
    var n := |data|;
    var init := data[..n - 1];
    assert init[n - 2] == data[n - 2] && init[n - 3] == data[n - 3];
    var slope := t.engine.internal.slope;
    var dir := Sign(data[n - 1] - data[n - 2]);
    assert dir * slope < 0 by {
      if dir == 1 { assert slope == -1; } else { assert dir == -1 && slope == 1; }
    }
    FeedOneInterim(t.engine, data[n - 1]);
    assert init[..n - 2] == data[..n - 2];
    assert Samples(c, init) == Samples(c, data[..n - 2]) + [Sample(c, data[n - 2], n - 1)];
  }

  /** One more sample of a peak-valley filtered signal. */
  lemma ReversingExtend(c: Config, data: seq<real>, t: Trace)
    requires Wf(t.engine) && t.engine.cfg == c && |data| >= 2
    requires ReversesAt(c, data, |data| - 1)
    ensures var u := FeedOne(t.engine, data[|data| - 1]);
            ReversingFed(c, data[..|data| - 1], t) ==>
            ReversingFed(c, data, Trace(u.engine, t.tps + u.tps, t.cycles + u.cycles))
  {
    if ReversingFed(c, data[..|data| - 1], t) {
      if |data| == 2 {
        ReversingSecond(c, data, t);
      } else {
        ReversingLater(c, data, t);
      }
    }
  }

  /** On a signal that is already peak-valley filtered, the turning point
      search releases every sample but the newest, which it holds back as the
      interim turning point. */
  lemma {:induction false} FeedAllReversing(e: Rfc, data: seq<real>)
    requires Wf(e) && e.state == Init && e.internal.pos == 0 && Reversing(e.cfg, data)
    ensures ReversingFed(e.cfg, data, FeedAll(e, data))
    decreases |data|
  {
    var n := |data|;
    if n >= 1 {
      var init := data[..n - 1];
      var v := data[n - 1];
      ReversingPrefix(e.cfg, data);
      FeedAllReversing(e, init);
      var t := FeedAll(e, init);
      var u := FeedOne(t.engine, v);
      assert FeedAll(e, data) == Trace(u.engine, t.tps + u.tps, t.cycles + u.cycles);
      if n == 1 {
        assert t == Trace(e, [], []);
        FeedOneFirst(t.engine, v);
      } else {
        ReversingExtend(e.cfg, data, t);
      }
    }
  }

  /** Appending a sample that reverses the last step by more than the
      hysteresis keeps a signal peak-valley filtered. */
  lemma ReversingSnoc(c: Config, data: seq<real>, x: real)
    requires Reversing(c, data) && data != []
    requires Sign(x - data[|data| - 1]) != 0
    requires Exceeds(Abs(x - data[|data| - 1]), c.hysteresis, c.strictHysteresis)
    requires |data| >= 2 ==> Sign(x - data[|data| - 1]) == -Sign(data[|data| - 1] - data[|data| - 2])
    ensures Reversing(c, data + [x])
  {
    var d := data + [x];
    forall i | 1 <= i < |d|
      ensures ReversesAt(c, d, i)
    {
      if i < |data| {
        assert ReversesAt(c, data, i);
      }
    }
  }

  /** Moving the newest sample further in the direction of the last step
      keeps a signal peak-valley filtered. */
  lemma ReversingFurther(c: Config, data: seq<real>, x: real)
    requires Reversing(c, data) && |data| >= 2
    requires Sign(x - data[|data| - 1]) == Sign(data[|data| - 1] - data[|data| - 2])
    ensures Reversing(c, data[..|data| - 1] + [x])
  {
    var n := |data|;
    var d := data[..n - 1] + [x];
    assert ReversesAt(c, data, n - 1);
    forall i | 1 <= i < n
      ensures ReversesAt(c, d, i)
    {
      if i < n - 1 {
        assert ReversesAt(c, data, i);
      }
    }
  }

  lemma ValuesSnoc(r: seq<ValueTuple>, t: ValueTuple)
    ensures Values(r + [t]) == Values(r) + [t.value]
  {
    assert (r + [t])[..|r|] == r;
  }

  /** What the turning point search has released, together with the interim
      point it holds back: nothing before the first turning point, and in
      BUSY_INTERIM a peak-valley filtered signal whose last step runs in the
      direction of the slope. */
  predicate PeakValley(c: Config, state: State, s: Search, tps: seq<ValueTuple>)
  {
    if state == BusyInterim then
      && tps != []
      && Reversing(c, Values(tps + [s.interim]))
      && Sign(s.interim.value - tps[|tps| - 1].value) == s.slope
    else tps == []
  }

  /** A reversal beyond the hysteresis in BUSY_INTERIM: the released interim
      point and the new one keep the signal peak-valley filtered. */
  lemma ReleasePeakValley(c: Config, s: Search, pt: ValueTuple, tps: seq<ValueTuple>)
    requires PeakValley(c, BusyInterim, s, tps)
    requires Sign(pt.value - s.interim.value) * s.slope < 0
    requires Exceeds(Abs(pt.value - s.interim.value), c.hysteresis, c.strictHysteresis)
    ensures PeakValley(c, BusyInterim, s.(interim := pt, slope := Sign(pt.value - s.interim.value)), tps + [s.interim])
  {
    var oi := s.interim;
    ValuesSnoc(tps, oi);
    ValuesSnoc(tps + [oi], pt);
    var data := Values(tps + [oi]);
    assert data[|data| - 1] == oi.value && data[|data| - 2] == tps[|tps| - 1].value;
    var dir := Sign(pt.value - oi.value);
    assert dir == -s.slope by {
      if dir == 1 { assert s.slope == -1; } else { assert dir == -1 && s.slope == 1; }
    }
    ReversingSnoc(c, data, pt.value);
  }

  /** A sample continuing the slope in BUSY_INTERIM replaces the interim
      point and keeps the signal peak-valley filtered. */
  lemma ContinuePeakValley(c: Config, s: Search, pt: ValueTuple, tps: seq<ValueTuple>)
    requires PeakValley(c, BusyInterim, s, tps)
    requires Sign(pt.value - s.interim.value) * s.slope > 0
    ensures PeakValley(c, BusyInterim, s.(interim := pt), tps)
  {
    var oi := s.interim;
    ValuesSnoc(tps, oi);
    ValuesSnoc(tps, pt);
    var data := Values(tps + [oi]);
    assert data[|data| - 1] == oi.value && data[|data| - 2] == tps[|tps| - 1].value;
    assert Sign(pt.value - oi.value) == s.slope;
    assert Sign(pt.value - tps[|tps| - 1].value) == s.slope;
    assert data[..|data| - 1] == Values(tps);
    ReversingFurther(c, data, pt.value);
    assert Values(tps + [pt]) == data[..|data| - 1] + [pt.value];
  }

  /** The turning point search keeps what it released peak-valley filtered,
      for any point pt. */
  lemma FilterPeakValley(state: State, c: Config, s: Search, pt: ValueTuple, tps: seq<ValueTuple>)
    requires Feeding(state) && SearchWf(s, c.classCount) && pt.cls < c.classCount
    requires s.lo.value <= s.hi.value && PeakValley(c, state, s, tps)
    ensures var f := FilterPoint(state, c, s, pt);
            PeakValley(c, f.state, f.internal, tps + AsSeq(f.tp))
  {
    var f := FilterPoint(state, c, s, pt);
    if state == BusyInterim {
      var dir := Sign(pt.value - s.interim.value);
      if dir * s.slope < 0 && Exceeds(Abs(pt.value - s.interim.value), c.hysteresis, c.strictHysteresis) {
        assert f == Filtered(BusyInterim, s.(interim := pt, slope := dir), Some(s.interim));
        ReleasePeakValley(c, s, pt, tps);
      } else if dir * s.slope > 0 {
        assert f == Filtered(BusyInterim, s.(interim := pt), None);
        ContinuePeakValley(c, s, pt, tps);
        assert tps + AsSeq(f.tp) == tps;
      } else {
        assert f == Filtered(BusyInterim, s, None);
        assert tps + AsSeq(f.tp) == tps;
      }
    } else if f.tp.Some? {
      assert tps + AsSeq(f.tp) == [f.tp.value];
      assert Values([f.tp.value, pt]) == [f.tp.value.value, pt.value];
      assert [f.tp.value] + [pt] == [f.tp.value, pt];
    }
  }

  /** One sample keeps what the search released peak-valley filtered. */
  lemma FeedOnePeakValley(e: Rfc, v: real, tps: seq<ValueTuple>)
    requires Wf(e) && Feeding(e.state) && e.internal.lo.value <= e.internal.hi.value
    requires PeakValley(e.cfg, e.state, e.internal, tps)
    ensures var u := FeedOne(e, v);
            PeakValley(e.cfg, u.engine.state, u.engine.internal, tps + u.tps)
  {
    var s := e.internal.(pos := e.internal.pos + 1);
    var pt := Sample(e.cfg, v, s.pos);
    var f := FilterPoint(e.state, e.cfg, s, pt);
    assert FeedOne(e, v) == Apply(e, f);
    FilterPeakValley(e.state, e.cfg, s, pt, tps);
    ApplyPeakValley(e, f, tps);
  }

  /** Applying a step passes on the state, the search and the released point. */
  lemma ApplyPeakValley(e: Rfc, f: Filtered, tps: seq<ValueTuple>)
    requires Wf(e) && SearchWf(f.internal, e.cfg.classCount)
    requires f.tp.Some? ==> f.tp.value.cls < e.cfg.classCount
    requires PeakValley(e.cfg, f.state, f.internal, tps + AsSeq(f.tp))
    ensures var u := Apply(e, f);
            PeakValley(e.cfg, u.engine.state, u.engine.internal, tps + u.tps)
  {
    assert Apply(e, f).tps == AsSeq(f.tp);
  }

  /** From a freshly initialised context, the turning points released so far
      followed by the interim one form a peak-valley filtered signal: each
      reverses the direction of the step before it, and every step exceeds
      the hysteresis. */
  lemma {:induction false} FeedAllPeakValley(e: Rfc, data: seq<real>)
    requires Inv(e) && e.state == Init
    ensures var t := FeedAll(e, data);
            PeakValley(e.cfg, t.engine.state, t.engine.internal, t.tps)
    decreases |data|
  {
    if data != [] {
      var init := data[..|data| - 1];
      FeedAllPeakValley(e, init);
      FeedAllInv(e, init);
      var t := FeedAll(e, init);
      FeedOnePeakValley(t.engine, data[|data| - 1], t.tps);
    }
  }

  /** The turning points of a whole run form a peak-valley filtered signal:
      each reverses the direction of the step before it, every step exceeds
      the hysteresis, and a run never releases a single turning point. */
  lemma RunPeakValley(counts: CountsType, classCount: nat, classWidth: real, classOffset: real,
                      hysteresis: real, strict: bool, data: seq<real>, residual: ResidualMethod)
    requires classCount > 0 && classWidth > 0.0 && hysteresis >= 0.0
    ensures var c := Initialised(counts, classCount, classWidth, classOffset, hysteresis, strict).cfg;
            var t := Run(counts, classCount, classWidth, classOffset, hysteresis, strict, data, residual);
            Reversing(c, Values(t.tps)) && |t.tps| != 1
  {
    var e0 := Initialised(counts, classCount, classWidth, classOffset, hysteresis, strict);
    var fed := FeedAll(e0, data);
    var fin := FinishSpec(fed.engine, residual);
    assert Run(counts, classCount, classWidth, classOffset, hysteresis, strict, data, residual).tps
        == fed.tps + fin.tps;
    FeedAllPeakValley(e0, data);
    FeedAllInv(e0, data);
    FinishPeakValley(fed.engine, residual, fed.tps);
  }

  /** Finishing releases the interim point after what the search released:
      the turning points stay peak-valley filtered, and are never exactly one. */
  lemma FinishPeakValley(e: Rfc, residual: ResidualMethod, tps: seq<ValueTuple>)
    requires Wf(e) && PeakValley(e.cfg, e.state, e.internal, tps)
    ensures var all := tps + FinishSpec(e, residual).tps;
            Reversing(e.cfg, Values(all)) && |all| != 1
  {
    if e.state != BusyInterim {
      assert tps + FinishSpec(e, residual).tps == [];
    }
  }

  /** RFC_feed: refused outside the counting states, otherwise every sample is fed. */
  function FeedSpec(e: Rfc, data: seq<real>): (r: (bool, Trace))
    requires Feeding(e.state) ==> Wf(e)
    ensures r.0 <==> Feeding(e.state)
    ensures !r.0 ==> r.1 == Trace(e, [], [])
  {
    if Feeding(e.state) then (true, FeedAll(e, data)) else (false, Trace(e, [], []))
  }

  /** The end of counting with RFC_RES_NONE or RFC_RES_IGNORE: a pending
      interim turning point becomes the last turning point (and may close
      cycles), the residue is left as it is, and counting is finished. */
  function FinishSpec(e: Rfc, residual: ResidualMethod): (t: Trace)
    requires Wf(e)
    ensures Wf(t.engine) && t.engine.state == Finished && t.engine.residualMethod == residual
    ensures t.engine.cfg == e.cfg && t.engine.internal == e.internal
    ensures t.tps == (if e.state == BusyInterim then [e.internal.interim] else [])
    ensures |t.engine.residue| + 2 * |t.cycles| == |e.residue| + |t.tps|
    ensures CyclesIn(t.cycles, e.cfg.classCount)
    ensures t.engine.matrix == CountCycles(e.matrix, e.cfg.classCount, e.cfg.fullInc, t.cycles)
  {
    var t := if e.state == BusyInterim then Push(e, e.internal.interim) else Trace(e, [], []);
    Trace(t.engine.(state := Finished, residualMethod := residual), t.tps, t.cycles)
  }

  /** RFC_finalize: refused outside the counting states; an invalid residual
      method puts the context into the error state. */
  function FinalizeSpec(e: Rfc, code: int): (r: (bool, Trace))
    requires Feeding(e.state) ==> Wf(e)
    ensures r.0 <==> Feeding(e.state) && ResidualOf(code).Some?
    ensures !Feeding(e.state) ==> r.1 == Trace(e, [], [])
    ensures Feeding(e.state) && ResidualOf(code).None? ==> r.1 == Trace(e.(state := Error), [], [])
    ensures r.0 ==> r.1.engine.state == Finished
  {
    if !Feeding(e.state) then (false, Trace(e, [], []))
    else match ResidualOf(code)
      case None => (false, Trace(e.(state := Error), [], []))
      case Some(m) => (true, FinishSpec(e, m))
  }

  /* ---------------------------------------------------------------------- */
  /* Invariants                                                              */
  /* ---------------------------------------------------------------------- */

  /** The search is consistent with the state and the residue: nothing seen
      before the first sample, no residue while the first turning point is
      still being searched for, and in BUSY_INTERIM an interim turning point
      newer than the newest residue entry, with a definite slope that is the
      direction from that entry to the interim point, a step beyond the
      hysteresis. */
  predicate SearchInv(state: State, c: Config, s: Search, r: seq<ValueTuple>)
  {
    && s.lo.value <= s.hi.value
    && (state == Init ==> r == [] && s.pos == 0)
    && (state == Busy ==> r == [] && 1 <= s.lo.pos <= s.pos && 1 <= s.hi.pos <= s.pos)
    && (state == BusyInterim ==>
          && r != []
          && r[|r| - 1].pos < s.interim.pos <= s.pos
          && (s.slope == 1 || s.slope == -1)
          && Sign(s.interim.value - r[|r| - 1].value) == s.slope
          && Exceeds(Abs(s.interim.value - r[|r| - 1].value), c.hysteresis, c.strictHysteresis))
  }

  /** The context invariant: well-formed, the residue stable and in stream
      order with base-1 positions, and the search consistent with it. */
  ghost predicate Inv(e: Rfc)
  {
    && Wf(e)
    && ResidueInv(e.residue, e.internal.pos)
    && SearchInv(e.state, e.cfg, e.internal, e.residue)
  }

  /** What the turning point search guarantees about one step, given the
      invariant before it: the search is consistent again, and a released
      turning point is newer than the residue and older than the new
      interim point. */
  predicate StepOk(e: Rfc, f: Filtered)
  {
    && Feeding(f.state)
    && f.internal.pos == e.internal.pos + 1
    && (f.tp.None? ==> SearchInv(f.state, e.cfg, f.internal, e.residue))
    && (f.tp.Some? ==>
          && f.state == BusyInterim
          && 1 <= f.tp.value.pos < f.internal.interim.pos == f.internal.pos
          && (f.internal.slope == 1 || f.internal.slope == -1)
          && Sign(f.internal.interim.value - f.tp.value.value) == f.internal.slope
          && Exceeds(Abs(f.internal.interim.value - f.tp.value.value), e.cfg.hysteresis, e.cfg.strictHysteresis)
          && f.internal.lo.value <= f.internal.hi.value
          && (e.residue != [] ==> e.residue[|e.residue| - 1].pos < f.tp.value.pos))
  }

  /** The search after one point, given the invariant before it. */
  lemma FilterInv(e: Rfc, v: real)
    requires Inv(e) && Feeding(e.state)
    ensures var s := e.internal.(pos := e.internal.pos + 1);
            StepOk(e, FilterPoint(e.state, e.cfg, s, Sample(e.cfg, v, s.pos)))
  {
  }

  /** A turning point released in BUSY_INTERIM, older than the interim point
      and newer than the residue, keeps the invariant when pushed. */
  lemma PushStepInv(e: Rfc, tp: ValueTuple)
    requires Wf(e) && tp.cls < e.cfg.classCount && ResidueInv(e.residue, e.internal.pos)
    requires e.residue != [] ==> e.residue[|e.residue| - 1].pos < tp.pos
    requires 1 <= tp.pos < e.internal.interim.pos <= e.internal.pos
    requires e.state == BusyInterim && (e.internal.slope == 1 || e.internal.slope == -1)
    requires Sign(e.internal.interim.value - tp.value) == e.internal.slope
    requires Exceeds(Abs(e.internal.interim.value - tp.value), e.cfg.hysteresis, e.cfg.strictHysteresis)
    requires e.internal.lo.value <= e.internal.hi.value
    ensures Inv(Push(e, tp).engine)
  {
    SettlePushed(e.residue, tp, e.internal.pos);
  }

  /** A step the search vouches for keeps the invariant. */
  lemma ApplyInv(e: Rfc, f: Filtered)
    requires Wf(e) && ResidueInv(e.residue, e.internal.pos)
    requires SearchWf(f.internal, e.cfg.classCount) && (f.tp.Some? ==> f.tp.value.cls < e.cfg.classCount)
    requires StepOk(e, f)
    ensures Inv(Apply(e, f).engine) && Feeding(Apply(e, f).engine.state)
  {
    ResidueInvLater(e.residue, e.internal.pos, f.internal.pos);
    if f.tp.Some? {
      PushStepInv(e.(state := f.state, internal := f.internal), f.tp.value);
    }
  }

  /** Feeding one sample keeps the invariant. */
  lemma FeedOneInv(e: Rfc, v: real)
    requires Inv(e) && Feeding(e.state)
    ensures Inv(FeedOne(e, v).engine) && Feeding(FeedOne(e, v).engine.state)
  {
    var s := e.internal.(pos := e.internal.pos + 1);
    var f := FilterPoint(e.state, e.cfg, s, Sample(e.cfg, v, s.pos));
    assert FeedOne(e, v) == Apply(e, f);
    FilterInv(e, v);
    ApplyInv(e, f);
  }

  /** RFC_init leaves a context that satisfies the invariant, configured as asked. */
  lemma InitialisedInv(counts: CountsType, classCount: nat, classWidth: real, classOffset: real,
                       hysteresis: real, strict: bool)
    requires classCount > 0 && classWidth > 0.0 && hysteresis >= 0.0
    ensures var e := Initialised(counts, classCount, classWidth, classOffset, hysteresis, strict);
            && Inv(e) && e.state == Init
            && e.cfg.classCount == classCount && e.cfg.classWidth == classWidth
            && e.cfg.classOffset == classOffset && e.cfg.hysteresis == hysteresis
            && e.cfg.strictHysteresis == strict
  {
  }

  /** Feeding a sequence keeps the invariant. */
  lemma {:induction false} FeedAllInv(e: Rfc, data: seq<real>)
    requires Inv(e) && Feeding(e.state)
    ensures Inv(FeedAll(e, data).engine) && Feeding(FeedAll(e, data).engine.state)
    decreases |data|
  {
    if data != [] {
      FeedAllInv(e, data[..|data| - 1]);
      FeedOneInv(FeedAll(e, data[..|data| - 1]).engine, data[|data| - 1]);
    }
  }

  /** Finishing keeps the residue free of closable quadruples and in order. */
  lemma FinishInv(e: Rfc, residual: ResidualMethod)
    requires Inv(e) && Feeding(e.state)
    ensures ResidueInv(FinishSpec(e, residual).engine.residue, e.internal.pos)
  {
    if e.state == BusyInterim {
      SettlePushed(e.residue, e.internal.interim, e.internal.pos);
    }
  }

  /* ---------------------------------------------------------------------- */
  /* A whole run                                                             */
  /* ---------------------------------------------------------------------- */

  /** RFC_init with valid parameters, RFC_feed of all samples and RFC_finalize
      with RFC_RES_NONE or RFC_RES_IGNORE, with every turning point released
      and every cycle closed on the way. */
  function Run(counts: CountsType, classCount: nat, classWidth: real, classOffset: real,
               hysteresis: real, strict: bool, data: seq<real>, residual: ResidualMethod): (t: Trace)
    requires classCount > 0 && classWidth > 0.0 && hysteresis >= 0.0
    ensures Wf(t.engine) && t.engine.state == Finished && t.engine.cfg.classCount == classCount
  {
    var e0 := Initialised(counts, classCount, classWidth, classOffset, hysteresis, strict);
    var fed := FeedAll(e0, data);
    var fin := FinishSpec(fed.engine, residual);
    Trace(fin.engine, fed.tps + fin.tps, fed.cycles + fin.cycles)
  }

  /** The states one sample moves between: the first sample leaves INIT for
      BUSY, nothing returns to INIT, and a step that ends in BUSY released
      nothing and did not start in BUSY_INTERIM. */
  lemma FeedOneStates(e: Rfc, v: real)
    requires Wf(e) && Feeding(e.state)
    ensures var u := FeedOne(e, v);
            && u.engine.state != Init
            && (e.state == Init ==> u.engine.state == Busy)
            && (u.engine.state == Busy ==> u.tps == [] && e.state != BusyInterim)
  {
    var s := e.internal.(pos := e.internal.pos + 1);
    var f := FilterPoint(e.state, e.cfg, s, Sample(e.cfg, v, s.pos));
    assert FeedOne(e, v) == Apply(e, f);
  }

  /** With an interim turning point pending, fewer turning points were
      released than samples fed: the interim point is a sample not yet
      released.  Before the first sample nothing is known, and while the
      first turning point is searched for nothing was released. */
  lemma {:induction false} FeedTpsBound(e: Rfc, data: seq<real>)
    requires Inv(e) && e.state == Init
    ensures var t := FeedAll(e, data);
            && (t.engine.state == BusyInterim ==> |t.tps| < |data|)
            && (t.engine.state == Init ==> data == [])
            && (t.engine.state == Busy ==> t.tps == [])
    decreases |data|
  {
    if data != [] {
      var init := data[..|data| - 1];
      FeedTpsBound(e, init);
      FeedAllInv(e, init);
      var t := FeedAll(e, init);
      var u := FeedOne(t.engine, data[|data| - 1]);
      FeedOneStates(t.engine, data[|data| - 1]);
      assert FeedAll(e, data) == Trace(u.engine, t.tps + u.tps, t.cycles + u.cycles);
    }
  }

  /** From a freshly initialised context, every released turning point is in
      the residue or closed, and a pending interim point is a sample on top
      of the released ones. */
  lemma FedTurningPoints(e: Rfc, data: seq<real>)
    requires Inv(e) && e.state == Init
    ensures var t := FeedAll(e, data);
            && |t.engine.residue| + 2 * |t.cycles| == |t.tps|
            && |t.tps| + (if t.engine.state == BusyInterim then 1 else 0) <= |data|
  {
    FeedAllTurningPoints(e, data);
    FeedTpsBound(e, data);
  }

  /** Conservation of turning points over a whole run: every released turning
      point either ends in the residue or is one of the two ends of exactly
      one closed cycle, and there are at most as many turning points as
      samples. */
  lemma RunTurningPoints(counts: CountsType, classCount: nat, classWidth: real, classOffset: real,
                         hysteresis: real, strict: bool, data: seq<real>, residual: ResidualMethod)
    requires classCount > 0 && classWidth > 0.0 && hysteresis >= 0.0
    ensures var t := Run(counts, classCount, classWidth, classOffset, hysteresis, strict, data, residual);
            2 * |t.cycles| + |t.engine.residue| == |t.tps| <= |data|
  {
    var e0 := Initialised(counts, classCount, classWidth, classOffset, hysteresis, strict);
    var fed := FeedAll(e0, data);
    var fin := FinishSpec(fed.engine, residual);
    assert Run(counts, classCount, classWidth, classOffset, hysteresis, strict, data, residual)
        == Trace(fin.engine, fed.tps + fin.tps, fed.cycles + fin.cycles);
    FedTurningPoints(e0, data);
  }

  /** The residue a whole run leaves is stable, in stream order, with base-1
      positions of the data. */
  lemma RunResidue(counts: CountsType, classCount: nat, classWidth: real, classOffset: real,
                   hysteresis: real, strict: bool, data: seq<real>, residual: ResidualMethod)
    requires classCount > 0 && classWidth > 0.0 && hysteresis >= 0.0
    ensures ResidueInv(Run(counts, classCount, classWidth, classOffset, hysteresis, strict, data, residual).engine.residue,
                       |data|)
  {
    var e0 := Initialised(counts, classCount, classWidth, classOffset, hysteresis, strict);
    var fed := FeedAll(e0, data);
    FeedAllInv(e0, data);
    FinishInv(fed.engine, residual);
  }

  /** Finishing counts its cycles on top of whatever the matrix held. */
  lemma FinishMatrix(e: Rfc, residual: ResidualMethod, m0: seq<real>, cs: seq<Cycle>)
    requires Wf(e) && |m0| == |e.matrix| && CyclesIn(cs, e.cfg.classCount)
    requires e.matrix == CountCycles(m0, e.cfg.classCount, e.cfg.fullInc, cs)
    ensures var t := FinishSpec(e, residual);
            && CyclesIn(cs + t.cycles, e.cfg.classCount)
            && t.engine.matrix == CountCycles(m0, e.cfg.classCount, e.cfg.fullInc, cs + t.cycles)
  {
    var t := FinishSpec(e, residual);
    CountCyclesAppend(m0, e.cfg.classCount, e.cfg.fullInc, cs, t.cycles);
  }

  /** Conservation of counts over a whole run: the matrix holds exactly the
      closed cycles, each counted once with the full increment into its
      directional cell. */
  lemma RunMatrix(counts: CountsType, classCount: nat, classWidth: real, classOffset: real,
                  hysteresis: real, strict: bool, data: seq<real>, residual: ResidualMethod)
    requires classCount > 0 && classWidth > 0.0 && hysteresis >= 0.0
    ensures var t := Run(counts, classCount, classWidth, classOffset, hysteresis, strict, data, residual);
            && CyclesIn(t.cycles, classCount)
            && t.engine.matrix == CountCycles(Zeros(classCount * classCount), classCount,
                                              FullIncrement(counts), t.cycles)
  {
    var e0 := Initialised(counts, classCount, classWidth, classOffset, hysteresis, strict);
    var fed := FeedAll(e0, data);
    var fin := FinishSpec(fed.engine, residual);
    assert Run(counts, classCount, classWidth, classOffset, hysteresis, strict, data, residual)
        == Trace(fin.engine, fed.tps + fin.tps, fed.cycles + fin.cycles);
    FeedAllMatrix(e0, data);
    FinishMatrix(fed.engine, residual, e0.matrix, fed.cycles);
  }

  /** The matrix total of a whole run is one full increment per closed cycle
      (Times(n, inc) is n * inc, see TimesIsProduct and CyclesFromTotal). */
  lemma RunTotal(counts: CountsType, classCount: nat, classWidth: real, classOffset: real,
                 hysteresis: real, strict: bool, data: seq<real>, residual: ResidualMethod)
    requires classCount > 0 && classWidth > 0.0 && hysteresis >= 0.0
    ensures var t := Run(counts, classCount, classWidth, classOffset, hysteresis, strict, data, residual);
            Total(t.engine.matrix) == Times(|t.cycles|, FullIncrement(counts))
  {
    RunMatrix(counts, classCount, classWidth, classOffset, hysteresis, strict, data, residual);
    var t := Run(counts, classCount, classWidth, classOffset, hysteresis, strict, data, residual);
    CountedTotal(t.engine.matrix, classCount, FullIncrement(counts), t.cycles);
  }

  /** Finishing pushes a pending interim turning point through the four-point
      loop and leaves the residue alone otherwise. */
  lemma FinishSettles(e: Rfc, residual: ResidualMethod)
    requires Wf(e)
    ensures var t := FinishSpec(e, residual);
            && (t.tps == [] ==> t.engine.residue == e.residue && t.cycles == [])
            && (t.tps != [] ==> Settled(t.engine.residue, t.cycles) == Settle(e.residue + t.tps))
  {
  }

  /** On a peak-valley filtered signal of at least two samples, a whole run
      takes every sample as a turning point, the last one at finalisation,
      and counts them with the four-point method from an empty residue; a
      single sample is never a turning point. */
  lemma RunReversing(counts: CountsType, classCount: nat, classWidth: real, classOffset: real,
                     hysteresis: real, strict: bool, data: seq<real>, residual: ResidualMethod)
    requires classCount > 0 && classWidth > 0.0 && hysteresis >= 0.0
    requires Reversing(Initialised(counts, classCount, classWidth, classOffset, hysteresis, strict).cfg, data)
    ensures var c := Initialised(counts, classCount, classWidth, classOffset, hysteresis, strict).cfg;
            var t := Run(counts, classCount, classWidth, classOffset, hysteresis, strict, data, residual);
            && t.tps == (if |data| <= 1 then [] else Samples(c, data))
            && Settled(t.engine.residue, t.cycles) == FourPoint([], t.tps)
  {
    var e0 := Initialised(counts, classCount, classWidth, classOffset, hysteresis, strict);
    var fed := FeedAll(e0, data);
    var fin := FinishSpec(fed.engine, residual);
    assert Run(counts, classCount, classWidth, classOffset, hysteresis, strict, data, residual)
        == Trace(fin.engine, fed.tps + fin.tps, fed.cycles + fin.cycles);
    FeedAllFourPoint(e0, data);
    FinishSettles(fed.engine, residual);
    if |data| == 0 {
      assert fed == Trace(e0, [], []);
    } else {
      FeedAllReversing(e0, data);
      if |data| == 1 {
        assert fed.tps + fin.tps == [];
      } else {
        var n := |data|;
        assert fin.tps == [Sample(e0.cfg, data[n - 1], n)];
        FourPointSnoc([], fed.tps, fin.tps[0]);
        assert fed.tps + fin.tps == Samples(e0.cfg, data);
      }
    }
  }

  /** Each cell of the matrix after a whole run holds one full increment per
      closed cycle from its row class to its column class. */
  lemma RunCell(counts: CountsType, classCount: nat, classWidth: real, classOffset: real,
                hysteresis: real, strict: bool, data: seq<real>, residual: ResidualMethod, f: nat, to: nat)
    requires classCount > 0 && classWidth > 0.0 && hysteresis >= 0.0
    requires f < classCount && to < classCount
    ensures var t := Run(counts, classCount, classWidth, classOffset, hysteresis, strict, data, residual);
            && CellIndex(f, to, classCount) < |t.engine.matrix|
            && t.engine.matrix[CellIndex(f, to, classCount)] == Times(CellCount(t.cycles, f, to), FullIncrement(counts))
  {
    RunMatrix(counts, classCount, classWidth, classOffset, hysteresis, strict, data, residual);
    var t := Run(counts, classCount, classWidth, classOffset, hysteresis, strict, data, residual);
    CountCyclesCell(Zeros(classCount * classCount), classCount, FullIncrement(counts), t.cycles, f, to);
  }

  /** A peak-valley filtered signal whose samples the four-point method counts
      into residue r and cycles cs leaves exactly these after a whole run. */
  lemma RunSettles(counts: CountsType, classCount: nat, classWidth: real, classOffset: real,
                   hysteresis: real, strict: bool, data: seq<real>, residual: ResidualMethod,
                   r: seq<ValueTuple>, cs: seq<Cycle>)
    requires classCount > 0 && classWidth > 0.0 && hysteresis >= 0.0 && |data| >= 2
    requires var c := Initialised(counts, classCount, classWidth, classOffset, hysteresis, strict).cfg;
             Reversing(c, data) && FourPoint([], Samples(c, data)) == Settled(r, cs)
    ensures var t := Run(counts, classCount, classWidth, classOffset, hysteresis, strict, data, residual);
            t.engine.residue == r && t.cycles == cs
  {
    RunReversing(counts, classCount, classWidth, classOffset, hysteresis, strict, data, residual);
  }
}
