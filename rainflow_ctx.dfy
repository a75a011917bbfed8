/** The rainflow context rfc_ctx of rainflow.h as mutable state, and RFC_init,
 *  RFC_feed, RFC_finalize and RFC_deinit as methods that advance it step by
 *  step: the residue stack grows by pushes and shrinks by the four-point
 *  loop, the class_count x class_count matrix is an array counted into in
 *  place.  Every method is proved against its specification function in
 *  RainflowEngine: Model() after the call is what that function computes
 *  from Model() before it.
 */
module RainflowContext {
  import opened Rainflow
  import opened RainflowEngine

  /** One pass of the closure loop on the specification side: when the
      newest four entries A, B, C, D close, the cycle B-C is the first one
      the loop emits, counting it is counting one more cycle, and the loop
      goes on from the residue without B and C. */
  lemma ClosureStep(r: seq<ValueTuple>, closed: seq<Cycle>, m: seq<real>, classCount: nat, inc: real)
    requires ClosesAtTop(r) && InClasses(r, classCount)
    requires |m| == classCount * classCount && CyclesIn(closed, classCount)
    ensures var n := |r|;
            var rest := r[..n - 3] + [r[n - 1]];
            var c := Cycle(r[n - 3], r[n - 2]);
            && InClasses(rest, classCount) && CyclesIn(closed + [c], classCount)
            && c.from.cls < classCount && c.to.cls < classCount
            && Settled(Settle(r).residue, closed + Settle(r).cycles)
               == Settled(Settle(rest).residue, (closed + [c]) + Settle(rest).cycles)
            && CountCycles(m, classCount, inc, closed + [c])
               == CountCycle(CountCycles(m, classCount, inc, closed), classCount, inc, c)
  {
    var n := |r|;
    var rest := r[..n - 3] + [r[n - 1]];
    var c := Cycle(r[n - 3], r[n - 2]);
    forall i | 0 <= i < |rest|
      ensures rest[i].cls < classCount
    {
      if i < n - 3 { assert rest[i] == r[i]; } else { assert rest[i] == r[n - 1]; }
    }
    assert Settle(r).cycles == [c] + Settle(rest).cycles;
    AppendAssoc(closed, [c], Settle(rest).cycles);
    assert (closed + [c])[..|closed|] == closed;
  }

  /** Pushing a turning point is appending it to the residue and running
      the four-point loop over the whole residue. */
  lemma PushCloses(e: Rfc, tp: ValueTuple)
    requires Wf(e) && tp.cls < e.cfg.classCount
    ensures Wf(e.(residue := e.residue + [tp]))
    ensures Push(e, tp).engine == Closed(e.(residue := e.residue + [tp])).engine
  {
    assert InClasses(e.residue + [tp], e.cfg.classCount);
  }

  /** rfc_ctx: the counting state, the residual method, the increments and
      class parameters set by RFC_init, the residue stack, the matrix and
      the turning point search (internal). */
  class Context {
    var state: State
    var residualMethod: ResidualMethod
    var cfg: Config
    var residue: seq<ValueTuple>
    var matrix: array<real>
    var internal: Search

    /** The context as a value. */
    function Model(): Rfc
      reads this, matrix
    {
      Rfc(state, residualMethod, cfg, residue, matrix[..], internal)
    }

    /** A zero-initialised context, as the caller of RFC_init provides it. */
    constructor ()
      ensures Model() == Zeroed && fresh(matrix)
    {
      state := Init0;
      residualMethod := ResNone;
      cfg := Zeroed.cfg;
      residue := [];
      matrix := new real[0];
      internal := NoSearch;
    }

    /** RFC_init: only a zero-initialised context is set up; invalid class
        parameters or a negative hysteresis leave it in the error state;
        otherwise the increments and parameters are stored, the residue is
        emptied and a zeroed class_count x class_count matrix allocated. */
    method Init(counts: CountsType, classCount': nat, classWidth': real, classOffset': real,
                hysteresis': real, strict: bool) returns (ok: bool)
      modifies this
      ensures ok == InitSpec(old(Model()), counts, classCount', classWidth', classOffset', hysteresis', strict).0
      ensures Model() == InitSpec(old(Model()), counts, classCount', classWidth', classOffset', hysteresis', strict).1
      ensures if ok then fresh(matrix) else matrix == old(matrix)
    {
      if state != Init0 {
        return false;
      }
      if classCount' == 0 || classWidth' <= 0.0 || hysteresis' < 0.0 {
        state := Error;
        return false;
      }
      var m := new real[classCount' * classCount'](_ => 0.0);
      assert m[..] == Zeros(classCount' * classCount');
      cfg := Config(FullIncrement(counts), HalfIncrement(counts), classCount', classWidth', classOffset',
                    hysteresis', strict);
      residue := [];
      matrix := m;
      internal := NoSearch;
      residualMethod := ResNone;
      state := State.Init;
      ok := true;
    }

    /** RFC_deinit: the storage is released and the context is back in INIT0. */
    method Deinit()
      modifies this
      ensures Model() == DeinitSpec(old(Model()))
    {
      state := Init0;
      residue := [];
      matrix := new real[0];
    }

    /** Counts a closed cycle: its directional cell, row class(B) and column
        class(C), grows by the full increment. */
    method CountCycle(c: Cycle)
      requires matrix.Length == cfg.classCount * cfg.classCount
      requires c.from.cls < cfg.classCount && c.to.cls < cfg.classCount
      modifies matrix
      ensures matrix[..] == Rainflow.CountCycle(old(matrix[..]), cfg.classCount, cfg.fullInc, c)
    {
      CellInRange(c.from.cls, c.to.cls, cfg.classCount);
      var idx := c.from.cls * cfg.classCount + c.to.cls;
      matrix[idx] := matrix[idx] + cfg.fullInc;
    }

    /** One closure of the four-point loop: the cycle B-C of the newest four
        entries A, B, C, D is counted and B and C are removed. */
    method CloseTop(r: seq<ValueTuple>, ghost closed: seq<Cycle>, ghost m0: seq<real>)
      returns (rest: seq<ValueTuple>, ghost closedNext: seq<Cycle>)
      requires matrix.Length == cfg.classCount * cfg.classCount && |m0| == matrix.Length
      requires ClosesAtTop(r) && InClasses(r, cfg.classCount) && CyclesIn(closed, cfg.classCount)
      requires matrix[..] == CountCycles(m0, cfg.classCount, cfg.fullInc, closed)
      modifies matrix
      ensures rest == r[..|r| - 3] + [r[|r| - 1]] && |rest| < |r|
      ensures closedNext == closed + [Cycle(r[|r| - 3], r[|r| - 2])]
      ensures InClasses(rest, cfg.classCount) && CyclesIn(closedNext, cfg.classCount)
      ensures Settled(Settle(r).residue, closed + Settle(r).cycles)
              == Settled(Settle(rest).residue, closedNext + Settle(rest).cycles)
      ensures matrix[..] == CountCycles(m0, cfg.classCount, cfg.fullInc, closedNext)
    {
      var n := |r|;
      var c := Cycle(r[n - 3], r[n - 2]);
      ClosureStep(r, closed, m0, cfg.classCount, cfg.fullInc);
      CountCycle(c);
      rest := r[..n - 3] + [r[n - 1]];
      closedNext := closed + [c];
    }

    /** The four-point loop on a residue stack r: while the newest four
        entries A, B, C, D close, the cycle B-C is counted into its matrix
        cell and B and C are removed, A and D keeping their places.  Returns
        what remains of r, and the cycles closed on the way. */
    method CloseCycles(r: seq<ValueTuple>) returns (rest: seq<ValueTuple>, ghost closed: seq<Cycle>)
      requires matrix.Length == cfg.classCount * cfg.classCount && InClasses(r, cfg.classCount)
      modifies matrix
      ensures Settle(r) == Settled(rest, closed) && CyclesIn(closed, cfg.classCount)
      ensures matrix[..] == CountCycles(old(matrix[..]), cfg.classCount, cfg.fullInc, closed)
    {
      ghost var m0 := matrix[..];
      closed := [];
      rest := r;
      while ClosesAtTop(rest)
        invariant InClasses(rest, cfg.classCount) && CyclesIn(closed, cfg.classCount)
        invariant Settle(r) == Settled(Settle(rest).residue, closed + Settle(rest).cycles)
        invariant matrix[..] == CountCycles(m0, cfg.classCount, cfg.fullInc, closed)
        decreases |rest|
      {
        rest, closed := CloseTop(rest, closed, m0);
      }
      assert Settle(rest) == Settled(rest, []);
    }

    /** The four-point loop run on the residue of the context. */
    method CycleFind()
      requires Wf(Model())
      modifies this, matrix
      ensures matrix == old(matrix)
      ensures Model() == Closed(old(Model())).engine
    {
      ghost var e := Model();
      var rest, closed := CloseCycles(residue);
      residue := rest;
      assert Model() == e.(residue := rest, matrix := matrix[..]);
    }

    /** The hysteresis and peak-valley filter for the point pt: the first
        point starts the search for extrema; while no turning point is known
        the extrema are tracked until they lie further apart than the
        hysteresis; afterwards a reversal beyond the hysteresis releases the
        interim turning point and a continued slope moves it. */
    method FindTurningPoint(pt: ValueTuple) returns (tp: Option<ValueTuple>)
      requires SearchWf(internal, cfg.classCount) && pt.cls < cfg.classCount
      modifies this
      ensures Filtered(state, internal, tp) == FilterPoint(old(state), old(cfg), old(internal), pt)
      ensures cfg == old(cfg) && residualMethod == old(residualMethod)
      ensures residue == old(residue) && matrix == old(matrix)
    {
      tp := None;
      if state == State.Init {
        internal := internal.(lo := pt, hi := pt);
        state := Busy;
      } else if state == Busy {
        if pt.value < internal.lo.value {
          if Exceeds(internal.hi.value - pt.value, cfg.hysteresis, cfg.strictHysteresis) {
            tp := Some(internal.hi);
            internal := internal.(lo := pt, slope := -1, interim := pt);
            state := BusyInterim;
          } else {
            internal := internal.(lo := pt);
          }
        } else if pt.value > internal.hi.value {
          if Exceeds(pt.value - internal.lo.value, cfg.hysteresis, cfg.strictHysteresis) {
            tp := Some(internal.lo);
            internal := internal.(hi := pt, slope := 1, interim := pt);
            state := BusyInterim;
          } else {
            internal := internal.(hi := pt);
          }
        }
      } else if state == BusyInterim {
        var delta := pt.value - internal.interim.value;
        var dir := Sign(delta);
        if dir * internal.slope < 0 && Exceeds(Abs(delta), cfg.hysteresis, cfg.strictHysteresis) {
          tp := Some(internal.interim);
          internal := internal.(interim := pt, slope := dir);
        } else if dir * internal.slope > 0 {
          internal := internal.(interim := pt);
        }
      }
    }

    /** One sample: the stream position advances, the value is classified,
        the filter runs, and a released turning point is pushed onto the
        residue and the four-point loop run; the released point is returned. */
    method FeedOnce(v: real) returns (tp: Option<ValueTuple>)
      requires Wf(Model())
      modifies this, matrix
      ensures matrix == old(matrix)
      ensures Model() == FeedOne(old(Model()), v).engine
      ensures AsSeq(tp) == FeedOne(old(Model()), v).tps
    {
      ghost var e := Model();
      internal := internal.(pos := internal.pos + 1);
      var pt := Sample(cfg, v, internal.pos);
      tp := FindTurningPoint(pt);
      ghost var f := FilterPoint(e.state, e.cfg, e.internal.(pos := e.internal.pos + 1), pt);
      ghost var e1 := e.(state := f.state, internal := f.internal);
      assert FeedOne(e, v) == Apply(e, f);
      assert Model() == e1;
      if tp.Some? {
        PushCloses(e1, tp.value);
        residue := residue + [tp.value];
        assert Model() == e1.(residue := e1.residue + [tp.value]);
        CycleFind();
      }
    }

    /** RFC_feed: refused outside the counting states; otherwise every sample
        is fed in order.  The turning points released on the way are
        returned, in order. */
    method Feed(data: seq<real>) returns (ok: bool, tps: seq<ValueTuple>)
      requires Feeding(state) ==> Wf(Model())
      modifies this, matrix
      ensures matrix == old(matrix)
      ensures ok == FeedSpec(old(Model()), data).0
      ensures Model() == FeedSpec(old(Model()), data).1.engine
      ensures tps == FeedSpec(old(Model()), data).1.tps
    {
      if !Feeding(state) {
        return false, [];
      }
      ghost var e0 := Model();
      tps := [];
      var i := 0;
      while i < |data|
        invariant 0 <= i <= |data|
        invariant matrix == old(matrix)
        invariant Model() == FeedAll(e0, data[..i]).engine
        invariant tps == FeedAll(e0, data[..i]).tps
      {
        var tp := FeedOnce(data[i]);
        FeedAllSnoc(e0, data[..i], data[i]);
        assert data[..i + 1] == data[..i] + [data[i]];
        tps := tps + AsSeq(tp);
        i := i + 1;
      }
      assert data[..i] == data;
      ok := true;
    }

    /** RFC_finalize with RFC_RES_NONE or RFC_RES_IGNORE: refused outside the
        counting states; an unknown residual method is an error; otherwise a
        pending interim turning point is pushed and the four-point loop run
        once more, the residue is left as it is and counting is finished.
        The turning point released is returned. */
    method Finalize(code: int) returns (ok: bool, tps: seq<ValueTuple>)
      requires Feeding(state) ==> Wf(Model())
      modifies this, matrix
      ensures matrix == old(matrix)
      ensures ok == FinalizeSpec(old(Model()), code).0
      ensures Model() == FinalizeSpec(old(Model()), code).1.engine
      ensures tps == FinalizeSpec(old(Model()), code).1.tps
    {
      if !Feeding(state) {
        return false, [];
      }
      var residual := ResidualOf(code);
      if residual.None? {
        state := Error;
        return false, [];
      }
      ghost var e := Model();
      tps := [];
      if state == BusyInterim {
        PushCloses(e, internal.interim);
        tps := [internal.interim];
        residue := residue + [internal.interim];
        CycleFind();
      }
      state := Finished;
      residualMethod := residual.value;
      ok := true;
    }
  }
}
