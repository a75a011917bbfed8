/** The C++ wrapper RainflowT of rainflow.hpp: a rainflow context m_ctx and
 *  the turning point storage m_tp that the engine fills through the tp_set,
 *  tp_get and tp_inc_damage delegates.  The storage is a 1-based buffer of
 *  tuples: tp_set appends (position 0) or replaces (position 1 .. size),
 *  and every stored tuple has tp_pos 0, the position being handed back to
 *  the caller's copy instead.
 */
module RainflowCpp {
  import opened Rainflow
  import opened RainflowEngine
  import opened RainflowContext

  /** No tuple carries a storage position. */
  predicate Unreferenced(tps: seq<ValueTuple>)
  {
    forall i :: 0 <= i < |tps| ==> tps[i].tpPos == 0
  }

  /** The tuples of the turning point search carry no storage position. */
  predicate Untracked(s: Search)
  {
    s.lo.tpPos == 0 && s.hi.tpPos == 0 && s.interim.tpPos == 0
  }

  /** A sample never carries a storage position, so neither does anything
      the search holds or releases. */
  lemma FeedOneUnreferenced(e: Rfc, v: real)
    requires Wf(e) && Untracked(e.internal)
    ensures Untracked(FeedOne(e, v).engine.internal) && Unreferenced(FeedOne(e, v).tps)
  {
    var s := e.internal.(pos := e.internal.pos + 1);
    var f := FilterPoint(e.state, e.cfg, s, Sample(e.cfg, v, s.pos));
    assert FeedOne(e, v) == Apply(e, f);
  }

  /** Every turning point RFC_feed hands to the storage has tp_pos 0. */
  lemma {:induction false} FeedAllUnreferenced(e: Rfc, data: seq<real>)
    requires Wf(e) && Untracked(e.internal)
    ensures Untracked(FeedAll(e, data).engine.internal) && Unreferenced(FeedAll(e, data).tps)
    decreases |data|
  {
    if data != [] {
      var init := data[..|data| - 1];
      FeedAllUnreferenced(e, init);
      var t := FeedAll(e, init);
      FeedOneUnreferenced(t.engine, data[|data| - 1]);
    }
  }

  /** RainflowT: the context m_ctx, the storage m_tp, and the storage size
      and capacity mirrored in m_ctx.tp_cnt and m_ctx.tp_cap.  init copies a
      zeroed context over m_ctx, so both read 0 until the next append, while
      m_tp keeps its tuples.  The library declares no constructor and leaves
      m_ctx undefined until init; the model starts from the zeroed context
      init copies in. */
  class RainflowT {
    var ctx: Context
    var tp: seq<ValueTuple>
    var tpCnt: nat
    var tpCap: nat

    /** Stored tuples carry no position, the mirrored size is the size and
        the capacity covers it (or both are still 0 from init), and the
        context is ready for the engine. */
    ghost predicate Valid()
      reads this, ctx, ctx.matrix
    {
      && Unreferenced(tp)
      && ((tpCnt == |tp| && |tp| <= tpCap) || (tpCnt == 0 && tpCap == 0))
      && Untracked(ctx.internal)
      && (Feeding(ctx.state) ==> Wf(ctx.Model()))
    }

    /** The model's starting point: empty storage and the zeroed context
        that init starts from. */
    constructor ()
      ensures Valid() && fresh(ctx) && ctx.Model() == Zeroed && tp == []
    {
      ctx := new Context();
      tp := [];
      tpCnt, tpCap := 0, 0;
    }

    /** tp_set(pos, tp).  Position 0 appends a tuple not yet stored and
        hands its new position back; a tuple that already has a position is
        left alone.  Position 1 .. size replaces that slot with a copy whose
        tp_pos is 0 and hands the position back.  A position beyond the size
        fails.  The second result is the caller's tp_pos after the call. */
    method TpSet(pos: nat, t: ValueTuple) returns (ok: bool, tpPos: nat)
      requires Valid()
      modifies this
      ensures Valid() && ctx == old(ctx)
      ensures pos == 0 && t.tpPos == 0 ==>
                ok && tp == old(tp) + [t] && tpPos == |tp| && tpCnt == |tp|
      ensures pos == 0 && t.tpPos != 0 ==>
                ok == (t.tpPos <= |old(tp)|) && tp == old(tp) && tpPos == t.tpPos
      ensures 0 < pos <= |old(tp)| ==>
                ok && tp == old(tp)[pos - 1 := t.(tpPos := 0)] && tpPos == pos
      ensures |old(tp)| < pos ==> !ok && tp == old(tp) && tpPos == t.tpPos
      ensures |tp| == |old(tp)| ==> tpCnt == old(tpCnt) && tpCap == old(tpCap)
    {
      tpPos := t.tpPos;
      if pos != 0 {
        if pos > |tp| {
          return false, tpPos;
        }
        tp := tp[pos - 1 := t.(tpPos := 0)];
        tpPos := pos;
        return true, tpPos;
      } else {
        if t.tpPos != 0 {
          return t.tpPos <= |tp|, tpPos;
        }
        tp := tp + [t];
        tpCnt := |tp|;
        tpPos := |tp|;
        var capacity: nat :| capacity >= |tp|;
        tpCap := capacity;
      }
      ok := true;
    }

    /** tp_get(pos, &tp): fails without an out pointer, at position 0 and
        beyond the size; otherwise yields the tuple in slot pos - 1.  The
        storage is not changed. */
    method TpGet(pos: nat, hasOut: bool) returns (ok: bool, t: ValueTuple)
      ensures ok <==> hasOut && 1 <= pos <= |tp|
      ensures ok ==> t == tp[pos - 1]
    {
      if !hasOut || pos == 0 || pos > |tp| {
        return false, ZeroTuple;
      }
      return true, tp[pos - 1];
    }

    /** tp_inc_damage(pos, damage): fails at position 0 and beyond the size;
        otherwise adds damage to the tuple in slot pos - 1 and to nothing
        else. */
    method TpIncDamage(pos: nat, damage: real) returns (ok: bool)
      requires Valid()
      modifies this
      ensures Valid() && ctx == old(ctx) && tpCnt == old(tpCnt) && tpCap == old(tpCap)
      ensures ok <==> 1 <= pos <= |old(tp)|
      ensures ok ==> tp == old(tp)[pos - 1 := old(tp)[pos - 1].(damage := old(tp)[pos - 1].damage + damage)]
      ensures !ok ==> tp == old(tp)
    {
      if pos == 0 || pos > |tp| {
        return false;
      }
      tp := tp[pos - 1 := tp[pos - 1].(damage := tp[pos - 1].damage + damage)];
      ok := true;
    }

    /** The engine hands each released turning point to tp_set with
        position 0, in order. */
    method AppendAll(tps: seq<ValueTuple>)
      requires Valid() && Unreferenced(tps)
      modifies this
      ensures Valid() && ctx == old(ctx) && tp == old(tp) + tps
    {
      var i := 0;
      while i < |tps|
        invariant 0 <= i <= |tps|
        invariant Valid() && ctx == old(ctx) && tp == old(tp) + tps[..i]
      {
        var ok, _ := TpSet(0, tps[i]);
        assert tps[..i + 1] == tps[..i] + [tps[i]];
        i := i + 1;
      }
      assert tps[..i] == tps;
    }

    /** init: a zero-initialised context, then RFC_init.  The storage is
        kept, but the zeroed context resets tp_cnt and tp_cap to 0. */
    method Init(counts: CountsType, classCount: nat, classWidth: real, classOffset: real,
                hysteresis: real, strict: bool) returns (ok: bool)
      requires Valid()
      modifies this
      ensures Valid() && fresh(ctx) && fresh(ctx.matrix) && tp == old(tp)
      ensures tpCnt == 0 && tpCap == 0
      ensures ok == InitSpec(Zeroed, counts, classCount, classWidth, classOffset, hysteresis, strict).0
      ensures ctx.Model() == InitSpec(Zeroed, counts, classCount, classWidth, classOffset, hysteresis, strict).1
    {
      ctx := new Context();
      tpCnt, tpCap := 0, 0;
      ok := ctx.Init(counts, classCount, classWidth, classOffset, hysteresis, strict);
    }

    /** feed: RFC_feed, with every turning point it releases appended to the
        storage. */
    method Feed(data: seq<real>) returns (ok: bool)
      requires Valid()
      modifies this, ctx, ctx.matrix
      ensures Valid() && ctx == old(ctx) && ctx.matrix == old(ctx.matrix)
      ensures ok == FeedSpec(old(ctx.Model()), data).0
      ensures ctx.Model() == FeedSpec(old(ctx.Model()), data).1.engine
      ensures tp == old(tp) + FeedSpec(old(ctx.Model()), data).1.tps
    {
      ghost var e := ctx.Model();
      var released;
      ok, released := ctx.Feed(data);
      if Feeding(e.state) {
        FeedAllUnreferenced(e, data);
      }
      AppendAll(released);
    }

    /** finalize: RFC_finalize, with the interim turning point it releases
        appended to the storage. */
    method Finalize(code: int) returns (ok: bool)
      requires Valid()
      modifies this, ctx, ctx.matrix
      ensures Valid() && ctx == old(ctx) && ctx.matrix == old(ctx.matrix)
      ensures ok == FinalizeSpec(old(ctx.Model()), code).0
      ensures ctx.Model() == FinalizeSpec(old(ctx.Model()), code).1.engine
      ensures tp == old(tp) + FinalizeSpec(old(ctx.Model()), code).1.tps
    {
      var released;
      ok, released := ctx.Finalize(code);
      AppendAll(released);
    }

    /** deinit: RFC_deinit.  The storage is kept. */
    method Deinit()
      requires Valid()
      modifies ctx
      ensures Valid() && tp == old(tp)
      ensures ctx.Model() == DeinitSpec(old(ctx.Model()))
    {
      ctx.Deinit();
    }
  }
}
