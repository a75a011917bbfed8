/** Specification of the four-point rainflow counting engine of rainflow.h.
 *
 *  The engine state (rfc_ctx) is the value type Rfc; the operations RFC_init,
 *  RFC_feed and RFC_finalize are the functions InitSpec, FeedAll and
 *  FinalizeSpec.  The imperative context in RainflowContext is proved against
 *  these functions.  The pipeline per sample is: stream position and class
 *  (discretisation), hysteresis and peak-valley filtering (FilterPoint), and,
 *  for each accepted turning point, the four-point closure on the residue
 *  (Settle) with the closed cycles counted into the matrix (CountCycles).
 */
module Rainflow {

  datatype Option<T> = None | Some(value: T)

  function AsSeq<T>(o: Option<T>): (s: seq<T>)
    ensures |s| <= 1
    ensures o.Some? <==> |s| == 1
    ensures o.Some? ==> s[0] == o.value
  {
    match o
    case None => []
    case Some(v) => [v]
  }

  /** rfc_value_tuple: value, class (base 0), stream position (base 1), and
      the two fields of the full build, tp_pos and damage. */
  datatype ValueTuple = ValueTuple(value: real, cls: nat, pos: nat, tpPos: nat, damage: real)

  const ZeroTuple := ValueTuple(0.0, 0, 0, 0, 0.0)

  /** The values of a sequence of tuples, in order. */
  function Values(r: seq<ValueTuple>): (vs: seq<real>)
    ensures |vs| == |r| && forall i :: 0 <= i < |r| ==> vs[i] == r[i].value
  {
    if r == [] then [] else Values(r[..|r| - 1]) + [r[|r| - 1].value]
  }

  /** RFC_USE_INTEGRAL_COUNTS selects unsigned long long counts, otherwise double. */
  datatype CountsType = IntegralCounts | FloatingCounts

  /** A closed cycle, directional: from the older turning point B to the newer C. */
  datatype Cycle = Cycle(from: ValueTuple, to: ValueTuple)

  /* ---------------------------------------------------------------------- */
  /* Counter increments                                                      */
  /* ---------------------------------------------------------------------- */

  const ULLONG_MAX: int := 0xFFFF_FFFF_FFFF_FFFF

  /** Counts below 2^52 keep half-cycle resolution in a double. */
  const DOUBLE_HALF_EXACT: real := 4503599627370496.0

  function FullIncrement(t: CountsType): real
  {
    if t.IntegralCounts? then 2.0 else 1.0
  }

  function HalfIncrement(t: CountsType): real
  {
    if t.IntegralCounts? then 1.0 else 0.5
  }

  /** RFC_COUNTS_LIMIT: the largest count that may still be incremented. */
  function CountsLimit(t: CountsType): real
  {
    if t.IntegralCounts? then (ULLONG_MAX - 2) as real else 4500000000000000.0 - 1.0
  }

  /** The largest count the counts type holds exactly at half-cycle resolution. */
  function CountsCapacity(t: CountsType): real
  {
    if t.IntegralCounts? then ULLONG_MAX as real else DOUBLE_HALF_EXACT
  }

  /** The half increment is half the full one, and a count at or below the
      limit can take one more full increment without leaving the type. */
  lemma IncrementsAgree(t: CountsType, count: real)
    requires 0.0 <= count <= CountsLimit(t)
    ensures HalfIncrement(t) * 2.0 == FullIncrement(t)
    ensures count + FullIncrement(t) <= CountsCapacity(t)
  {
  }

  /* ---------------------------------------------------------------------- */
  /* Discretisation                                                          */
  /* ---------------------------------------------------------------------- */

  /** Class of a value: half-open classes [offset + i*width, offset + (i+1)*width),
      values outside the class range clamped to the first or last class. */
  function Classify(classCount: nat, classWidth: real, classOffset: real, v: real): (c: nat)
    requires classCount > 0 && classWidth > 0.0
    ensures c < classCount
    ensures v < classOffset ==> c == 0
    ensures v >= classOffset + classCount as real * classWidth ==> c == classCount - 1
    ensures classOffset <= v < classOffset + classCount as real * classWidth ==>
              classOffset + c as real * classWidth <= v < classOffset + (c + 1) as real * classWidth
  {
    var q := ((v - classOffset) / classWidth).Floor;
    FloorBounds(v - classOffset, classWidth, q, classCount);
    if q < 0 then 0 else if q >= classCount then classCount - 1 else q
  }

  lemma FloorBounds(x: real, w: real, q: int, k: nat)
    requires w > 0.0 && q == (x / w).Floor
    ensures x < 0.0 ==> q < 0
    ensures 0.0 <= x < k as real * w ==> 0 <= q < k
    ensures k as real * w <= x ==> k <= q
    ensures q as real * w <= x < (q + 1) as real * w
  {
    FloorScaled(x, w, q);
    IntervalSign(x, w, q);
    IntervalBelow(x, w, q, k);
  }

  /** The interval [q*w, (q+1)*w) holding x lies at or above 0 exactly when x does. */
  lemma IntervalSign(x: real, w: real, q: int)
    requires w > 0.0 && q as real * w <= x < (q + 1) as real * w
    ensures x < 0.0 ==> q < 0
    ensures 0.0 <= x ==> 0 <= q
  {
    if q >= 0 {
      ScaleLe(0.0, q as real, w);
    } else {
      ScaleLe((q + 1) as real, 0.0, w);
    }
  }

  /** The interval [q*w, (q+1)*w) holding x lies below k*w exactly when x does. */
  lemma IntervalBelow(x: real, w: real, q: int, k: nat)
    requires w > 0.0 && q as real * w <= x < (q + 1) as real * w
    ensures x < k as real * w ==> q < k
    ensures k as real * w <= x ==> k <= q
  {
    if k <= q {
      ScaleLe(k as real, q as real, w);
    } else {
      ScaleLe((q + 1) as real, k as real, w);
    }
  }

  lemma FloorScaled(x: real, w: real, q: int)
    requires w > 0.0 && q == (x / w).Floor
    ensures q as real * w <= x
    ensures x < (q + 1) as real * w
  {
    var y := x / w;
    var b := (q + 1) as real;
    assert y * w == x;
    assert q as real <= y < b;
    ScaleLe(q as real, y, w);
    ScaleLt(y, b, w);
    assert y * w < b * w;
    assert x < b * w;
    assert x < (q + 1) as real * w;
  }

  lemma ScaleLe(a: real, b: real, w: real)
    requires a <= b && w > 0.0
    ensures a * w <= b * w
  {
    assert b * w - a * w == (b - a) * w;
  }

  lemma ScaleLt(a: real, b: real, w: real)
    requires a < b && w > 0.0
    ensures a * w < b * w
  {
    assert b * w - a * w == (b - a) * w;
  }

  /** Discretisation is monotone: a larger value never gets a smaller class. */
  lemma ClassifyMonotone(classCount: nat, classWidth: real, classOffset: real, v: real, u: real)
    requires classCount > 0 && classWidth > 0.0 && v <= u
    ensures Classify(classCount, classWidth, classOffset, v) <= Classify(classCount, classWidth, classOffset, u)
  {
    var x, y := (v - classOffset) / classWidth, (u - classOffset) / classWidth;
    assert y - x == (u - v) / classWidth;
    assert x <= y;
  }

  /* ---------------------------------------------------------------------- */
  /* Four-point closure                                                      */
  /* ---------------------------------------------------------------------- */

  function Min(a: int, b: int): int { if a <= b then a else b }

  function Max(a: int, b: int): int { if a <= b then b else a }

  /** Slope B-C closes when min(B,C) >= min(A,D) and max(B,C) <= max(A,D). */
  predicate Closes(a: nat, b: nat, c: nat, d: nat)
  {
    Min(b, c) >= Min(a, d) && Max(b, c) <= Max(a, d)
  }

  /** The quadruple starting at index i of the residue closes. */
  predicate ClosesAt(r: seq<ValueTuple>, i: nat)
    requires i + 3 < |r|
  {
    Closes(r[i].cls, r[i + 1].cls, r[i + 2].cls, r[i + 3].cls)
  }

  /** The four newest residue entries close. */
  predicate ClosesAtTop(r: seq<ValueTuple>)
  {
    |r| >= 4 && ClosesAt(r, |r| - 4)
  }

  /** No four consecutive residue entries satisfy the closure condition. */
  ghost predicate Stable(r: seq<ValueTuple>)
  {
    forall i: nat :: i + 3 < |r| ==> !ClosesAt(r, i)
  }

  /** Residue entries are in stream order. */
  ghost predicate Chronological(r: seq<ValueTuple>)
  {
    forall i, j :: 0 <= i < j < |r| ==> r[i].pos < r[j].pos
  }

  /** Outcome of the closure loop: the remaining residue and the closed cycles,
      in the order they were closed. */
  datatype Settled = Settled(residue: seq<ValueTuple>, cycles: seq<Cycle>)

  /** The four-point loop run after a turning point is appended: while the
      newest four entries A, B, C, D close, the cycle B-C is emitted and B and C
      are removed, A and D staying in place. */
  function Settle(r: seq<ValueTuple>): (s: Settled)
    ensures |s.residue| + 2 * |s.cycles| == |r|
    ensures |r| > 0 ==> |s.residue| > 0
    ensures !ClosesAtTop(s.residue)
    decreases |r|
  {
    if ClosesAtTop(r) then
      var n := |r|;
      Settled(Settle(r[..n - 3] + [r[n - 1]]).residue,
              [Cycle(r[n - 3], r[n - 2])] + Settle(r[..n - 3] + [r[n - 1]]).cycles)
    else
      Settled(r, [])
  }

  /** The closure loop only ever removes entries below the newest one: what
      remains is a prefix of the old residue followed by its newest entry. */
  lemma {:induction false} SettleKeepsPrefix(r: seq<ValueTuple>)
    requires |r| > 0
    ensures var s := Settle(r).residue;
            s == r[..|s| - 1] + [r[|r| - 1]]
    decreases |r|
  {
    if ClosesAtTop(r) {
      var n := |r|;
      var rest := r[..n - 3] + [r[n - 1]];
      SettleKeepsPrefix(rest);
      var s := Settle(rest).residue;
      assert s[..|s| - 1] == rest[..|s| - 1] == r[..|s| - 1];
    }
  }

  lemma StablePrefix(r: seq<ValueTuple>, k: nat)
    requires Stable(r) && k <= |r|
    ensures Stable(r[..k])
  {
    forall i: nat | i + 3 < k
      ensures !ClosesAt(r[..k], i)
    {
      assert !ClosesAt(r, i);
    }
  }

  /** After a push-and-close step no four consecutive entries close, provided
      none did before the push. */
  lemma {:induction false} SettleStable(r: seq<ValueTuple>)
    requires |r| > 0 && Stable(r[..|r| - 1])
    ensures Stable(Settle(r).residue)
    decreases |r|
  {
    var n := |r|;
    if ClosesAtTop(r) {
      var rest := r[..n - 3] + [r[n - 1]];
      StablePrefix(r[..n - 1], n - 3);
      assert rest[..|rest| - 1] == r[..n - 1][..n - 3];
      SettleStable(rest);
    } else {
      forall i: nat | i + 3 < n
        ensures !ClosesAt(r, i)
      {
        if i + 3 < n - 1 {
          assert !ClosesAt(r[..n - 1], i);
        }
      }
    }
  }

  /** The closure loop keeps the stream order of the residue. */
  lemma SettleChronological(r: seq<ValueTuple>)
    requires Chronological(r)
    ensures Chronological(Settle(r).residue)
  {
    var s := Settle(r).residue;
    if |r| > 0 {
      SettleKeepsPrefix(r);
      forall i, j | 0 <= i < j < |s|
        ensures s[i].pos < s[j].pos
      {
        if j == |s| - 1 {
          assert s[j] == r[|r| - 1];
          assert s[i] == r[i];
        } else {
          assert s[i] == r[i] && s[j] == r[j];
        }
      }
    }
  }

  /** One closure: B and C leave the residue, A, D and all older entries keep
      their order, and the cycle runs from B to C. */
  lemma OneClosure(r: seq<ValueTuple>)
    requires ClosesAtTop(r)
    ensures var n := |r|;
            var s := Settle(r);
            s.cycles[0] == Cycle(r[n - 3], r[n - 2]) &&
            s == Settle(r[..n - 3] + [r[n - 1]]).(cycles := [Cycle(r[n - 3], r[n - 2])] + Settle(r[..n - 3] + [r[n - 1]]).cycles)
  {
  }

  /** The closure rule: the loop counts a cycle exactly when the newest four
      entries A, B, C, D satisfy min(B, C) >= min(A, D) and
      max(B, C) <= max(A, D), ties included, and that first cycle runs from B
      to C; otherwise the residue is left as it is. */
  lemma ClosureRule(r: seq<ValueTuple>)
    requires |r| >= 4
    ensures var n := |r|;
            var s := Settle(r);
            && (s.cycles != [] <==> Closes(r[n - 4].cls, r[n - 3].cls, r[n - 2].cls, r[n - 1].cls))
            && (s.cycles != [] ==> s.cycles[0] == Cycle(r[n - 3], r[n - 2]))
            && (s.cycles == [] ==> s.residue == r)
  {
    if ClosesAtTop(r) {
      OneClosure(r);
    }
  }

  /** The four-point method over a stream of turning points, starting from
      residue r: each turning point is appended and the closure loop run. */
  function FourPoint(r: seq<ValueTuple>, tps: seq<ValueTuple>): (s: Settled)
    ensures |s.residue| + 2 * |s.cycles| == |r| + |tps|
    decreases |tps|
  {
    if tps == [] then Settled(r, [])
    else
      var p := FourPoint(r, tps[..|tps| - 1]);
      var q := Settle(p.residue + [tps[|tps| - 1]]);
      Settled(q.residue, p.cycles + q.cycles)
  }

  /** Appending one more turning point to a stream. */
  lemma FourPointSnoc(r: seq<ValueTuple>, tps: seq<ValueTuple>, tp: ValueTuple)
    ensures var p := FourPoint(r, tps);
            var q := Settle(p.residue + [tp]);
            FourPoint(r, tps + [tp]) == Settled(q.residue, p.cycles + q.cycles)
  {
    assert (tps + [tp])[..|tps|] == tps;
  }

  lemma SnocSplit<T>(a: seq<T>, b: seq<T>)
    requires b != []
    ensures b[..|b| - 1] + [b[|b| - 1]] == b
    ensures (a + b[..|b| - 1]) + [b[|b| - 1]] == a + b
  {
  }

  lemma AppendAssoc<T>(x: seq<T>, y: seq<T>, z: seq<T>)
    ensures (x + y) + z == x + (y + z)
  {
  }

  /** Feeding a stream in two pieces, the second starting from the residue
      the first left, counts the same cycles as feeding it at once. */
  lemma {:induction false} FourPointAppend(r: seq<ValueTuple>, a: seq<ValueTuple>, b: seq<ValueTuple>)
    ensures var p := FourPoint(r, a);
            var q := FourPoint(p.residue, b);
            FourPoint(r, a + b) == Settled(q.residue, p.cycles + q.cycles)
    decreases |b|
  {
    if b == [] {
      assert a + b == a;
    } else {
      var b0 := b[..|b| - 1];
      var tp := b[|b| - 1];
      var p := FourPoint(r, a);
      var q0 := FourPoint(p.residue, b0);
      var last := Settle(q0.residue + [tp]);
      FourPointAppend(r, a, b0);
      assert FourPoint(r, a + b0) == Settled(q0.residue, p.cycles + q0.cycles);
      SnocSplit(a, b);
      FourPointSnoc(r, a + b0, tp);
      assert FourPoint(r, a + b) == Settled(last.residue, (p.cycles + q0.cycles) + last.cycles);
      FourPointSnoc(p.residue, b0, tp);
      assert FourPoint(p.residue, b) == Settled(last.residue, q0.cycles + last.cycles);
      AppendAssoc(p.cycles, q0.cycles, last.cycles);
    }
  }

  /** Every entry lies in a class below classCount. */
  predicate InClasses(r: seq<ValueTuple>, classCount: nat)
  {
    forall i :: 0 <= i < |r| ==> r[i].cls < classCount
  }

  /** The closure loop only moves entries around: classes stay in range and
      every cycle runs between two classes of the residue it started from. */
  lemma {:induction false} SettleClasses(r: seq<ValueTuple>, classCount: nat)
    requires InClasses(r, classCount)
    ensures InClasses(Settle(r).residue, classCount)
    ensures CyclesIn(Settle(r).cycles, classCount)
    decreases |r|
  {
    if ClosesAtTop(r) {
      var n := |r|;
      var rest := r[..n - 3] + [r[n - 1]];
      assert InClasses(rest, classCount) by {
        forall i | 0 <= i < |rest|
          ensures rest[i].cls < classCount
        {
          if i < n - 3 { assert rest[i] == r[i]; } else { assert rest[i] == r[n - 1]; }
        }
      }
      SettleClasses(rest, classCount);
      var s := Settle(rest);
      var cs := [Cycle(r[n - 3], r[n - 2])] + s.cycles;
      assert Settle(r).cycles == cs;
      forall i | 0 <= i < |cs|
        ensures cs[i].from.cls < classCount && cs[i].to.cls < classCount
      {
        if i > 0 { assert cs[i] == s.cycles[i - 1]; }
      }
    }
  }

  /* ---------------------------------------------------------------------- */
  /* The rainflow matrix                                                     */
  /* ---------------------------------------------------------------------- */

  /** Index of the directional cell (from, to) in the dense matrix. */
  function CellIndex(from: nat, to: nat, classCount: nat): nat
  {
    from * classCount + to
  }

  lemma CellInRange(from: nat, to: nat, classCount: nat)
    requires from < classCount && to < classCount
    ensures CellIndex(from, to, classCount) < classCount * classCount
  {
    MulLe(from, classCount - 1, classCount);
    assert (classCount - 1) * classCount + classCount == classCount * classCount;
  }

  /** Two different directional cells never share an index. */
  lemma {:induction false} MulLe(a: nat, b: nat, k: nat)
    requires a <= b
    ensures a * k <= b * k
    decreases b - a
  {
    if a < b {
      MulLe(a + 1, b, k);
      assert (a + 1) * k == a * k + k;
    }
  }

  /** One class row lies wholly below any later one. */
  lemma RowBelow(a: nat, b: nat, k: nat)
    requires a < b
    ensures a * k + k <= b * k
  {
    MulLe(a + 1, b, k);
    assert (a + 1) * k == a * k + k;
  }

  lemma CellInjective(f1: nat, t1: nat, f2: nat, t2: nat, classCount: nat)
    requires f1 < classCount && t1 < classCount && f2 < classCount && t2 < classCount
    requires CellIndex(f1, t1, classCount) == CellIndex(f2, t2, classCount)
    ensures f1 == f2 && t1 == t2
  {
    if f1 < f2 {
      RowBelow(f1, f2, classCount);
    } else if f2 < f1 {
      RowBelow(f2, f1, classCount);
    }
  }

  function Zeros(n: nat): (m: seq<real>)
    ensures |m| == n && Total(m) == 0.0
    ensures forall i :: 0 <= i < n ==> m[i] == 0.0
  {
    if n == 0 then [] else [0.0] + Zeros(n - 1)
  }

  /** Sum over all matrix cells. */
  function Total(m: seq<real>): real
  {
    if m == [] then 0.0 else m[0] + Total(m[1..])
  }

  lemma {:induction false} TotalUpdate(m: seq<real>, i: nat, x: real)
    requires i < |m|
    ensures Total(m[i := m[i] + x]) == Total(m) + x
    decreases |m|
  {
    if i == 0 {
      assert m[i := m[i] + x][1..] == m[1..];
    } else {
      TotalUpdate(m[1..], i - 1, x);
      assert m[i := m[i] + x][1..] == m[1..][i - 1 := m[i] + x];
    }
  }

  /** Counting one closed cycle into cell (from, to). */
  function CountCycle(m: seq<real>, classCount: nat, inc: real, c: Cycle): (r: seq<real>)
    requires |m| == classCount * classCount
    requires c.from.cls < classCount && c.to.cls < classCount
    ensures |r| == |m|
    ensures Total(r) == Total(m) + inc
  {
    var idx := CellIndex(c.from.cls, c.to.cls, classCount);
    CellInRange(c.from.cls, c.to.cls, classCount);
    TotalUpdate(m, idx, inc);
    m[idx := m[idx] + inc]
  }

  /** On closure the directional cell (class(B), class(C)) grows by the
      increment and no other cell changes. */
  lemma CountCycleCells(m: seq<real>, classCount: nat, inc: real, c: Cycle, f: nat, t: nat)
    requires |m| == classCount * classCount
    requires c.from.cls < classCount && c.to.cls < classCount
    requires f < classCount && t < classCount
    ensures CellIndex(f, t, classCount) < |m|
    ensures CountCycle(m, classCount, inc, c)[CellIndex(f, t, classCount)] ==
              if f == c.from.cls && t == c.to.cls then m[CellIndex(f, t, classCount)] + inc
              else m[CellIndex(f, t, classCount)]
  {
    CellInRange(f, t, classCount);
    CellInRange(c.from.cls, c.to.cls, classCount);
    if CellIndex(f, t, classCount) == CellIndex(c.from.cls, c.to.cls, classCount) {
      CellInjective(f, t, c.from.cls, c.to.cls, classCount);
    }
  }

  predicate CyclesIn(cs: seq<Cycle>, classCount: nat)
  {
    forall i :: 0 <= i < |cs| ==> cs[i].from.cls < classCount && cs[i].to.cls < classCount
  }

  /** n increments of size inc added one by one. */
  function Times(n: nat, inc: real): real
  {
    if n == 0 then 0.0 else Times(n - 1, inc) + inc
  }

  lemma {:induction false} TimesAdd(a: nat, b: nat, inc: real)
    ensures Times(a + b, inc) == Times(a, inc) + Times(b, inc)
    decreases b
  {
    if b > 0 {
      TimesAdd(a, b - 1, inc);
    }
  }

  lemma {:induction false} TimesIsProduct(n: nat, inc: real)
    ensures Times(n, inc) == n as real * inc
  {
    if n > 0 {
      TimesIsProduct(n - 1, inc);
      assert n as real * inc == (n - 1) as real * inc + inc;
    }
  }

  /** Counting a sequence of closed cycles, in order. */
  function CountCycles(m: seq<real>, classCount: nat, inc: real, cs: seq<Cycle>): (r: seq<real>)
    requires |m| == classCount * classCount && CyclesIn(cs, classCount)
    ensures |r| == |m|
    ensures Total(r) == Total(m) + Times(|cs|, inc)
    decreases |cs|
  {
    if cs == [] then m
    else
      var init := cs[..|cs| - 1];
      assert CyclesIn(init, classCount);
      var prev := CountCycles(m, classCount, inc, init);
      CountCycle(prev, classCount, inc, cs[|cs| - 1])
  }


  /** How many of the cycles go from class f to class t. */
  function CellCount(cs: seq<Cycle>, f: nat, t: nat): (n: nat)
    ensures n <= |cs|
  {
    if cs == [] then 0
    else CellCount(cs[..|cs| - 1], f, t) + (if cs[|cs| - 1].from.cls == f && cs[|cs| - 1].to.cls == t then 1 else 0)
  }

  /** The directional cell (from class, to class) of each cycle, in closing order. */
  function Cells(cs: seq<Cycle>): (ps: seq<(nat, nat)>)
    ensures |ps| == |cs| && forall i :: 0 <= i < |cs| ==> ps[i] == (cs[i].from.cls, cs[i].to.cls)
  {
    if cs == [] then [] else Cells(cs[..|cs| - 1]) + [(cs[|cs| - 1].from.cls, cs[|cs| - 1].to.cls)]
  }

  /** The count of a cell is the multiplicity of the cell among the cycles' cells. */
  lemma {:induction false} CellCountCells(cs: seq<Cycle>, f: nat, t: nat)
    ensures CellCount(cs, f, t) == multiset(Cells(cs))[(f, t)]
    decreases |cs|
  {
    if cs != [] {
      var init := cs[..|cs| - 1];
      CellCountCells(init, f, t);
      assert Cells(cs) == Cells(init) + [(cs[|cs| - 1].from.cls, cs[|cs| - 1].to.cls)];
    }
  }

  /** Every cell of the matrix grows by one increment per cycle counted into
      it, and by nothing else. */
  lemma {:induction false} CountCyclesCell(m: seq<real>, classCount: nat, inc: real, cs: seq<Cycle>, f: nat, t: nat)
    requires |m| == classCount * classCount && CyclesIn(cs, classCount)
    requires f < classCount && t < classCount
    ensures CellIndex(f, t, classCount) < |m|
    ensures CountCycles(m, classCount, inc, cs)[CellIndex(f, t, classCount)] ==
              m[CellIndex(f, t, classCount)] + Times(CellCount(cs, f, t), inc)
    decreases |cs|
  {
    CellInRange(f, t, classCount);
    if cs != [] {
      var init := cs[..|cs| - 1];
      assert CyclesIn(init, classCount);
      CountCyclesCell(m, classCount, inc, init, f, t);
      CountCycleCells(CountCycles(m, classCount, inc, init), classCount, inc, cs[|cs| - 1], f, t);
    }
  }

  /** A matrix that starts all zero holds, in total, one increment per cycle. */
  lemma CountedTotal(m: seq<real>, classCount: nat, inc: real, cs: seq<Cycle>)
    requires CyclesIn(cs, classCount) && m == CountCycles(Zeros(classCount * classCount), classCount, inc, cs)
    ensures Total(m) == Times(|cs|, inc)
  {
    assert Total(Zeros(classCount * classCount)) == 0.0;
  }

  /** The number of cycles is the total divided by the increment. */
  lemma CyclesFromTotal(total: real, n: nat, inc: real)
    requires inc > 0.0 && total == Times(n, inc)
    ensures total / inc == n as real
  {
    TimesIsProduct(n, inc);
  }

  /** Counting two runs of cycles one after the other is counting them together. */
  lemma {:induction false} CountCyclesAppend(m: seq<real>, classCount: nat, inc: real, a: seq<Cycle>, b: seq<Cycle>)
    requires |m| == classCount * classCount && CyclesIn(a, classCount) && CyclesIn(b, classCount)
    ensures CyclesIn(a + b, classCount)
    ensures CountCycles(CountCycles(m, classCount, inc, a), classCount, inc, b) ==
            CountCycles(m, classCount, inc, a + b)
    decreases |b|
  {
    assert CyclesIn(a + b, classCount) by {
      forall i | 0 <= i < |a + b|
        ensures (a + b)[i].from.cls < classCount && (a + b)[i].to.cls < classCount
      {
        if i < |a| { assert (a + b)[i] == a[i]; } else { assert (a + b)[i] == b[i - |a|]; }
      }
    }
    if b == [] {
      assert a + b == a;
    } else {
      var init := b[..|b| - 1];
      assert CyclesIn(init, classCount);
      CountCyclesAppend(m, classCount, inc, a, init);
      assert (a + b)[..|a + b| - 1] == a + init;
      assert (a + b)[|a + b| - 1] == b[|b| - 1];
    }
  }

  /** Every entry has a stream position in [1, pos]. */
  predicate PositionsIn(r: seq<ValueTuple>, pos: nat)
  {
    forall i :: 0 <= i < |r| ==> 1 <= r[i].pos <= pos
  }

  lemma ChronologicalPush(r: seq<ValueTuple>, tp: ValueTuple)
    requires Chronological(r)
    requires r != [] ==> r[|r| - 1].pos < tp.pos
    ensures Chronological(r + [tp])
  {
    var r' := r + [tp];
    forall i, j | 0 <= i < j < |r'|
      ensures r'[i].pos < r'[j].pos
    {
      if j == |r| {
        assert r'[i] == r[i];
        if i < |r| - 1 {
          assert r[i].pos < r[|r| - 1].pos;
        }
      } else {
        assert r'[i] == r[i] && r'[j] == r[j];
      }
    }
  }

  /** The residue invariant: no four consecutive entries close, entries in
      stream order, positions base 1 and not beyond the current position. */
  ghost predicate ResidueInv(r: seq<ValueTuple>, pos: nat)
  {
    Stable(r) && Chronological(r) && PositionsIn(r, pos)
  }

  lemma ResidueInvLater(r: seq<ValueTuple>, pos: nat, pos': nat)
    requires ResidueInv(r, pos) && pos <= pos'
    ensures ResidueInv(r, pos')
  {
  }

  /** Pushing a turning point newer than every entry onto a stable residue in
      stream order, then closing, leaves a stable residue in stream order. */
  lemma SettlePushed(r: seq<ValueTuple>, tp: ValueTuple, pos: nat)
    requires ResidueInv(r, pos)
    requires r != [] ==> r[|r| - 1].pos < tp.pos
    requires 1 <= tp.pos <= pos
    ensures ResidueInv(Settle(r + [tp]).residue, pos)
  {
    var r' := r + [tp];
    assert r'[..|r'| - 1] == r;
    SettleStable(r');
    ChronologicalPush(r, tp);
    PositionsPush(r, tp, pos);
    SettleChronological(r');
    SettlePositions(r', pos);
  }

  lemma PositionsPush(r: seq<ValueTuple>, tp: ValueTuple, pos: nat)
    requires PositionsIn(r, pos) && 1 <= tp.pos <= pos
    ensures PositionsIn(r + [tp], pos)
  {
    forall i | 0 <= i < |r + [tp]|
      ensures 1 <= (r + [tp])[i].pos <= pos
    {
      if i < |r| { assert (r + [tp])[i] == r[i]; }
    }
  }

  /** The closure loop keeps every stream position it had. */
  lemma SettlePositions(r: seq<ValueTuple>, pos: nat)
    requires PositionsIn(r, pos)
    ensures PositionsIn(Settle(r).residue, pos)
  {
    if r != [] {
      var s := Settle(r).residue;
      SettleKeepsPrefix(r);
      forall i | 0 <= i < |s|
        ensures 1 <= s[i].pos <= pos
      {
        if i < |s| - 1 { assert s[i] == r[i]; } else { assert s[i] == r[|r| - 1]; }
      }
    }
  }
}
