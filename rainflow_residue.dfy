/** The size of the residue buffer.  RFC_init gives the residue room for
 *  2 * class_count entries.  That is enough when the turning points pushed
 *  onto it alternate in class (each one a peak or a valley in class terms):
 *  the four-point loop keeps such a residue alternating, and a stable,
 *  alternating residue has ranges that first grow and then shrink, so it
 *  holds at most 2 * class_count - 1 entries and one more always fits.
 */
module RainflowResidue {
  import opened Rainflow

  function Dist(a: nat, b: nat): nat
  {
    if a < b then b - a else a - b
  }

  /** The class range of the slope from entry i to entry i + 1. */
  function Range(r: seq<ValueTuple>, i: nat): nat
    requires i + 1 < |r|
  {
    Dist(r[i].cls, r[i + 1].cls)
  }

  /** Entry i + 1 is a peak or a valley between its neighbours, in classes. */
  predicate TurnsAt(r: seq<ValueTuple>, i: nat)
    requires i + 2 < |r|
  {
    && r[i].cls != r[i + 1].cls && r[i + 1].cls != r[i + 2].cls
    && (r[i].cls < r[i + 1].cls <==> r[i + 2].cls < r[i + 1].cls)
  }

  /** Peaks and valleys alternate: consecutive entries lie in different
      classes and the direction turns at every entry. */
  predicate Alternating(r: seq<ValueTuple>)
  {
    && (|r| == 2 ==> r[0].cls != r[1].cls)
    && forall i: nat :: i + 2 < |r| ==> TurnsAt(r, i)
  }

  /** On an alternating residue the four-point condition compares ranges:
      the slope B-C closes exactly when it is no larger than either slope
      next to it. */
  lemma ClosesIffInnerRange(r: seq<ValueTuple>, i: nat)
    requires i + 3 < |r| && TurnsAt(r, i) && TurnsAt(r, i + 1)
    ensures ClosesAt(r, i) <==> Range(r, i + 1) <= Range(r, i) && Range(r, i + 1) <= Range(r, i + 2)
  {
  }

  /** A slice of an alternating residue alternates. */
  lemma AlternatingSlice(r: seq<ValueTuple>, lo: nat, hi: nat)
    requires Alternating(r) && lo <= hi <= |r|
    ensures Alternating(r[lo..hi])
  {
    var s := r[lo..hi];
    if |s| == 2 && |r| > 2 {
      if lo + 2 < |r| {
        assert TurnsAt(r, lo);
      } else {
        assert TurnsAt(r, lo - 1);
      }
    }
    forall i: nat | i + 2 < |s|
      ensures TurnsAt(s, i)
    {
      assert TurnsAt(r, lo + i);
    }
  }

  /** A slice of a stable residue is stable. */
  lemma StableSlice(r: seq<ValueTuple>, lo: nat, hi: nat)
    requires Stable(r) && lo <= hi <= |r|
    ensures Stable(r[lo..hi])
  {
    var s := r[lo..hi];
    forall i: nat | i + 3 < |s|
      ensures !ClosesAt(s, i)
    {
      assert !ClosesAt(r, lo + i);
    }
  }

  /** In a stable, alternating residue no inner slope is smaller than or
      equal to both of its neighbours. */
  lemma StableNoDip(r: seq<ValueTuple>, j: nat)
    requires Alternating(r) && Stable(r) && 1 <= j && j + 2 < |r|
    ensures Range(r, j) > Range(r, j - 1) || Range(r, j) > Range(r, j + 1)
  {
    assert TurnsAt(r, j - 1) && TurnsAt(r, j);
    assert !ClosesAt(r, j - 1);
    ClosesIffInnerRange(r, j - 1);
  }

  /** Counting slopes: a stable, alternating residue whose ranges all lie in
      [lo, hi] has at most 2 * (hi - lo + 1) slopes.  The smallest range can
      only sit at either end, so stripping the ends of range lo leaves a
      residue whose ranges lie in [lo + 1, hi]. */
  lemma {:induction false} SlopesBound(r: seq<ValueTuple>, lo: nat, hi: nat)
    requires Alternating(r) && Stable(r)
    requires forall j: nat :: j + 1 < |r| ==> lo <= Range(r, j) <= hi
    ensures |r| <= 1 || |r| <= 2 * (hi - lo + 1) + 1
    decreases hi + 1 - lo
  {
    if |r| >= 4 {
      var n := |r|;
      assert lo <= Range(r, 0) <= hi;
      var a := if Range(r, 0) == lo then 1 else 0;
      var b := if Range(r, n - 2) == lo then 1 else 0;
      var s := r[a..n - b];
      AlternatingSlice(r, a, n - b);
      StableSlice(r, a, n - b);
      forall j: nat | j + 1 < |s|
        ensures lo + 1 <= Range(s, j) <= hi
      {
        assert Range(s, j) == Range(r, a + j);
        if 1 <= a + j && a + j + 2 < n {
          StableNoDip(r, a + j);
        }
      }
      SlopesBound(s, lo + 1, hi);
    }
  }

  /** A stable, alternating residue inside class_count classes holds at most
      2 * class_count - 1 entries. */
  lemma StableResidueBound(r: seq<ValueTuple>, classCount: nat)
    requires classCount > 0 && InClasses(r, classCount) && Alternating(r) && Stable(r)
    ensures |r| < 2 * classCount
  {
    forall j: nat | j + 1 < |r|
      ensures 1 <= Range(r, j) <= classCount - 1
    {
      if |r| == 2 {
      } else if j + 2 < |r| {
        assert TurnsAt(r, j);
      } else {
        assert TurnsAt(r, j - 1);
      }
    }
    SlopesBound(r, 1, classCount - 1);
  }

  /** One closure keeps the residue alternating: with A, B, C, D alternating
      and B-C closing, D lies beyond A in the direction of B, so A and D
      alternate with what is below A. */
  lemma ClosureAlternating(r: seq<ValueTuple>)
    requires Alternating(r) && ClosesAtTop(r)
    ensures Alternating(r[..|r| - 3] + [r[|r| - 1]])
  {
    var n := |r|;
    var s := r[..n - 3] + [r[n - 1]];
    assert TurnsAt(r, n - 4) && TurnsAt(r, n - 3);
    assert ClosesAt(r, n - 4);
    forall i: nat | i + 2 < |s|
      ensures TurnsAt(s, i)
    {
      assert TurnsAt(r, i);
    }
  }

  /** The four-point loop keeps an alternating residue alternating. */
  lemma {:induction false} SettleAlternating(r: seq<ValueTuple>)
    requires Alternating(r)
    ensures Alternating(Settle(r).residue)
    decreases |r|
  {
    if ClosesAtTop(r) {
      var n := |r|;
      ClosureAlternating(r);
      SettleAlternating(r[..n - 3] + [r[n - 1]]);
    }
  }

  /** The newest step of the residue rises in class. */
  predicate RisesAtTop(r: seq<ValueTuple>)
    requires |r| >= 2
  {
    r[|r| - 2].cls < r[|r| - 1].cls
  }

  /** The four-point loop keeps the direction of the newest step of an
      alternating residue: a closure turns A, B, C, D into A, D, and D lies
      beyond A in the direction from C to D. */
  lemma {:induction false} SettleLastStep(r: seq<ValueTuple>)
    requires Alternating(r) && |r| >= 2
    ensures var s := Settle(r).residue;
            |s| >= 2 ==> (RisesAtTop(s) <==> RisesAtTop(r))
    decreases |r|
  {
    if ClosesAtTop(r) {
      var n := |r|;
      var rest := r[..n - 3] + [r[n - 1]];
      assert TurnsAt(r, n - 4) && TurnsAt(r, n - 3);
      assert ClosesAt(r, n - 4);
      assert rest[|rest| - 2] == r[n - 4] && rest[|rest| - 1] == r[n - 1];
      ClosureAlternating(r);
      SettleLastStep(rest);
    }
  }

  /** A new entry that turns the direction at the newest entry, in a class
      of its own, keeps the residue alternating. */
  lemma AlternatingSnoc(r: seq<ValueTuple>, x: ValueTuple)
    requires Alternating(r) && r != [] && x.cls != r[|r| - 1].cls
    requires |r| >= 2 ==> (RisesAtTop(r) <==> x.cls < r[|r| - 1].cls)
    ensures Alternating(r + [x])
  {
    var s := r + [x];
    forall i: nat | i + 2 < |s|
      ensures TurnsAt(s, i)
    {
      if i + 3 < |s| {
        assert TurnsAt(r, i);
      } else if |r| == 2 {
        assert r[0].cls != r[1].cls;
      } else {
        assert TurnsAt(r, i - 1);
      }
    }
  }

  /** Replacing the newest entry by one on the same side of the entry below
      it, in a different class, keeps the residue alternating. */
  lemma AlternatingReplaceLast(r: seq<ValueTuple>, x: ValueTuple, y: ValueTuple)
    requires Alternating(r + [x]) && r != [] && y.cls != r[|r| - 1].cls
    requires r[|r| - 1].cls < x.cls <==> r[|r| - 1].cls < y.cls
    ensures Alternating(r + [y])
  {
    var s, t := r + [x], r + [y];
    forall i: nat | i + 2 < |t|
      ensures TurnsAt(t, i)
    {
      assert TurnsAt(s, i);
    }
  }

  /** The residue buffer of 2 * class_count entries suffices: pushing an
      alternating turning point onto a stable residue needs at most that many
      slots, and the four-point loop leaves a stable, alternating residue of
      fewer. */
  lemma PushFits(r: seq<ValueTuple>, tp: ValueTuple, classCount: nat)
    requires classCount > 0 && InClasses(r + [tp], classCount)
    requires Stable(r) && Alternating(r + [tp])
    ensures |r + [tp]| <= 2 * classCount
    ensures var s := Settle(r + [tp]).residue;
            Stable(s) && Alternating(s) && |s| < 2 * classCount
  {
    var p := r + [tp];
    assert p[..|r|] == r;
    AlternatingSlice(p, 0, |r|);
    StableResidueBound(r, classCount);
    SettleStable(p);
    SettleAlternating(p);
    SettleClasses(p, classCount);
    StableResidueBound(Settle(p).residue, classCount);
  }
}
