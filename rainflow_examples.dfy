/** The worked examples of the C test suite (test/rfc_test.c), replayed on
    the model.  The examples use classes of width 1 starting at 0.5, so that
    the integer value k lies in class k - 1 (the 1-based class k of rfm_peek).
    Each signal is already peak-valley filtered, so every sample becomes a
    turning point (RunReversing) and the residue and the cycles are what the
    four-point method makes of the samples; the traces below replay that
    method turning point by turning point. */
module RainflowExamples {
  import opened Rainflow
  import opened RainflowEngine

  /** With classes of width 1 from 0.5 the integer value k lies in class k - 1. */
  lemma IntegerClass(c: Config, k: nat, n: nat)
    requires c.classCount > 0 && c.classWidth == 1.0 && c.classOffset == 0.5
    requires 1 <= k <= c.classCount
    ensures Sample(c, k as real, n).cls + 1 == k
  {
    var cls := Classify(c.classCount, c.classWidth, c.classOffset, k as real);
    assert 0.5 + cls as real <= k as real < 0.5 + (cls + 1) as real;
  }

  /** A cell of a run's matrix holding n cycles holds n full increments. */
  lemma CellOfRun(counts: CountsType, classCount: nat, classWidth: real, classOffset: real,
                  hysteresis: real, strict: bool, data: seq<real>, f: nat, to: nat, n: nat)
    requires classCount > 0 && classWidth > 0.0 && hysteresis >= 0.0 && f < classCount && to < classCount
    requires CellCount(Run(counts, classCount, classWidth, classOffset, hysteresis, strict, data, ResNone).cycles,
                       f, to) == n
    ensures var t := Run(counts, classCount, classWidth, classOffset, hysteresis, strict, data, ResNone);
            && CellIndex(f, to, classCount) < |t.engine.matrix|
            && t.engine.matrix[CellIndex(f, to, classCount)] == n as real * FullIncrement(counts)
  {
    RunCell(counts, classCount, classWidth, classOffset, hysteresis, strict, data, ResNone, f, to);
    CellTimes(Run(counts, classCount, classWidth, classOffset, hysteresis, strict, data, ResNone),
              CellIndex(f, to, classCount), f, to, n, FullIncrement(counts));
  }

  /** A cell holding n increments holds n times the increment. */
  lemma CellTimes(t: Trace, i: nat, f: nat, to: nat, n: nat, inc: real)
    requires i < |t.engine.matrix| && t.engine.matrix[i] == Times(CellCount(t.cycles, f, to), inc)
    requires CellCount(t.cycles, f, to) == n
    ensures t.engine.matrix[i] == n as real * inc
  {
    TimesIsProduct(n, inc);
  }

  /** Integer levels as sample values. */
  function Reals(ks: seq<nat>): (vs: seq<real>)
    ensures |vs| == |ks| && forall i :: 0 <= i < |ks| ==> vs[i] == ks[i] as real
  {
    if ks == [] then [] else Reals(ks[..|ks| - 1]) + [ks[|ks| - 1] as real]
  }

  /** Turning point i lies in the 1-based class ks[i]. */
  predicate Levels(s: seq<ValueTuple>, ks: seq<nat>)
  {
    |s| == |ks| && forall i :: 0 <= i < |s| ==> s[i].cls + 1 == ks[i]
  }

  lemma LevelClasses(c: Config, ks: seq<nat>)
    requires c.classCount > 0 && c.classWidth == 1.0 && c.classOffset == 0.5
    requires forall i :: 0 <= i < |ks| ==> 1 <= ks[i] <= c.classCount
    ensures Levels(Samples(c, Reals(ks)), ks)
  {
    forall i | 0 <= i < |ks|
      ensures Samples(c, Reals(ks))[i].cls + 1 == ks[i]
    {
      IntegerClass(c, ks[i], i + 1);
    }
  }

  lemma PrefixSnoc(s: seq<ValueTuple>, j: nat)
    requires j < |s|
    ensures s[..j] + [s[j]] == s[..j + 1]
  {
  }

  /** The closure loop when exactly one slope, B-C, closes. */
  lemma SettleClose(p: seq<ValueTuple>, a: ValueTuple, b: ValueTuple, c: ValueTuple, d: ValueTuple)
    requires Closes(a.cls, b.cls, c.cls, d.cls) && !ClosesAtTop(p + [a, d])
    ensures Settle(p + [a, b, c] + [d]) == Settled(p + [a, d], [Cycle(b, c)])
  {
    var r := p + [a, b, c] + [d];
    assert r[|r| - 4..] == [a, b, c, d];
    assert r[..|r| - 3] + [r[|r| - 1]] == p + [a, d];
  }

  /** Turning point j closes nothing. */
  lemma Keep(s: seq<ValueTuple>, j: nat, r: seq<ValueTuple>, cs: seq<Cycle>)
    requires j < |s| && FourPoint([], s[..j]) == Settled(r, cs) && !ClosesAtTop(r + [s[j]])
    ensures FourPoint([], s[..j + 1]) == Settled(r + [s[j]], cs)
  {
    PrefixSnoc(s, j);
    FourPointSnoc([], s[..j], s[j]);
  }

  /** Turning point j closes the slope B-C below it, and nothing more. */
  lemma Close(s: seq<ValueTuple>, j: nat, p: seq<ValueTuple>, a: ValueTuple, b: ValueTuple, c: ValueTuple,
              cs: seq<Cycle>)
    requires j < |s| && FourPoint([], s[..j]) == Settled(p + [a, b, c], cs)
    requires Closes(a.cls, b.cls, c.cls, s[j].cls) && !ClosesAtTop(p + [a, s[j]])
    ensures FourPoint([], s[..j + 1]) == Settled(p + [a, s[j]], cs + [Cycle(b, c)])
  {
    PrefixSnoc(s, j);
    SettleClose(p, a, b, c, s[j]);
    FourPointSnoc([], s[..j], s[j]);
  }

  /* ---------------------------------------------------------------------- */
  /* RFC_empty                                                               */
  /* ---------------------------------------------------------------------- */

  /** No samples, 100 classes of width 0.02 from -1.01, hysteresis 0.02,
      finalised with RFC_RES_NONE: the matrix stays all zero, the residue
      empty, and counting is finished. */
  lemma Empty(counts: CountsType, strict: bool)
    ensures var t := Run(counts, 100, 0.02, -1.01, 0.02, strict, [], ResNone);
            && t.engine.state == Finished
            && t.engine.residue == [] && t.cycles == []
            && |t.engine.matrix| == 100 * 100
            && (forall i :: 0 <= i < |t.engine.matrix| ==> t.engine.matrix[i] == 0.0)
            && Total(t.engine.matrix) == 0.0
  {
    RunTurningPoints(counts, 100, 0.02, -1.01, 0.02, strict, [], ResNone);
    RunMatrix(counts, 100, 0.02, -1.01, 0.02, strict, [], ResNone);
  }

  /* ---------------------------------------------------------------------- */
  /* RFC_cycle_up and RFC_cycle_down                                         */
  /* ---------------------------------------------------------------------- */

  /** Four turning points whose middle slope lies within the outer two: the
      fourth closes the slope, and the outer two stay in the residue. */
  lemma FourClose(s: seq<ValueTuple>)
    requires |s| == 4 && Closes(s[0].cls, s[1].cls, s[2].cls, s[3].cls)
    ensures FourPoint([], s) == Settled([s[0], s[3]], [Cycle(s[1], s[2])])
  {
    FourOpen(s);
    Close(s, 3, [], s[0], s[1], s[2], []);
    assert s[..4] == s;
  }

  /** Up to three turning points close nothing. */
  lemma FourOpen(s: seq<ValueTuple>)
    requires |s| == 4
    ensures FourPoint([], s[..3]) == Settled([s[0], s[1], s[2]], [])
  {
    assert s[..0] == [];
    Keep(s, 0, [], []);
    Keep(s, 1, [s[0]], []);
    Keep(s, 2, [s[0], s[1]], []);
  }

  const UpData: seq<real> := [1.0, 3.0, 2.0, 4.0]

  const DownData: seq<real> := [4.0, 2.0, 3.0, 1.0]

  /** 4 classes of width 1 from 0.5 (class_width and class_offset as the test
      computes them from 1 and 4), hysteresis 0.99. */
  function CycleConfig(counts: CountsType, strict: bool): (c: Config)
    ensures c.classCount == 4 && c.classWidth == 1.0 && c.classOffset == 0.5 && c.hysteresis == 0.99
  {
    Initialised(counts, 4, 1.0, 0.5, 0.99, strict).cfg
  }

  /** A run's matrix with one cycle, in the cell (f, t) (base 0): that cell
      holds one full increment, and the total is one cycle. */
  lemma OneCycleMatrix(counts: CountsType, strict: bool, data: seq<real>, f: nat, to: nat)
    requires f < 4 && to < 4
    requires Cells(Run(counts, 4, 1.0, 0.5, 0.99, strict, data, ResNone).cycles) == [(f, to)]
    ensures var t := Run(counts, 4, 1.0, 0.5, 0.99, strict, data, ResNone);
            && t.engine.matrix[CellIndex(f, to, 4)] == FullIncrement(counts)
            && Total(t.engine.matrix) / FullIncrement(counts) == 1.0
  {
    var t := Run(counts, 4, 1.0, 0.5, 0.99, strict, data, ResNone);
    RunCell(counts, 4, 1.0, 0.5, 0.99, strict, data, ResNone, f, to);
    CellCountCells(t.cycles, f, to);
    RunTotal(counts, 4, 1.0, 0.5, 0.99, strict, data, ResNone);
    CyclesFromTotal(Total(t.engine.matrix), 1, FullIncrement(counts));
  }

  /** The signal is peak-valley filtered, and the four-point method counts
      its middle slope as the one cycle. */
  lemma UpCounted(c: Config)
    requires c.classCount == 4 && c.classWidth == 1.0 && c.classOffset == 0.5 && c.hysteresis == 0.99
    ensures Reversing(c, UpData)
    ensures var s := Samples(c, UpData);
            && FourPoint([], s) == Settled([s[0], s[3]], [Cycle(s[1], s[2])])
            && Values([s[0], s[3]]) == [1.0, 4.0]
            && Cells([Cycle(s[1], s[2])]) == [(3 - 1, 2 - 1)]
  {
    assert ReversesAt(c, UpData, 1) && ReversesAt(c, UpData, 2) && ReversesAt(c, UpData, 3);
    var s := Samples(c, UpData);
    IntegerClass(c, 1, 1);
    IntegerClass(c, 3, 2);
    IntegerClass(c, 2, 3);
    IntegerClass(c, 4, 4);
    FourClose(s);
  }

  /** RFC_cycle_up: 1, 3, 2, 4.  The slope 3-2 closes into the 1-based cell
      (3, 2) with one full increment, one cycle in all; 1 and 4 stay in the
      residue. */
  lemma CycleUp(counts: CountsType, strict: bool)
    ensures var t := Run(counts, 4, 1.0, 0.5, 0.99, strict, UpData, ResNone);
            && t.engine.state == Finished
            && Cells(t.cycles) == [(3 - 1, 2 - 1)]
            && t.engine.matrix[CellIndex(3 - 1, 2 - 1, 4)] == FullIncrement(counts)
            && Total(t.engine.matrix) / FullIncrement(counts) == 1.0
            && Values(t.engine.residue) == [1.0, 4.0]
  {
    var c := CycleConfig(counts, strict);
    var s := Samples(c, UpData);
    UpCounted(c);
    RunSettles(counts, 4, 1.0, 0.5, 0.99, strict, UpData, ResNone, [s[0], s[3]], [Cycle(s[1], s[2])]);
    OneCycleMatrix(counts, strict, UpData, 2, 1);
  }

  /** The signal is peak-valley filtered, and the four-point method counts
      its middle slope as the one cycle. */
  lemma DownCounted(c: Config)
    requires c.classCount == 4 && c.classWidth == 1.0 && c.classOffset == 0.5 && c.hysteresis == 0.99
    ensures Reversing(c, DownData)
    ensures var s := Samples(c, DownData);
            && FourPoint([], s) == Settled([s[0], s[3]], [Cycle(s[1], s[2])])
            && Values([s[0], s[3]]) == [4.0, 1.0]
            && Cells([Cycle(s[1], s[2])]) == [(2 - 1, 3 - 1)]
  {
    assert ReversesAt(c, DownData, 1) && ReversesAt(c, DownData, 2) && ReversesAt(c, DownData, 3);
    var s := Samples(c, DownData);
    IntegerClass(c, 4, 1);
    IntegerClass(c, 2, 2);
    IntegerClass(c, 3, 3);
    IntegerClass(c, 1, 4);
    FourClose(s);
  }

  /** RFC_cycle_down: 4, 2, 3, 1.  The slope 2-3 closes into the 1-based cell
      (2, 3), the mirror of the rising cycle; 4 and 1 stay in the residue. */
  lemma CycleDown(counts: CountsType, strict: bool)
    ensures var t := Run(counts, 4, 1.0, 0.5, 0.99, strict, DownData, ResNone);
            && t.engine.state == Finished
            && Cells(t.cycles) == [(2 - 1, 3 - 1)]
            && t.engine.matrix[CellIndex(2 - 1, 3 - 1, 4)] == FullIncrement(counts)
            && Total(t.engine.matrix) / FullIncrement(counts) == 1.0
            && Values(t.engine.residue) == [4.0, 1.0]
  {
    var c := CycleConfig(counts, strict);
    var s := Samples(c, DownData);
    DownCounted(c);
    RunSettles(counts, 4, 1.0, 0.5, 0.99, strict, DownData, ResNone, [s[0], s[3]], [Cycle(s[1], s[2])]);
    OneCycleMatrix(counts, strict, DownData, 1, 2);
  }

  /* ---------------------------------------------------------------------- */
  /* RFC_small_example                                                       */
  /* ---------------------------------------------------------------------- */

  /** The classes (base 0) of the 19 turning points, one by one. */
  predicate SmallClasses(s: seq<ValueTuple>)
  {
    && |s| == 19
    && s[0].cls == 1 && s[1].cls == 4 && s[2].cls == 2 && s[3].cls == 5 && s[4].cls == 1
    && s[5].cls == 3 && s[6].cls == 0 && s[7].cls == 5 && s[8].cls == 0 && s[9].cls == 3
    && s[10].cls == 0 && s[11].cls == 4 && s[12].cls == 2 && s[13].cls == 5 && s[14].cls == 2
    && s[15].cls == 5 && s[16].cls == 0 && s[17].cls == 4 && s[18].cls == 1
  }

  lemma SmallLevelClasses(s: seq<ValueTuple>)
    requires Levels(s, SmallLevels)
    ensures SmallClasses(s)
  {
    assert s[0].cls + 1 == SmallLevels[0] && s[1].cls + 1 == SmallLevels[1] && s[2].cls + 1 == SmallLevels[2];
    assert s[3].cls + 1 == SmallLevels[3] && s[4].cls + 1 == SmallLevels[4] && s[5].cls + 1 == SmallLevels[5];
    assert s[6].cls + 1 == SmallLevels[6] && s[7].cls + 1 == SmallLevels[7] && s[8].cls + 1 == SmallLevels[8];
    assert s[9].cls + 1 == SmallLevels[9] && s[10].cls + 1 == SmallLevels[10] && s[11].cls + 1 == SmallLevels[11];
    assert s[12].cls + 1 == SmallLevels[12] && s[13].cls + 1 == SmallLevels[13] && s[14].cls + 1 == SmallLevels[14];
    assert s[15].cls + 1 == SmallLevels[15] && s[16].cls + 1 == SmallLevels[16] && s[17].cls + 1 == SmallLevels[17];
    assert s[18].cls + 1 == SmallLevels[18];
  }

  lemma SmallPrefix1(s: seq<ValueTuple>)
    requires SmallClasses(s)
    ensures FourPoint([], s[..1])
         == Settled([s[0]],
                    [])
  {
    assert s[..0] == [];
    Keep(s, 0, [], []);
  }

  lemma SmallPrefix2(s: seq<ValueTuple>)
    requires SmallClasses(s)
    ensures FourPoint([], s[..2])
         == Settled([s[0], s[1]],
                    [])
  {
    SmallPrefix1(s);
    Keep(s, 1, [s[0]], []);
  }

  lemma SmallPrefix3(s: seq<ValueTuple>)
    requires SmallClasses(s)
    ensures FourPoint([], s[..3])
         == Settled([s[0], s[1], s[2]],
                    [])
  {
    SmallPrefix2(s);
    Keep(s, 2, [s[0], s[1]], []);
  }

  lemma SmallPrefix4(s: seq<ValueTuple>)
    requires SmallClasses(s)
    ensures FourPoint([], s[..4])
         == Settled([s[0], s[3]],
                    [Cycle(s[1], s[2])])
  {
    SmallPrefix3(s);
    Close(s, 3, [], s[0], s[1], s[2], []);
  }

  lemma SmallPrefix5(s: seq<ValueTuple>)
    requires SmallClasses(s)
    ensures FourPoint([], s[..5])
         == Settled([s[0], s[3], s[4]],
                    [Cycle(s[1], s[2])])
  {
    SmallPrefix4(s);
    Keep(s, 4, [s[0], s[3]], [Cycle(s[1], s[2])]);
  }

  lemma SmallPrefix6(s: seq<ValueTuple>)
    requires SmallClasses(s)
    ensures FourPoint([], s[..6])
         == Settled([s[0], s[3], s[4], s[5]],
                    [Cycle(s[1], s[2])])
  {
    SmallPrefix5(s);
    Keep(s, 5, [s[0], s[3], s[4]], [Cycle(s[1], s[2])]);
  }

  lemma SmallPrefix7(s: seq<ValueTuple>)
    requires SmallClasses(s)
    ensures FourPoint([], s[..7])
         == Settled([s[0], s[3], s[6]],
                    [Cycle(s[1], s[2]), Cycle(s[4], s[5])])
  {
    SmallPrefix6(s);
    Close(s, 6, [s[0]], s[3], s[4], s[5], [Cycle(s[1], s[2])]);
  }

  lemma SmallPrefix8(s: seq<ValueTuple>)
    requires SmallClasses(s)
    ensures FourPoint([], s[..8])
         == Settled([s[0], s[3], s[6], s[7]],
                    [Cycle(s[1], s[2]), Cycle(s[4], s[5])])
  {
    SmallPrefix7(s);
    Keep(s, 7, [s[0], s[3], s[6]], [Cycle(s[1], s[2]), Cycle(s[4], s[5])]);
  }

  lemma SmallPrefix9(s: seq<ValueTuple>)
    requires SmallClasses(s)
    ensures FourPoint([], s[..9])
         == Settled([s[0], s[3], s[8]],
                    [Cycle(s[1], s[2]), Cycle(s[4], s[5]), Cycle(s[6], s[7])])
  {
    SmallPrefix8(s);
    Close(s, 8, [s[0]], s[3], s[6], s[7], [Cycle(s[1], s[2]), Cycle(s[4], s[5])]);
  }

  lemma SmallPrefix10(s: seq<ValueTuple>)
    requires SmallClasses(s)
    ensures FourPoint([], s[..10])
         == Settled([s[0], s[3], s[8], s[9]],
                    [Cycle(s[1], s[2]), Cycle(s[4], s[5]), Cycle(s[6], s[7])])
  {
    SmallPrefix9(s);
    Keep(s, 9, [s[0], s[3], s[8]], [Cycle(s[1], s[2]), Cycle(s[4], s[5]), Cycle(s[6], s[7])]);
  }

  lemma SmallPrefix11(s: seq<ValueTuple>)
    requires SmallClasses(s)
    ensures FourPoint([], s[..11])
         == Settled([s[0], s[3], s[10]],
                    [Cycle(s[1], s[2]), Cycle(s[4], s[5]), Cycle(s[6], s[7]), Cycle(s[8], s[9])])
  {
    SmallPrefix10(s);
    Close(s, 10, [s[0]], s[3], s[8], s[9], [Cycle(s[1], s[2]), Cycle(s[4], s[5]), Cycle(s[6], s[7])]);
  }

  lemma SmallPrefix12(s: seq<ValueTuple>)
    requires SmallClasses(s)
    ensures FourPoint([], s[..12])
         == Settled([s[0], s[3], s[10], s[11]],
                    [Cycle(s[1], s[2]), Cycle(s[4], s[5]), Cycle(s[6], s[7]), Cycle(s[8], s[9])])
  {
    SmallPrefix11(s);
    Keep(s, 11, [s[0], s[3], s[10]], [Cycle(s[1], s[2]), Cycle(s[4], s[5]), Cycle(s[6], s[7]), Cycle(s[8], s[9])]);
  }

  lemma SmallPrefix13(s: seq<ValueTuple>)
    requires SmallClasses(s)
    ensures FourPoint([], s[..13])
         == Settled([s[0], s[3], s[10], s[11], s[12]],
                    [Cycle(s[1], s[2]), Cycle(s[4], s[5]), Cycle(s[6], s[7]), Cycle(s[8], s[9])])
  {
    SmallPrefix12(s);
    Keep(s, 12, [s[0], s[3], s[10], s[11]], [Cycle(s[1], s[2]), Cycle(s[4], s[5]), Cycle(s[6], s[7]), Cycle(s[8], s[9])]);
  }

  lemma SmallPrefix14(s: seq<ValueTuple>)
    requires SmallClasses(s)
    ensures FourPoint([], s[..14])
         == Settled([s[0], s[3], s[10], s[13]],
                    [Cycle(s[1], s[2]), Cycle(s[4], s[5]), Cycle(s[6], s[7]), Cycle(s[8], s[9]), Cycle(s[11], s[12])])
  {
    SmallPrefix13(s);
    Close(s, 13, [s[0], s[3]], s[10], s[11], s[12], [Cycle(s[1], s[2]), Cycle(s[4], s[5]), Cycle(s[6], s[7]), Cycle(s[8], s[9])]);
  }

  lemma SmallPrefix15(s: seq<ValueTuple>)
    requires SmallClasses(s)
    ensures FourPoint([], s[..15])
         == Settled([s[0], s[3], s[10], s[13], s[14]],
                    [Cycle(s[1], s[2]), Cycle(s[4], s[5]), Cycle(s[6], s[7]), Cycle(s[8], s[9]), Cycle(s[11], s[12])])
  {
    SmallPrefix14(s);
    Keep(s, 14, [s[0], s[3], s[10], s[13]], [Cycle(s[1], s[2]), Cycle(s[4], s[5]), Cycle(s[6], s[7]), Cycle(s[8], s[9]), Cycle(s[11], s[12])]);
  }

  lemma SmallPrefix16(s: seq<ValueTuple>)
    requires SmallClasses(s)
    ensures FourPoint([], s[..16])
         == Settled([s[0], s[3], s[10], s[15]],
                    [Cycle(s[1], s[2]), Cycle(s[4], s[5]), Cycle(s[6], s[7]), Cycle(s[8], s[9]), Cycle(s[11], s[12]), Cycle(s[13], s[14])])
  {
    SmallPrefix15(s);
    Close(s, 15, [s[0], s[3]], s[10], s[13], s[14], [Cycle(s[1], s[2]), Cycle(s[4], s[5]), Cycle(s[6], s[7]), Cycle(s[8], s[9]), Cycle(s[11], s[12])]);
  }

  lemma SmallPrefix17(s: seq<ValueTuple>)
    requires SmallClasses(s)
    ensures FourPoint([], s[..17])
         == Settled([s[0], s[3], s[16]],
                    [Cycle(s[1], s[2]), Cycle(s[4], s[5]), Cycle(s[6], s[7]), Cycle(s[8], s[9]), Cycle(s[11], s[12]), Cycle(s[13], s[14]), Cycle(s[10], s[15])])
  {
    SmallPrefix16(s);
    Close(s, 16, [s[0]], s[3], s[10], s[15], [Cycle(s[1], s[2]), Cycle(s[4], s[5]), Cycle(s[6], s[7]), Cycle(s[8], s[9]), Cycle(s[11], s[12]), Cycle(s[13], s[14])]);
  }

  lemma SmallPrefix18(s: seq<ValueTuple>)
    requires SmallClasses(s)
    ensures FourPoint([], s[..18])
         == Settled([s[0], s[3], s[16], s[17]],
                    [Cycle(s[1], s[2]), Cycle(s[4], s[5]), Cycle(s[6], s[7]), Cycle(s[8], s[9]), Cycle(s[11], s[12]), Cycle(s[13], s[14]), Cycle(s[10], s[15])])
  {
    SmallPrefix17(s);
    Keep(s, 17, [s[0], s[3], s[16]], [Cycle(s[1], s[2]), Cycle(s[4], s[5]), Cycle(s[6], s[7]), Cycle(s[8], s[9]), Cycle(s[11], s[12]), Cycle(s[13], s[14]), Cycle(s[10], s[15])]);
  }

  lemma SmallPrefix19(s: seq<ValueTuple>)
    requires SmallClasses(s)
    ensures FourPoint([], s)
         == Settled([s[0], s[3], s[16], s[17], s[18]],
                    [Cycle(s[1], s[2]), Cycle(s[4], s[5]), Cycle(s[6], s[7]), Cycle(s[8], s[9]), Cycle(s[11], s[12]), Cycle(s[13], s[14]), Cycle(s[10], s[15])])
  {
    SmallPrefix18(s);
    Keep(s, 18, [s[0], s[3], s[16], s[17]], [Cycle(s[1], s[2]), Cycle(s[4], s[5]), Cycle(s[6], s[7]), Cycle(s[8], s[9]), Cycle(s[11], s[12]), Cycle(s[13], s[14]), Cycle(s[10], s[15])]);
    assert s[..19] == s;
  }
  const SmallLevels: seq<nat> := [2, 5, 3, 6, 2, 4, 1, 6, 1, 4, 1, 5, 3, 6, 3, 6, 1, 5, 2]

  const SmallData: seq<real> := Reals(SmallLevels)

  /** The cells (base 0) of the seven cycles, in closing order. */
  const SmallCells: seq<(nat, nat)> := [(4, 2), (1, 3), (0, 5), (0, 3), (4, 2), (5, 2), (0, 5)]

  /** Every step of the signal reverses the previous one by at least two classes. */
  lemma SmallReversing(c: Config)
    requires c.hysteresis == 1.0
    ensures Reversing(c, SmallData)
  {
    SmallReversingFirst(c);
    SmallReversingLast(c);
  }

  lemma SmallReversingFirst(c: Config)
    requires c.hysteresis == 1.0
    ensures forall i :: 1 <= i < 10 ==> ReversesAt(c, SmallData, i)
  {
    forall i | 1 <= i < 10
      ensures ReversesAt(c, SmallData, i)
    {
      if i == 1 {} else if i == 2 {} else if i == 3 {} else if i == 4 {} else if i == 5 {}
      else if i == 6 {} else if i == 7 {} else if i == 8 {} else {}
    }
  }

  lemma SmallReversingLast(c: Config)
    requires c.hysteresis == 1.0
    ensures forall i :: 10 <= i < 19 ==> ReversesAt(c, SmallData, i)
  {
    forall i | 10 <= i < 19
      ensures ReversesAt(c, SmallData, i)
    {
      if i == 10 {} else if i == 11 {} else if i == 12 {} else if i == 13 {} else if i == 14 {}
      else if i == 15 {} else if i == 16 {} else if i == 17 {} else {}
    }
  }

  /** The levels lie in the six classes. */
  lemma SmallInRange()
    ensures forall i :: 0 <= i < |SmallLevels| ==> 1 <= SmallLevels[i] <= 6
  {
    forall i | 0 <= i < |SmallLevels|
      ensures 1 <= SmallLevels[i] <= 6
    {
      if i < 10 {} else {}
    }
  }

  /** What the four-point method makes of the 19 turning points: seven
      cycles and a residue of five. */
  lemma SmallCounted(c: Config)
    requires c.classCount == 6 && c.classWidth == 1.0 && c.classOffset == 0.5
    ensures |Samples(c, SmallData)| == 19
    ensures var s := Samples(c, SmallData);
            FourPoint([], s)
            == Settled([s[0], s[3], s[16], s[17], s[18]],
                       [Cycle(s[1], s[2]), Cycle(s[4], s[5]), Cycle(s[6], s[7]), Cycle(s[8], s[9]),
                        Cycle(s[11], s[12]), Cycle(s[13], s[14]), Cycle(s[10], s[15])])
  {
    SmallInRange();
    LevelClasses(c, SmallLevels);
    SmallLevelClasses(Samples(c, SmallData));
    SmallPrefix19(Samples(c, SmallData));
  }

  /** The residue holds 2, 6, 1, 5, 2 and the seven cycles fall into the
      cells of SmallCells. */
  lemma SmallResidueCells(c: Config)
    requires c.classCount == 6 && c.classWidth == 1.0 && c.classOffset == 0.5
    ensures |Samples(c, SmallData)| == 19
    ensures var s := Samples(c, SmallData);
            && Values([s[0], s[3], s[16], s[17], s[18]]) == [2.0, 6.0, 1.0, 5.0, 2.0]
            && Cells([Cycle(s[1], s[2]), Cycle(s[4], s[5]), Cycle(s[6], s[7]), Cycle(s[8], s[9]),
                      Cycle(s[11], s[12]), Cycle(s[13], s[14]), Cycle(s[10], s[15])]) == SmallCells
  {
    SmallInRange();
    LevelClasses(c, SmallLevels);
  }

  /** The whole run of RFC_small_example: residue and cycles. */
  lemma SmallRun(counts: CountsType, strict: bool)
    ensures var t := Run(counts, 6, 1.0, 0.5, 1.0, strict, SmallData, ResNone);
            && Values(t.engine.residue) == [2.0, 6.0, 1.0, 5.0, 2.0]
            && Cells(t.cycles) == SmallCells
  {
    var c := Initialised(counts, 6, 1.0, 0.5, 1.0, strict).cfg;
    var s := Samples(c, SmallData);
    SmallReversing(c);
    SmallCounted(c);
    SmallResidueCells(c);
    RunSettles(counts, 6, 1.0, 0.5, 1.0, strict, SmallData, ResNone, [s[0], s[3], s[16], s[17], s[18]],
               [Cycle(s[1], s[2]), Cycle(s[4], s[5]), Cycle(s[6], s[7]), Cycle(s[8], s[9]),
                Cycle(s[11], s[12]), Cycle(s[13], s[14]), Cycle(s[10], s[15])]);
  }

  lemma SmallCellsMultiplicity()
    ensures var m := multiset(SmallCells);
            m[(4, 2)] == 2 && m[(5, 2)] == 1 && m[(0, 3)] == 1 && m[(1, 3)] == 1 && m[(0, 5)] == 2
  {
  }

  /** How many of the run's cycles fall into each of the five cells the test checks. */
  lemma SmallCellCounts(counts: CountsType, strict: bool)
    ensures var cs := Run(counts, 6, 1.0, 0.5, 1.0, strict, SmallData, ResNone).cycles;
            && CellCount(cs, 4, 2) == 2 && CellCount(cs, 5, 2) == 1 && CellCount(cs, 0, 3) == 1
            && CellCount(cs, 1, 3) == 1 && CellCount(cs, 0, 5) == 2
  {
    var cs := Run(counts, 6, 1.0, 0.5, 1.0, strict, SmallData, ResNone).cycles;
    SmallRun(counts, strict);
    SmallCellsMultiplicity();
    CellCountCells(cs, 4, 2);
    CellCountCells(cs, 5, 2);
    CellCountCells(cs, 0, 3);
    CellCountCells(cs, 1, 3);
    CellCountCells(cs, 0, 5);
  }

  /** The two cells of the test in rows 5 and 6 (base 1).  Each cell of the
      test holds its count of cycles times the full increment. */
  lemma SmallMatrixHigh(counts: CountsType, strict: bool)
    ensures var m, inc := Run(counts, 6, 1.0, 0.5, 1.0, strict, SmallData, ResNone).engine.matrix, FullIncrement(counts);
            && |m| == 36
            && m[CellIndex(4, 2, 6)] == 2.0 * inc && m[CellIndex(5, 2, 6)] == 1.0 * inc
  {
    SmallCellCounts(counts, strict);
    CellOfRun(counts, 6, 1.0, 0.5, 1.0, strict, SmallData, 4, 2, 2);
    CellOfRun(counts, 6, 1.0, 0.5, 1.0, strict, SmallData, 5, 2, 1);
  }

  /** The two cells of the test in column 4 (base 1). */
  lemma SmallMatrixLow(counts: CountsType, strict: bool)
    ensures var m, inc := Run(counts, 6, 1.0, 0.5, 1.0, strict, SmallData, ResNone).engine.matrix, FullIncrement(counts);
            && |m| == 36
            && m[CellIndex(0, 3, 6)] == 1.0 * inc && m[CellIndex(1, 3, 6)] == 1.0 * inc
  {
    SmallCellCounts(counts, strict);
    CellOfRun(counts, 6, 1.0, 0.5, 1.0, strict, SmallData, 0, 3, 1);
    CellOfRun(counts, 6, 1.0, 0.5, 1.0, strict, SmallData, 1, 3, 1);
  }

  /** The cell (1, 6) of the test (base 1), counted twice. */
  lemma SmallMatrixWide(counts: CountsType, strict: bool)
    ensures var m, inc := Run(counts, 6, 1.0, 0.5, 1.0, strict, SmallData, ResNone).engine.matrix, FullIncrement(counts);
            && |m| == 36 && m[CellIndex(0, 5, 6)] == 2.0 * inc
  {
    SmallCellCounts(counts, strict);
    CellOfRun(counts, 6, 1.0, 0.5, 1.0, strict, SmallData, 0, 5, 2);
  }

  /** RFC_small_example: 2, 5, 3, 6, 2, 4, 1, 6, 1, 4, 1, 5, 3, 6, 3, 6, 1, 5, 2
      gives seven cycles, counted into the 1-based cells (5, 3) twice, (6, 3),
      (1, 4), (2, 4) once each and (1, 6) twice, and the residue 2, 6, 1, 5, 2. */
  lemma SmallExample(counts: CountsType, strict: bool)
    ensures var t := Run(counts, 6, 1.0, 0.5, 1.0, strict, SmallData, ResNone);
            var m, inc := t.engine.matrix, FullIncrement(counts);
            && t.engine.state == Finished
            && Total(m) / inc == 7.0
            && m[CellIndex(5 - 1, 3 - 1, 6)] == 2.0 * inc
            && m[CellIndex(6 - 1, 3 - 1, 6)] == 1.0 * inc
            && m[CellIndex(1 - 1, 4 - 1, 6)] == 1.0 * inc
            && m[CellIndex(2 - 1, 4 - 1, 6)] == 1.0 * inc
            && m[CellIndex(1 - 1, 6 - 1, 6)] == 2.0 * inc
            && Values(t.engine.residue) == [2.0, 6.0, 1.0, 5.0, 2.0]
  {
    var t := Run(counts, 6, 1.0, 0.5, 1.0, strict, SmallData, ResNone);
    SmallRun(counts, strict);
    assert |t.cycles| == |SmallCells| == 7;
    RunTotal(counts, 6, 1.0, 0.5, 1.0, strict, SmallData, ResNone);
    CyclesFromTotal(Total(t.engine.matrix), 7, FullIncrement(counts));
    SmallMatrixHigh(counts, strict);
    SmallMatrixLow(counts, strict);
    SmallMatrixWide(counts, strict);
  }
}
