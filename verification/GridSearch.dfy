/** The TX DC-offset calibration search: a grid of trials that recentres on the best point so far
    and shrinks to a third, over exact reals. */
module GridSearch {
  const NUM_SEARCH_STEPS := 5

  /** The pitch of the first grid: [-1, 1] divided into six. */
  const FIRST_PITCH := 1.0 / 3.0

  /** The best level measured so far, and the correction it was measured at. */
  datatype Best = Best(db: real, i: real, q: real)

  /** What the calibration keeps for one LO frequency. */
  datatype Kept = Discarded | Kept(realCorr: real, imagCorr: real, best: real, delta: real)

  type Measure = (real, real) -> real

  // ---------- one round, as a function ----------

  function Better(measure: Measure, b: Best, i: real, q: real): Best {
    if measure(i, q) < b.db then Best(measure(i, q), i, q) else b
  }

  /** The inner loop: the trials of one row that are left, from q on. */
  function ScanQ(measure: Measure, b: Best, i: real, q: real, step: real, left: nat): Best
    decreases left, step
  {
    if left == 0 then b
    else ScanQ(measure, Better(measure, b, i, q), i, q + step, step, left - 1)
  }

  /** The outer loop: the rows that are left, from i on. */
  function ScanI(measure: Measure, b: Best, i: real, q: real, step: real, left: nat): Best
    decreases left, step
  {
    if left == 0 then b
    else ScanI(measure, ScanQ(measure, b, i, q, step, NUM_SEARCH_STEPS), i + step, q, step, left - 1)
  }

  /** The scan of the whole grid, whose bracket spans three pitches on either side of the best
      correction; the trials are its interior points. */
  function RoundBest(measure: Measure, c: Best, step: real): Best {
    ScanI(measure, c, c.i - 2.0 * step, c.q - 2.0 * step, step, NUM_SEARCH_STEPS)
  }

  /** n rounds, each dividing the pitch by three. */
  function Rounds(measure: Measure, c: Best, step: real, n: nat): Best
    decreases n
  {
    if n == 0 then c else Rounds(measure, RoundBest(measure, c, step), step / 3.0, n - 1)
  }

  /** The measure of termination: how often the precision fits in the pitch. */
  lemma FloorShrinks(step: real, precision: real)
    requires precision > 0.0 && step >= precision
    ensures 0 <= (step / 3.0 / precision).Floor < (step / precision).Floor
  {
    var x := step / precision;
    assert x >= 1.0;
    assert step / 3.0 / precision == x / 3.0;
  }

  /** How often the pitch can be divided by three before it falls below the precision. */
  function RoundCount(step: real, precision: real): nat
    requires step > 0.0 && precision > 0.0
    decreases (step / precision).Floor
  {
    if step < precision then 0
    else
      FloorShrinks(step, precision);
      1 + RoundCount(step / 3.0, precision)
  }

  function Pitch(step: real, n: nat): real
    decreases n
  {
    if n == 0 then step else Pitch(step / 3.0, n - 1)
  }

  /** The pitch after the last round is the first that falls below the precision. */
  lemma {:induction false} CountIsLeast(step: real, precision: real)
    requires step > 0.0 && precision > 0.0
    ensures 0.0 < Pitch(step, RoundCount(step, precision)) < precision
    ensures forall n: nat :: n < RoundCount(step, precision) ==> Pitch(step, n) >= precision
    decreases RoundCount(step, precision)
  {
    if step >= precision {
      CountIsLeast(step / 3.0, precision);
      forall n: nat | n < RoundCount(step, precision) ensures Pitch(step, n) >= precision {
        if n > 0 {
          assert Pitch(step, n) == Pitch(step / 3.0, n - 1);
        }
      }
    }
  }

  function Search(measure: Measure, initial: real, precision: real): Best
    requires precision > 0.0
  {
    Rounds(measure, Best(initial, 0.0, 0.0), FIRST_PITCH, RoundCount(FIRST_PITCH, precision))
  }

  // ---------- the loops ----------

  /** x is `left` pitches before stop. */
  predicate StepsBefore(x: real, stop: real, step: real, left: int) {
    || (left == 0 && x == stop) || (left == 1 && x == stop - step) || (left == 2 && x == stop - 2.0 * step)
    || (left == 3 && x == stop - 3.0 * step) || (left == 4 && x == stop - 4.0 * step)
    || (left == 5 && x == stop - 5.0 * step)
  }

  /** The pitch that divides a bracket two old pitches wide into six. */
  lemma NextPitch(start: real, stop: real, step: real)
    requires stop - start == 2.0 * step
    ensures (stop - start) / (NUM_SEARCH_STEPS + 1) as real == step / 3.0
  {}

  /** The search at one LO frequency. `initial` is the level with no correction applied. */
  method Calibrate(measure: Measure, initial: real, precision: real) returns (best: Best, kept: Kept)
    requires precision > 0.0
    ensures best == Search(measure, initial, precision)
    ensures kept == if best.db < initial then Kept(best.i, best.q, best.db, initial - best.db) else Discarded
  {
    var iStart, iStop, qStart, qStop := -1.0, 1.0, -1.0, 1.0;
    var iStep := (iStop - iStart) / (NUM_SEARCH_STEPS + 1) as real;
    var qStep := (qStop - qStart) / (NUM_SEARCH_STEPS + 1) as real;
    best := Best(initial, 0.0, 0.0);
    NextPitch(-1.0, 1.0, 1.0);
    while iStep >= precision || qStep >= precision
      invariant iStep == qStep > 0.0
      invariant iStart == best.i - 3.0 * iStep && iStop == best.i + 3.0 * iStep
      invariant qStart == best.q - 3.0 * qStep && qStop == best.q + 3.0 * qStep
      invariant Rounds(measure, best, iStep, RoundCount(iStep, precision)) == Search(measure, initial, precision)
      decreases RoundCount(iStep, precision)
    {
      best := ScanGrid(measure, best, iStart, iStop, iStep, qStart, qStop, qStep);
      ghost var step := iStep;
      iStart := best.i - iStep;
      iStop := best.i + iStep;
      iStep := (iStop - iStart) / (NUM_SEARCH_STEPS + 1) as real;
      qStart := best.q - qStep;
      qStop := best.q + qStep;
      qStep := (qStop - qStart) / (NUM_SEARCH_STEPS + 1) as real;
      NextPitch(iStart, iStop, step);
      NextPitch(qStart, qStop, step);
    }
    kept := if best.db < initial then Kept(best.i, best.q, best.db, initial - best.db) else Discarded;
  }

  /** The outer loop: the rows of one round. */
  method ScanGrid(measure: Measure, b: Best, iStart: real, iStop: real, iStep: real,
                  qStart: real, qStop: real, qStep: real) returns (best: Best)
    requires iStep == qStep > 0.0 && iStop == iStart + 6.0 * iStep && qStop == qStart + 6.0 * qStep
    ensures best == ScanI(measure, b, iStart + iStep, qStart + qStep, iStep, NUM_SEARCH_STEPS)
  {
    best := b;
    var iCorr := iStart + iStep;
    ghost var left := NUM_SEARCH_STEPS;
    while iCorr <= iStop - iStep
      invariant StepsBefore(iCorr, iStop, iStep, left)
      invariant ScanI(measure, best, iCorr, qStart + qStep, iStep, left)
             == ScanI(measure, b, iStart + iStep, qStart + qStep, iStep, NUM_SEARCH_STEPS)
      decreases left
    {
      best := ScanRow(measure, best, iCorr, qStart, qStop, qStep);
      iCorr := iCorr + iStep;
      left := left - 1;
    }
  }

  /** The inner loop: one row of trials. */
  method ScanRow(measure: Measure, b: Best, iCorr: real, qStart: real, qStop: real, qStep: real) returns (best: Best)
    requires qStep > 0.0 && qStop == qStart + 6.0 * qStep
    ensures best == ScanQ(measure, b, iCorr, qStart + qStep, qStep, NUM_SEARCH_STEPS)
  {
    best := b;
    var qCorr := qStart + qStep;
    ghost var left := NUM_SEARCH_STEPS;
    while qCorr <= qStop - qStep
      invariant StepsBefore(qCorr, qStop, qStep, left)
      invariant ScanQ(measure, best, iCorr, qCorr, qStep, left)
             == ScanQ(measure, b, iCorr, qStart + qStep, qStep, NUM_SEARCH_STEPS)
      decreases left
    {
      var db := measure(iCorr, qCorr);
      if db < best.db {
        best := Best(db, iCorr, qCorr);
      }
      qCorr := qCorr + qStep;
      left := left - 1;
    }
  }

  // ---------- what one round finds ----------

  predicate OnAxis(centre: real, step: real, x: real) {
    || x == centre - 2.0 * step || x == centre - step || x == centre
    || x == centre + step || x == centre + 2.0 * step
  }

  /** The twenty-five trials of the round centred on c. */
  predicate OnGrid(c: Best, step: real, i: real, q: real) {
    OnAxis(c.i, step, i) && OnAxis(c.q, step, q)
  }

  /** No trial of the row at i falls below db. */
  ghost predicate RowBound(measure: Measure, db: real, c: Best, step: real, i: real) {
    && db <= measure(i, c.q - 2.0 * step) && db <= measure(i, c.q - step) && db <= measure(i, c.q)
    && db <= measure(i, c.q + step) && db <= measure(i, c.q + 2.0 * step)
  }

  /** The level held was kept, or beaten by a trial of the row at i. */
  ghost predicate FromRow(measure: Measure, before: Best, r: Best, c: Best, step: real, i: real) {
    r == before || (r.i == i && OnAxis(c.q, step, r.q) && r.db == measure(r.i, r.q) && r.db < before.db)
  }

  /** The level held was kept, or beaten by a trial of the grid. */
  ghost predicate FromGrid(measure: Measure, c: Best, step: real, r: Best) {
    r == c || (OnGrid(c, step, r.i, r.q) && r.db == measure(r.i, r.q) && r.db < c.db)
  }

  lemma ScanQFinds(measure: Measure, b: Best, i: real, c: Best, step: real)
    ensures var r := ScanQ(measure, b, i, c.q - 2.0 * step, step, NUM_SEARCH_STEPS);
            RowScan(measure, b, r, c, step, i)
  {
    var q := c.q - 2.0 * step;
    var b1 := Better(measure, b, i, q);
    var b2 := Better(measure, b1, i, q + step);
    var b3 := Better(measure, b2, i, c.q);
    var b4 := Better(measure, b3, i, c.q + step);
    var b5 := Better(measure, b4, i, c.q + 2.0 * step);
    assert ScanQ(measure, b, i, q, step, 5) == ScanQ(measure, b2, i, c.q, step, 3)
        == ScanQ(measure, b4, i, c.q + 2.0 * step, step, 1) == b5;
  }

  /** A round finds the least level over its whole grid, keeping what it had unless a trial beats it. */
  lemma RoundFinds(measure: Measure, c: Best, step: real)
    ensures var r := RoundBest(measure, c, step);
            && r.db <= c.db
            && (forall i, q :: OnGrid(c, step, i, q) ==> r.db <= measure(i, q))
            && FromGrid(measure, c, step, r)
  {
    var b1, b2, b3, b4, b5 := UnrollRound(measure, c, step);
    FiveRows(measure, c, step, b1, b2, b3, b4, b5);
  }

  /** r is what scanning the row at i makes of b. */
  ghost predicate RowScan(measure: Measure, b: Best, r: Best, c: Best, step: real, i: real) {
    r.db <= b.db && RowBound(measure, r.db, c, step, i) && FromRow(measure, b, r, c, step, i)
  }

  lemma OneRow(measure: Measure, b: Best, i: real, c: Best, step: real, left: nat) returns (r: Best)
    requires left > 0
    ensures RowScan(measure, b, r, c, step, i)
    ensures ScanI(measure, b, i, c.q - 2.0 * step, step, left)
         == ScanI(measure, r, i + step, c.q - 2.0 * step, step, left - 1)
  {
    r := ScanQ(measure, b, i, c.q - 2.0 * step, step, NUM_SEARCH_STEPS);
    ScanQFinds(measure, b, i, c, step);
  }

  /** The best level after each row of a round. */
  lemma UnrollRound(measure: Measure, c: Best, step: real) returns (b1: Best, b2: Best, b3: Best, b4: Best, b5: Best)
    ensures RowScan(measure, c, b1, c, step, c.i - 2.0 * step)
    ensures RowScan(measure, b1, b2, c, step, c.i - step)
    ensures RowScan(measure, b2, b3, c, step, c.i)
    ensures RowScan(measure, b3, b4, c, step, c.i + step)
    ensures RowScan(measure, b4, b5, c, step, c.i + 2.0 * step)
    ensures b5 == RoundBest(measure, c, step)
  {
    var t := c.q - 2.0 * step;
    b1 := OneRow(measure, c, c.i - 2.0 * step, c, step, 5);
    b2 := OneRow(measure, b1, c.i - step, c, step, 4);
    b3 := OneRow(measure, b2, c.i, c, step, 3);
    b4 := OneRow(measure, b3, c.i + step, c, step, 2);
    b5 := OneRow(measure, b4, c.i + 2.0 * step, c, step, 1);
    assert ScanI(measure, b5, c.i + 2.0 * step + step, t, step, 0) == b5;
  }

  lemma FiveRows(measure: Measure, c: Best, step: real, b1: Best, b2: Best, b3: Best, b4: Best, b5: Best)
    requires RowScan(measure, c, b1, c, step, c.i - 2.0 * step)
    requires RowScan(measure, b1, b2, c, step, c.i - step)
    requires RowScan(measure, b2, b3, c, step, c.i)
    requires RowScan(measure, b3, b4, c, step, c.i + step)
    requires RowScan(measure, b4, b5, c, step, c.i + 2.0 * step)
    ensures b5.db <= c.db
    ensures forall i, q :: OnGrid(c, step, i, q) ==> b5.db <= measure(i, q)
    ensures FromGrid(measure, c, step, b5)
  {
    assert FromGrid(measure, c, step, b2) && FromGrid(measure, c, step, b4) && FromGrid(measure, c, step, b5);
    forall i | OnAxis(c.i, step, i) ensures RowBound(measure, b5.db, c, step, i) {}
    forall i, q | OnGrid(c, step, i, q) ensures b5.db <= measure(i, q) {
      assert RowBound(measure, b5.db, c, step, i);
    }
  }

  // ---------- any measurement ----------

  /** Whether one of n rounds tries the correction (i, q). */
  ghost predicate Tried(measure: Measure, c: Best, step: real, n: nat, i: real, q: real)
    decreases n
  {
    n > 0 && (OnGrid(c, step, i, q) || Tried(measure, RoundBest(measure, c, step), step / 3.0, n - 1, i, q))
  }

  /** The level of r is the least of the level held before and of everything n rounds measure. */
  ghost predicate Minimum(measure: Measure, before: Best, r: Best, step: real, n: nat) {
    && r.db <= before.db
    && (forall i, q :: Tried(measure, before, step, n, i, q) ==> r.db <= measure(i, q))
    && (r == before || (Tried(measure, before, step, n, r.i, r.q) && r.db == measure(r.i, r.q) && r.db < before.db))
  }

  ghost predicate Inside(c: Best, half: real, i: real, q: real) {
    c.i - half < i < c.i + half && c.q - half < q < c.q + half
  }

  /** Each bracket lies in the one before it, so all trials and the result stay strictly inside the first. */
  lemma {:induction false} BracketsNest(measure: Measure, c: Best, step: real, n: nat)
    requires step > 0.0
    ensures var r := Rounds(measure, c, step, n);
            Inside(c, 3.0 * step, r.i, r.q)
    ensures forall i, q :: Tried(measure, c, step, n, i, q) ==> Inside(c, 3.0 * step, i, q)
    decreases n
  {
    if n > 0 {
      var b := RoundBest(measure, c, step);
      RoundFinds(measure, c, step);
      assert OnGrid(c, step, b.i, b.q);
      BracketsNest(measure, b, step / 3.0, n - 1);
    }
  }

  /** The result is the least of the level held at the start and of everything measured. */
  lemma {:induction false} RoundsFindMinimum(measure: Measure, c: Best, step: real, n: nat)
    ensures Minimum(measure, c, Rounds(measure, c, step, n), step, n)
    decreases n
  {
    if n > 0 {
      RoundFinds(measure, c, step);
      RoundsFindMinimum(measure, RoundBest(measure, c, step), step / 3.0, n - 1);
    }
  }

  /** For every measurement, initial reading and precision: all corrections tried and the one found lie
      strictly inside (-1, 1); the level found is the minimum of the initial reading and of everything
      measured; and it was measured at the correction returned, unless the initial reading was never
      beaten, when the correction is zero. */
  lemma SearchIsMinimum(measure: Measure, initial: real, precision: real)
    requires precision > 0.0
    ensures var n, r := RoundCount(FIRST_PITCH, precision), Search(measure, initial, precision);
            var c := Best(initial, 0.0, 0.0);
            && Minimum(measure, c, r, FIRST_PITCH, n)
            && Inside(c, 1.0, r.i, r.q)
            && (forall i, q :: Tried(measure, c, FIRST_PITCH, n, i, q) ==> Inside(c, 1.0, i, q))
  {
    var n, c := RoundCount(FIRST_PITCH, precision), Best(initial, 0.0, 0.0);
    BracketsNest(measure, c, FIRST_PITCH, n);
    RoundsFindMinimum(measure, c, FIRST_PITCH, n);
  }

  // ---------- convergence ----------

  /** Strictly falling up to m and strictly rising from it. */
  ghost predicate Unimodal(g: real -> real, m: real) {
    && (forall x, y :: x < y <= m ==> g(x) > g(y))
    && (forall x, y :: m <= x < y ==> g(x) < g(y))
  }

  /** The level is a strictly increasing function of one term per axis. */
  ghost predicate Separable(measure: Measure, phi: real -> real, g: real -> real, h: real -> real) {
    && (forall i, q :: measure(i, q) == phi(g(i) + h(q)))
    && (forall x, y :: x < y ==> phi(x) < phi(y))
  }

  predicate Within(centre: real, half: real, x: real) {
    centre - half <= x <= centre + half
  }

  /** On one axis: the best of the five grid points is within a pitch of a minimum in the bracket. */
  lemma AxisKeepsOptimum(g: real -> real, m: real, centre: real, step: real, b: real)
    requires step > 0.0 && Unimodal(g, m)
    requires Within(centre, 3.0 * step, m) && OnAxis(centre, step, b)
    requires forall x :: OnAxis(centre, step, x) ==> g(b) <= g(x)
    ensures Within(b, step, m)
  {
    if OnAxis(centre, step, b + step) {
      assert g(b) <= g(b + step);
    }
    if OnAxis(centre, step, b - step) {
      assert g(b) <= g(b - step);
    }
  }

  /** After every round the optimum is still inside the new bracket, on both axes. */
  lemma RoundKeepsOptimum(measure: Measure, phi: real -> real, g: real -> real, h: real -> real,
                          iStar: real, qStar: real, c: Best, step: real)
    requires step > 0.0
    requires Separable(measure, phi, g, h) && Unimodal(g, iStar) && Unimodal(h, qStar)
    requires c.db == measure(c.i, c.q)
    requires Within(c.i, 3.0 * step, iStar) && Within(c.q, 3.0 * step, qStar)
    ensures var b := RoundBest(measure, c, step);
            b.db == measure(b.i, b.q) && Within(b.i, step, iStar) && Within(b.q, step, qStar)
  {
    var b := RoundBest(measure, c, step);
    RoundFinds(measure, c, step);
    assert OnGrid(c, step, b.i, b.q);
    forall x | OnAxis(c.i, step, x) ensures g(b.i) <= g(x) {
      assert OnGrid(c, step, x, b.q);
      assert measure(b.i, b.q) <= measure(x, b.q);
    }
    forall y | OnAxis(c.q, step, y) ensures h(b.q) <= h(y) {
      assert OnGrid(c, step, b.i, y);
      assert measure(b.i, b.q) <= measure(b.i, y);
    }
    AxisKeepsOptimum(g, iStar, c.i, step, b.i);
    AxisKeepsOptimum(h, qStar, c.q, step, b.q);
  }

  /** What a round promises about the optimum, whatever the grid. */
  ghost predicate KeepsOptimum(measure: Measure, iStar: real, qStar: real) {
    forall c: Best, step: real {:trigger RoundBest(measure, c, step)} ::
      step > 0.0 && c.db == measure(c.i, c.q) && Within(c.i, 3.0 * step, iStar) && Within(c.q, 3.0 * step, qStar) ==>
        var b := RoundBest(measure, c, step);
        b.db == measure(b.i, b.q) && Within(b.i, step, iStar) && Within(b.q, step, qStar)
  }

  lemma {:induction false} RoundsConverge(measure: Measure, iStar: real, qStar: real, c: Best, step: real, n: nat)
    requires step > 0.0 && KeepsOptimum(measure, iStar, qStar)
    requires c.db == measure(c.i, c.q)
    requires Within(c.i, 3.0 * step, iStar) && Within(c.q, 3.0 * step, qStar)
    ensures var r := Rounds(measure, c, step, n);
            Within(r.i, 3.0 * Pitch(step, n), iStar) && Within(r.q, 3.0 * Pitch(step, n), qStar)
    decreases n
  {
    if n > 0 {
      RoundsConverge(measure, iStar, qStar, RoundBest(measure, c, step), step / 3.0, n - 1);
    }
  }

  /** Whenever the optimum lies in [-1, 1] on both axes, the search ends less than three times the
      precision away from it on both. */
  lemma CalibrationConverges(measure: Measure, phi: real -> real, g: real -> real, h: real -> real,
                             iStar: real, qStar: real, precision: real)
    requires precision > 0.0
    requires Separable(measure, phi, g, h) && Unimodal(g, iStar) && Unimodal(h, qStar)
    requires -1.0 <= iStar <= 1.0 && -1.0 <= qStar <= 1.0
    ensures Inside(Search(measure, measure(0.0, 0.0), precision), 3.0 * precision, iStar, qStar)
  {
    var n := RoundCount(FIRST_PITCH, precision);
    forall c: Best, step: real {:trigger RoundBest(measure, c, step)}
      | step > 0.0 && c.db == measure(c.i, c.q) && Within(c.i, 3.0 * step, iStar) && Within(c.q, 3.0 * step, qStar)
      ensures var b := RoundBest(measure, c, step);
              b.db == measure(b.i, b.q) && Within(b.i, step, iStar) && Within(b.q, step, qStar)
    {
      RoundKeepsOptimum(measure, phi, g, h, iStar, qStar, c, step);
    }
    RoundsConverge(measure, iStar, qStar, Best(measure(0.0, 0.0), 0.0, 0.0), FIRST_PITCH, n);
    CountIsLeast(FIRST_PITCH, precision);
  }
}
