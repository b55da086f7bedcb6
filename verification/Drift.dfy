/**
 * How far an object can drift without any GP event. The bounds are about the
 * stored history, so they include the rounding of the NUMERIC columns: each
 * record is compared, unrounded, with some rounded earlier row.
 */
module Drift {
  import opened Rules
  import opened Tables
  import opened History
  import opened System
  import opened GpLog

  // ----- rounding -----

  /** Nearest integer, halves away from zero. */
  function Nearest(y: real): int {
    if y >= 0.0 then (y + 0.5).Floor else -((-y + 0.5).Floor)
  }

  lemma NearestBetween(y: real, lo: int, hi: int)
    requires lo as real <= y <= hi as real
    ensures lo <= Nearest(y) <= hi
  {
  }

  lemma NearestClose(y: real)
    ensures Abs(Nearest(y) as real) <= Abs(y) + 0.5
  {
  }

  lemma RoundIsNearest(x: real, scale: real)
    requires scale > 0.0
    ensures RoundNumeric(x, scale) * scale == Nearest(x * scale) as real
  {
    if x >= 0.0 {
      assert x * scale >= 0.0;
    } else {
      assert x * scale == -(-x * scale) && -x * scale > 0.0;
    }
  }

  /** A stored value is within half a unit of the column's last decimal. */
  lemma RoundWithinHalf(x: real, scale: real)
    requires scale > 0.0
    ensures Abs(RoundNumeric(x, scale) - x) * scale <= 0.5
  {
    hide RoundNumeric;
    RoundIsNearest(x, scale);
    ScaledDistance(RoundNumeric(x, scale), x, scale);
  }

  lemma NearestTies(y: real)
    ensures -0.5 <= Nearest(y) as real - y <= 0.5
    ensures Nearest(y) as real - y == 0.5 ==> y >= 0.0
    ensures Nearest(y) as real - y == -0.5 ==> y < 0.0
  {
  }

  /**
   * NUMERIC rounding, determined: a whole number of column units, no further
   * than half a unit from the value, and away from zero from exactly half.
   */
  lemma RoundingMeaning(x: real, scale: real)
    requires scale > 0.0
    ensures var r := RoundNumeric(x, scale);
            && (r * scale).Floor as real == r * scale
            && -0.5 <= r * scale - x * scale <= 0.5
            && (r * scale - x * scale == 0.5 ==> x >= 0.0) && (r * scale - x * scale == -0.5 ==> x < 0.0)
  {
    hide RoundNumeric, Nearest;
    RoundIsNearest(x, scale);
    NearestTies(x * scale);
    PositiveProduct(x, scale);
    PositiveProduct(-x, scale);
    assert -x * scale == -(x * scale);
  }

  /**
   * What a snapshot reads back as: angles to four decimals, eccentricity to
   * eight, bstar to fourteen, and the axis untouched.
   */
  lemma StoredColumns(s: Snapshot)
    ensures var r := Stored(s);
            && (r.noradCatId, r.gpId, r.epoch, r.semimajorAxis) == (s.noradCatId, s.gpId, s.epoch, s.semimajorAxis)
            && Abs(r.inclination - s.inclination) <= 0.00005 && (r.inclination * 10000.0).Floor as real == r.inclination * 10000.0
            && Abs(r.raOfAscNode - s.raOfAscNode) <= 0.00005 && (r.raOfAscNode * 10000.0).Floor as real == r.raOfAscNode * 10000.0
            && Abs(r.eccentricity - s.eccentricity) <= 0.000000005
            && (r.eccentricity * 100000000.0).Floor as real == r.eccentricity * 100000000.0
            && Abs(r.bstar - s.bstar) <= 0.000000000000005
            && (r.bstar * 100000000000000.0).Floor as real == r.bstar * 100000000000000.0
  {
    hide RoundNumeric;
    RoundingMeaning(s.inclination, SCALE_4);
    RoundingMeaning(s.raOfAscNode, SCALE_4);
    RoundingMeaning(s.eccentricity, SCALE_8);
    RoundingMeaning(s.bstar, SCALE_14);
  }

  /** A value that has no more decimals than its column is stored as it is. */
  lemma FittingValueIsKept(x: real, units: int, scale: real)
    requires scale > 0.0 && x * scale == units as real
    ensures RoundNumeric(x, scale) == x
  {
    hide RoundNumeric, Nearest;
    RoundIsNearest(x, scale);
    NearestBetween(x * scale, units, units);
    Cancel(RoundNumeric(x, scale), x, scale);
  }

  lemma Cancel(a: real, b: real, scale: real)
    requires scale > 0.0 && a * scale == b * scale
    ensures a == b
  {
    PositiveProduct(a - b, scale);
    PositiveProduct(b - a, scale);
    assert (a - b) * scale == a * scale - b * scale;
    assert (b - a) * scale == b * scale - a * scale;
  }

  /** A value on the column's grid. */
  predicate OnGrid(x: real, scale: real) {
    (x * scale).Floor as real == x * scale
  }

  lemma RoundedIsOnGrid(x: real, scale: real)
    requires scale > 0.0
    ensures OnGrid(RoundNumeric(x, scale), scale)
  {
    RoundIsNearest(x, scale);
  }

  lemma ScaledDistance(a: real, b: real, scale: real)
    requires scale > 0.0
    ensures Abs(a - b) * scale == Abs(a * scale - b * scale)
  {
    assert (a - b) * scale == a * scale - b * scale;
    assert (b - a) * scale == b * scale - a * scale;
    if a >= b {
      assert (a - b) * scale >= 0.0;
    } else {
      assert (b - a) * scale >= 0.0;
    }
  }

  /**
   * Rounding cannot carry a value further from a grid point than a bound that
   * is itself a whole number of grid steps.
   */
  lemma RoundKeepsGridBound(base: real, x: real, scale: real, steps: nat)
    requires scale > 0.0 && OnGrid(base, scale)
    requires Abs(x - base) * scale <= steps as real
    ensures Abs(RoundNumeric(x, scale) - base) * scale <= steps as real
  {
    hide RoundNumeric, Nearest;
    var k := (base * scale).Floor;
    var r := RoundNumeric(x, scale);
    ScaledDistance(x, base, scale);
    NearestBetween(x * scale, k - steps, k + steps);
    RoundIsNearest(x, scale);
    ScaledDistance(r, base, scale);
  }

  // ----- one silent step -----

  /** What a silent diff says about the stored row and the stored form of the next record. */
  ghost predicate SmallStep(prev: Snapshot, next: Snapshot) {
    && Abs(next.inclination - prev.inclination) <= INCLINATION_THRESHOLD
    && Abs(next.raOfAscNode - prev.raOfAscNode) <= RAAN_THRESHOLD
    && Abs(next.eccentricity - prev.eccentricity) <= ECCENTRICITY_THRESHOLD
    && Abs(next.semimajorAxis - prev.semimajorAxis) <= SEMIMAJOR_AXIS_THRESHOLD
    && (if Abs(prev.bstar) < BSTAR_NEAR_ZERO then Abs(next.bstar) <= NEAR_ZERO_REACH
        else Abs(next.bstar) <= 1.5 * Abs(prev.bstar) + 0.5 * BSTAR_STEP
             && (next.bstar > 0.0 <==> prev.bstar > 0.0) && (next.bstar < 0.0 <==> prev.bstar < 0.0))
  }

  const BSTAR_STEP := 0.00000000000001
  const NEAR_ZERO_REACH := 0.000101

  lemma RoundedBstar(prevBstar: real, bstar: real)
    requires Abs(bstar - prevBstar) <= DragAllowance(prevBstar)
    ensures var next := RoundNumeric(bstar, SCALE_14);
            if Abs(prevBstar) < BSTAR_NEAR_ZERO then Abs(next) <= NEAR_ZERO_REACH
            else Abs(next) <= 1.5 * Abs(prevBstar) + 0.5 * BSTAR_STEP
                 && (next > 0.0 <==> prevBstar > 0.0) && (next < 0.0 <==> prevBstar < 0.0)
  {
    RoundIsNearest(bstar, SCALE_14);
    var y := bstar * SCALE_14;
    if Abs(prevBstar) < BSTAR_NEAR_ZERO {
      NearestBetween(y, -10100000000, 10100000000);
    } else {
      NearestClose(y);
      if prevBstar > 0.0 {
        NearestBetween(y, 1, y.Floor + 1);
      } else {
        NearestBetween(y, y.Floor, -1);
      }
    }
  }

  lemma SilentStep(raw: Snapshot, curr: Snapshot)
    requires GpEvents(Stored(raw), curr) == []
    ensures SmallStep(Stored(raw), Stored(curr))
  {
    hide RoundNumeric, GpEvents;
    var prev := Stored(raw);
    GpSilentIff(prev, curr);
    RoundedIsOnGrid(raw.inclination, SCALE_4);
    RoundedIsOnGrid(raw.raOfAscNode, SCALE_4);
    RoundedIsOnGrid(raw.eccentricity, SCALE_8);
    RoundKeepsGridBound(prev.inclination, curr.inclination, SCALE_4, 100);
    RoundKeepsGridBound(prev.raOfAscNode, curr.raOfAscNode, SCALE_4, 100);
    RoundKeepsGridBound(prev.eccentricity, curr.eccentricity, SCALE_8, 100000);
    RoundedBstar(prev.bstar, curr.bstar);
  }

  // ----- a silent history -----

  /** Every row is a small step away from some earlier one, not always the one right before it. */
  ghost predicate SmallSteps(rows: seq<SnapshotRow>) {
    forall k :: 0 < k < |rows| ==> exists p :: 0 <= p < k && SmallStep(rows[p].snap, rows[k].snap)
  }

  ghost predicate NoEventFaults(arrivals: seq<Arrival>) {
    forall i :: 0 <= i < |arrivals| ==> !arrivals[i].fault.EventFails?
  }

  lemma {:induction false} SilentLogMeansSmallSteps(n: int, rows: seq<SnapshotRow>, arrivals: seq<Arrival>)
    requires StoresOf(rows, Arrived(arrivals)) && NoEventFaults(arrivals)
    requires forall i :: 0 <= i < |rows| ==> rows[i].snap.noradCatId == n
    requires ArrivalLog(n, rows, arrivals) == []
    ensures SmallSteps(rows)
  {
    assert |rows| == |arrivals|;
    hide SmallStep, StoresOf, Latest, WrittenEvents, Arrived, SmallSteps;
    if |rows| <= 1 {
      FewRows(rows);
    } else {
      var k := |rows| - 1;
      StoresPrefix(rows, arrivals);
      SilentLogMeansSmallSteps(n, rows[..k], arrivals[..k]);
      SilentArrival(n, rows, arrivals);
      OneMoreStep(rows);
    }
  }

  lemma FewRows(rows: seq<SnapshotRow>)
    requires |rows| <= 1
    ensures SmallSteps(rows)
  {
  }

  lemma StoresPrefix(rows: seq<SnapshotRow>, arrivals: seq<Arrival>)
    requires rows != [] && |rows| == |arrivals| && StoresOf(rows, Arrived(arrivals))
    ensures StoresOf(rows[..|rows| - 1], Arrived(arrivals[..|rows| - 1]))
  {
    hide Stored;
  }

  lemma OneMoreStep(rows: seq<SnapshotRow>)
    requires |rows| > 1 && SmallSteps(rows[..|rows| - 1])
    requires exists p :: 0 <= p < |rows| - 1 && SmallStep(rows[p].snap, rows[|rows| - 1].snap)
    ensures SmallSteps(rows)
  {
    hide SmallStep;
    var k := |rows| - 1;
    forall j | 0 < j < k
      ensures exists p :: 0 <= p < j && SmallStep(rows[p].snap, rows[j].snap)
    {
      var p :| 0 <= p < j && SmallStep(rows[..k][p].snap, rows[..k][j].snap);
      assert rows[..k][p] == rows[p] && rows[..k][j] == rows[j];
    }
  }

  /** An arrival that fired nothing is a small step away from the row it was compared with. */
  lemma SilentArrival(n: int, rows: seq<SnapshotRow>, arrivals: seq<Arrival>)
    requires |rows| > 1 && StoresOf(rows, Arrived(arrivals)) && NoEventFaults(arrivals)
    requires forall i :: 0 <= i < |rows| ==> rows[i].snap.noradCatId == n
    requires var k := |rows| - 1;
             var prev := Latest(rows[..k], n, arrivals[k].ties);
             prev.Some? ==> WrittenEvents(prev.value, arrivals[k].rec, rows[k].id, arrivals[k].fault) == []
    ensures exists p :: 0 <= p < |rows| - 1 && SmallStep(rows[p].snap, rows[|rows| - 1].snap)
  {
    hide GpEvents, SmallStep, Stored, Latest;
    var k := |rows| - 1;
    var prev := Latest(rows[..k], n, arrivals[k].ties);
    LatestIsNewest(rows[..k], n, arrivals[k].ties);
    assert rows[..k][0] in rows[..k];
    var p :| 0 <= p < k && rows[..k][p] == prev.value;
    assert |Tagged(GpEvents(prev.value.snap, arrivals[k].rec), arrivals[k].rec.noradCatId, prev.value.id, rows[k].id)| == 0;
    assert GpEvents(rows[p].snap, arrivals[k].rec) == [];
    SilentStep(arrivals[p].rec, arrivals[k].rec);
    assert SmallStep(rows[p].snap, rows[k].snap);
  }

  /** 1.5 to the power `n`. */
  function Growth(n: nat): real {
    if n == 0 then 1.0 else 1.5 * Growth(n - 1)
  }

  function Larger(a: real, b: real): real {
    if a >= b then a else b
  }

  /** What `steps` small steps can add up to. */
  ghost predicate DriftBounded(first: Snapshot, last: Snapshot, steps: nat) {
    var n := steps as real;
    && Abs(last.inclination - first.inclination) <= 0.01 * n
    && Abs(last.raOfAscNode - first.raOfAscNode) <= 0.01 * n
    && Abs(last.eccentricity - first.eccentricity) <= 0.001 * n
    && Abs(last.semimajorAxis - first.semimajorAxis) <= 1.0 * n
    && Abs(last.bstar) + BSTAR_STEP <= Growth(steps) * BstarReach(first)
  }

  function BstarReach(first: Snapshot): real {
    Larger(Abs(first.bstar), NEAR_ZERO_REACH) + BSTAR_STEP
  }

  lemma {:induction false} GrowthGrows(m: nat, n: nat)
    requires m <= n
    ensures 1.0 <= Growth(m) <= Growth(n)
    decreases n
  {
    if m < n {
      GrowthGrows(m, n - 1);
    } else if n > 0 {
      GrowthGrows(n - 1, n - 1);
    }
  }

  lemma BstarStep(b: real, next: real, steps: nat, top: real)
    requires top >= NEAR_ZERO_REACH + BSTAR_STEP
    requires Abs(b) + BSTAR_STEP <= Growth(steps) * top
    requires if Abs(b) < BSTAR_NEAR_ZERO then Abs(next) <= NEAR_ZERO_REACH
             else Abs(next) <= 1.5 * Abs(b) + 0.5 * BSTAR_STEP
    ensures Abs(next) + BSTAR_STEP <= Growth(steps + 1) * top
  {
    var g := Growth(steps + 1);
    assert g * top == 1.5 * (Growth(steps) * top);
    GrowthGrows(steps + 1, steps + 1);
    assert (g - 1.0) * top >= 0.0;
  }

  lemma AddStep(first: real, prev: real, last: real, bound: real, threshold: real)
    requires Abs(prev - first) <= bound && Abs(last - prev) <= threshold
    ensures Abs(last - first) <= bound + threshold
  {
  }

  lemma DriftStep(first: Snapshot, prev: Snapshot, last: Snapshot, steps: nat)
    requires DriftBounded(first, prev, steps) && SmallStep(prev, last)
    ensures DriftBounded(first, last, steps + 1)
  {
    hide Abs, Growth;
    var n := steps as real;
    AddStep(first.inclination, prev.inclination, last.inclination, 0.01 * n, INCLINATION_THRESHOLD);
    AddStep(first.raOfAscNode, prev.raOfAscNode, last.raOfAscNode, 0.01 * n, RAAN_THRESHOLD);
    AddStep(first.eccentricity, prev.eccentricity, last.eccentricity, 0.001 * n, ECCENTRICITY_THRESHOLD);
    AddStep(first.semimajorAxis, prev.semimajorAxis, last.semimajorAxis, 1.0 * n, SEMIMAJOR_AXIS_THRESHOLD);
    BstarStep(prev.bstar, last.bstar, steps, BstarReach(first));
  }

  lemma MoreStepsAllowMore(first: Snapshot, last: Snapshot, m: nat, n: nat)
    requires DriftBounded(first, last, m) && m <= n
    ensures DriftBounded(first, last, n)
  {
    hide Abs, Growth, Larger;
    GrowthGrows(m, n);
    assert BstarReach(first) >= 0.0 by {
      ReachIsPositive(first);
    }
    assert (Growth(n) - Growth(m)) * BstarReach(first) >= 0.0;
  }

  lemma ReachIsPositive(first: Snapshot)
    ensures BstarReach(first) > 0.0
  {
  }

  /** Whichever earlier row each row was compared with, row `k` is at most `k` steps from the first. */
  lemma {:induction false} SmallStepsBoundDrift(rows: seq<SnapshotRow>, k: nat)
    requires SmallSteps(rows) && k < |rows|
    ensures DriftBounded(rows[0].snap, rows[k].snap, k)
  {
    hide SmallStep, DriftBounded;
    if k == 0 {
      NoDrift(rows[0].snap);
    } else {
      var p :| 0 <= p < k && SmallStep(rows[p].snap, rows[k].snap);
      SmallStepsBoundDrift(rows, p);
      DriftStep(rows[0].snap, rows[p].snap, rows[k].snap, p);
      MoreStepsAllowMore(rows[0].snap, rows[k].snap, p + 1, k);
    }
  }

  lemma NoDrift(first: Snapshot)
    ensures DriftBounded(first, first, 0)
  {
  }

  predicate SameSign(a: real, b: real) {
    (a > 0.0 <==> b > 0.0) && (a < 0.0 <==> b < 0.0)
  }

  /** bstar changes sign unnoticed only by passing through a near-zero row. */
  lemma {:induction false} SignKept(rows: seq<SnapshotRow>, k: nat)
    requires SmallSteps(rows) && k < |rows|
    requires forall i :: 0 <= i < k ==> Abs(rows[i].snap.bstar) >= BSTAR_NEAR_ZERO
    ensures SameSign(rows[k].snap.bstar, rows[0].snap.bstar)
  {
    if k > 0 {
      var p :| 0 <= p < k && SmallStep(rows[p].snap, rows[k].snap);
      SignKept(rows, p);
    }
  }

  /** No event write fails for the object's records. */
  ghost predicate EventWritesWork(actions: seq<Action>, n: int) {
    forall a :: a in actions && IsRecordOf(a, n) ==> !a.oracle.fault.EventFails?
  }

  lemma {:induction false} ArrivalsWithoutFaults(t: Tables, actions: seq<Action>, n: int)
    requires EventWritesWork(actions, n)
    ensures NoEventFaults(ArrivalsOf(t, actions, n))
  {
    hide OutcomeAt, Keeps;
    if actions != [] {
      var init := actions[..|actions| - 1];
      assert actions[|actions| - 1] in actions;
      assert forall a :: a in init ==> a in actions;
      ArrivalsWithoutFaults(t, init, n);
    }
  }

  /**
   * An object without a GP event has not moved: each of its stored rows is
   * within the thresholds times its position of the first one, and bstar keeps
   * its sign until a near-zero row, whatever order its records came in,
   * however ties were broken, and whichever reads and inserts failed.
   */
  lemma SilentObjectBarelyMoves(t: Tables, actions: seq<Action>, n: int, k: nat)
    requires ArrivalHistoryIs(t, n, []) && EventWritesWork(actions, n)
    requires GpEventsOf(Run(t, actions).events, n) == []
    requires k < |SnapshotsOf(Run(t, actions).snapshots, n)|
    ensures var rows := SnapshotsOf(Run(t, actions).snapshots, n);
            && DriftBounded(rows[0].snap, rows[k].snap, k)
            && ((forall i :: 0 <= i < k ==> Abs(rows[i].snap.bstar) >= BSTAR_NEAR_ZERO) ==>
                  SameSign(rows[k].snap.bstar, rows[0].snap.bstar))
  {
    hide Run, StoresOf, ArrivalLog, ArrivalsOf, SnapshotsOf, GpEventsOf, SmallSteps, DriftBounded, SameSign,
      EventWritesWork, NoEventFaults, Arrived;
    var rows, arrivals := SnapshotsOf(Run(t, actions).snapshots, n), ArrivalsOf(t, actions, n);
    GpLogOfEveryRun(t, [], actions, n);
    assert [] + arrivals == arrivals;
    OwnRowsAreOwn(Run(t, actions).snapshots, n);
    ArrivalsWithoutFaults(t, actions, n);
    SilentLogMeansSmallSteps(n, rows, arrivals);
    SmallStepsBoundDrift(rows, k);
    if forall i :: 0 <= i < k ==> Abs(rows[i].snap.bstar) >= BSTAR_NEAR_ZERO {
      SignKept(rows, k);
    }
  }
}
