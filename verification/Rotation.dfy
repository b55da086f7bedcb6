/**
 * The rotating GP sweep, as a function of the catalog, the stored cursor and
 * the run's hot ids, and what it guarantees over whole sequences of runs.
 *
 * Ids are arranged on a circle. `InArc(c, x, d)` says that going up from `c`
 * and wrapping once at the end of the catalog, `x` is met no later than `d`.
 */
module Rotation {
  import opened Prelude
  import opened Ordering

  /** Cursor value used while none is stored. */
  const NO_CURSOR := -1
  const BATCH_SIZE := 500
  const MAX_HOT_SLOTS := 200

  function Past(ids: set<int>, cursor: int): set<int> {
    set x | x in ids && x > cursor
  }

  function UpTo(ids: set<int>, cursor: int): set<int> {
    set x | x in ids && x <= cursor
  }

  function Eligible(live: set<int>, excluded: set<int>): set<int> {
    live - excluded
  }

  /** The two SELECTs: past the cursor, then from the start if the first came back short. */
  function BatchFrom(eligible: set<int>, cursor: int, batchSize: nat): seq<int> {
    var primary := Limit(Ascending(Past(eligible, cursor)), batchSize);
    if |primary| < batchSize then
      primary + Limit(Ascending(eligible), batchSize - |primary|)
    else
      primary
  }

  function NextBatch(live: set<int>, cursor: int, batchSize: nat, excluded: set<int>): seq<int> {
    BatchFrom(Eligible(live, excluded), cursor, batchSize)
  }

  /** All ids in the order a sweep starting after `cursor` should meet them. */
  function CyclicOrder(ids: set<int>, cursor: int): seq<int> {
    Ascending(Past(ids, cursor)) + Ascending(UpTo(ids, cursor))
  }

  predicate InArc(c: int, x: int, d: int) {
    if c < d then c < x <= d else x > c || x <= d
  }

  // ----- one batch -----

  lemma SplitAtCursor(ids: set<int>, cursor: int)
    ensures ids == UpTo(ids, cursor) + Past(ids, cursor)
    ensures UpTo(ids, cursor) !! Past(ids, cursor)
    ensures |UpTo(ids, cursor)| + |Past(ids, cursor)| == |ids|
    ensures Ascending(ids) == Ascending(UpTo(ids, cursor)) + Ascending(Past(ids, cursor))
  {
    assert ids == UpTo(ids, cursor) + Past(ids, cursor);
    AscendingJoin(UpTo(ids, cursor), Past(ids, cursor));
  }

  /** Taking `k` rows from a list, then what is missing from the rotated list. */
  lemma TakeWrapped(high: seq<int>, low: seq<int>, k: nat)
    requires k <= |high| + |low|
    ensures |high| < k ==> high + Limit(low + high, k - |high|) == (high + low)[..k]
    ensures |high| >= k ==> Limit(high, k) == (high + low)[..k]
  {
  }

  lemma TakeWrappedShort(high: seq<int>, low: seq<int>, k: nat)
    requires |high| + |low| < k
    ensures Elements(high + Limit(low + high, k - |high|)) == Elements(high) + Elements(low)
  {
    var tail := Limit(low + high, k - |high|);
    var again := tail[|low|..];
    assert tail == low + again;
    assert forall x :: x in again ==> x in high;
    ElementsOfJoin(low, again);
    ElementsOfJoin(high, tail);
  }

  lemma ShortRepeatsIff(high: seq<int>, low: seq<int>, k: nat)
    requires |high| + |low| < k && Distinct(low)
    ensures Distinct(high + Limit(low + high, k - |high|)) <==> high == []
  {
    var batch := high + Limit(low + high, k - |high|);
    if high == [] {
      assert batch == low;
    } else {
      assert batch[0] == high[0] == batch[|high| + |low|];
    }
  }

  lemma CyclicOrderFacts(ids: set<int>, cursor: int)
    ensures Elements(CyclicOrder(ids, cursor)) == ids
    ensures Distinct(CyclicOrder(ids, cursor))
    ensures |CyclicOrder(ids, cursor)| == |ids|
  {
    hide OrderBy, Ascending, Past, UpTo;
    SplitAtCursor(ids, cursor);
    var high, low := Ascending(Past(ids, cursor)), Ascending(UpTo(ids, cursor));
    ElementsOfJoin(high, low);
    DistinctJoin(high, low);
  }

  /** The batch and the cyclic order in terms of the ids past the cursor and those up to it. */
  lemma BatchParts(eligible: set<int>, cursor: int, batchSize: nat, high: seq<int>, low: seq<int>)
    requires high == Ascending(Past(eligible, cursor)) && low == Ascending(UpTo(eligible, cursor))
    ensures |high| + |low| == |eligible|
    ensures CyclicOrder(eligible, cursor) == high + low
    ensures BatchFrom(eligible, cursor, batchSize)
            == if |high| < batchSize then high + Limit(low + high, batchSize - |high|) else Limit(high, batchSize)
  {
    hide OrderBy, Ascending, Past, UpTo, Limit;
    SplitAtCursor(eligible, cursor);
    assert Ascending(eligible) == low + high;
    ShortOrLong(high, batchSize);
  }

  lemma ShortOrLong(rows: seq<int>, k: nat)
    ensures |rows| < k ==> Limit(rows, k) == rows
    ensures |rows| >= k ==> |Limit(rows, k)| == k
  {
  }

  /**
   * With enough eligible ids the two SELECTs together are exactly the first
   * `batchSize` ids in cyclic order after the cursor.
   */
  lemma BatchIsCyclicPrefix(eligible: set<int>, cursor: int, batchSize: nat)
    requires batchSize <= |eligible|
    ensures |CyclicOrder(eligible, cursor)| == |eligible|
    ensures BatchFrom(eligible, cursor, batchSize) == CyclicOrder(eligible, cursor)[..batchSize]
  {
    hide *;
    var high, low := Ascending(Past(eligible, cursor)), Ascending(UpTo(eligible, cursor));
    BatchParts(eligible, cursor, batchSize, high, low);
    TakeWrapped(high, low, batchSize);
  }

  /** With too few, the batch holds every eligible id and nothing else. */
  lemma ShortBatchIsEverything(eligible: set<int>, cursor: int, batchSize: nat)
    requires |eligible| < batchSize
    ensures Elements(BatchFrom(eligible, cursor, batchSize)) == eligible
  {
    hide OrderBy, BatchFrom, CyclicOrder, Limit;
    var high, low := Ascending(Past(eligible, cursor)), Ascending(UpTo(eligible, cursor));
    BatchParts(eligible, cursor, batchSize, high, low);
    TakeWrappedShort(high, low, batchSize);
    SplitAtCursor(eligible, cursor);
  }

  lemma BatchLength(eligible: set<int>, cursor: int, batchSize: nat)
    ensures |BatchFrom(eligible, cursor, batchSize)| <= batchSize
    ensures |eligible| >= batchSize ==> |BatchFrom(eligible, cursor, batchSize)| == batchSize
  {
    if |eligible| >= batchSize {
      BatchIsCyclicPrefix(eligible, cursor, batchSize);
    }
  }

  /** Only eligible ids are requested. */
  lemma BatchIsEligible(eligible: set<int>, cursor: int, batchSize: nat)
    ensures Elements(BatchFrom(eligible, cursor, batchSize)) <= eligible
  {
    hide OrderBy, Ascending;
    if batchSize <= |eligible| {
      BatchIsCyclicPrefix(eligible, cursor, batchSize);
      CyclicOrderFacts(eligible, cursor);
      var order := CyclicOrder(eligible, cursor);
      assert forall x :: x in order[..batchSize] ==> x in Elements(order);
    } else {
      ShortBatchIsEverything(eligible, cursor, batchSize);
    }
  }

  lemma FullBatchDistinct(eligible: set<int>, cursor: int, batchSize: nat)
    requires |eligible| >= batchSize
    ensures Distinct(BatchFrom(eligible, cursor, batchSize))
  {
    hide OrderBy, Ascending, BatchFrom, CyclicOrder;
    BatchIsCyclicPrefix(eligible, cursor, batchSize);
    CyclicOrderFacts(eligible, cursor);
  }

  lemma ShortBatchDistinctIff(eligible: set<int>, cursor: int, batchSize: nat)
    requires |eligible| < batchSize
    ensures Distinct(BatchFrom(eligible, cursor, batchSize)) <==> Past(eligible, cursor) == {}
  {
    hide OrderBy, BatchFrom;
    var high, low := Ascending(Past(eligible, cursor)), Ascending(UpTo(eligible, cursor));
    assert Past(eligible, cursor) == {} <==> high == [];
    BatchParts(eligible, cursor, batchSize, high, low);
    ShortRepeatsIff(high, low, batchSize);
  }

  /**
   * The wraparound SELECT does not stop at the cursor, so a small catalog can
   * repeat ids. A batch is duplicate-free exactly when enough ids are eligible
   * or none of them lies past the cursor.
   */
  lemma BatchDistinctIff(eligible: set<int>, cursor: int, batchSize: nat)
    ensures Distinct(BatchFrom(eligible, cursor, batchSize))
            <==> (|eligible| >= batchSize || Past(eligible, cursor) == {})
  {
    if |eligible| >= batchSize {
      FullBatchDistinct(eligible, cursor, batchSize);
    } else {
      ShortBatchDistinctIff(eligible, cursor, batchSize);
    }
  }

  /** A catalog of one id and no cursor: the documented uniqueness fails. */
  lemma TinyCatalogRepeats()
    ensures NextBatch({7}, NO_CURSOR, BATCH_SIZE, {}) == [7, 7]
  {
    assert Past({7}, NO_CURSOR) == {7} && UpTo({7}, NO_CURSOR) == {};
    AscendingUnique([7], {7});
    assert {7} - {} == {7};
  }

  // ----- no live id is passed over -----

  lemma PositionInCyclicOrder(ids: set<int>, cursor: int, i: nat, j: nat)
    requires i < |CyclicOrder(ids, cursor)| && j < |CyclicOrder(ids, cursor)|
    ensures InArc(cursor, CyclicOrder(ids, cursor)[i], CyclicOrder(ids, cursor)[j]) <==> i <= j
  {
    hide OrderBy;
    var high, low := Ascending(Past(ids, cursor)), Ascending(UpTo(ids, cursor));
    assert forall k :: 0 <= k < |high| ==> high[k] in Elements(high);
    assert forall k :: 0 <= k < |low| ==> low[k] in Elements(low);
  }

  function Last(s: seq<int>): int
    requires s != []
  {
    s[|s| - 1]
  }

  lemma PrefixMembership(s: seq<int>, k: nat, i: nat)
    requires Distinct(s) && k <= |s| && i < |s|
    ensures s[i] in s[..k] <==> i < k
  {
    assert i < k ==> s[..k][i] == s[i];
  }

  /** A full batch is the arc from the cursor to its last id, no more and no less. */
  lemma FullBatchIsArc(eligible: set<int>, cursor: int, batchSize: nat, x: int)
    requires 0 < batchSize <= |eligible|
    requires x in eligible
    ensures BatchFrom(eligible, cursor, batchSize) != []
    ensures x in BatchFrom(eligible, cursor, batchSize)
            <==> InArc(cursor, x, Last(BatchFrom(eligible, cursor, batchSize)))
  {
    hide OrderBy, Ascending, CyclicOrder, BatchFrom, InArc;
    BatchIsCyclicPrefix(eligible, cursor, batchSize);
    CyclicOrderFacts(eligible, cursor);
    var order := CyclicOrder(eligible, cursor);
    assert x in Elements(order);
    assert x in order;
    var i :| 0 <= i < |order| && order[i] == x;
    PositionInCyclicOrder(eligible, cursor, i, batchSize - 1);
    PrefixMembership(order, batchSize, i);
  }

  /** A full batch is listed in cyclic order, and what it leaves out comes after all of it. */
  lemma FullBatchOrder(eligible: set<int>, cursor: int, batchSize: nat)
    requires batchSize <= |eligible|
    ensures var batch := BatchFrom(eligible, cursor, batchSize);
            && (forall i, j :: 0 <= i < j < |batch| ==> batch[i] != batch[j] && InArc(cursor, batch[i], batch[j]))
            && (forall id, i :: id in eligible && id !in batch && 0 <= i < |batch| ==> !InArc(cursor, id, batch[i]))
  {
    hide OrderBy, Ascending, CyclicOrder, BatchFrom, InArc;
    BatchIsCyclicPrefix(eligible, cursor, batchSize);
    CyclicOrderFacts(eligible, cursor);
    var order, batch := CyclicOrder(eligible, cursor), BatchFrom(eligible, cursor, batchSize);
    forall i, j | 0 <= i < j < |batch|
      ensures batch[i] != batch[j] && InArc(cursor, batch[i], batch[j])
    {
      assert batch[i] == order[i] && batch[j] == order[j];
      PositionInCyclicOrder(eligible, cursor, i, j);
    }
    forall id, i | id in eligible && id !in batch && 0 <= i < |batch|
      ensures !InArc(cursor, id, batch[i])
    {
      assert id in Elements(order) && id in order;
      var j :| 0 <= j < |order| && order[j] == id;
      PrefixMembership(order, batchSize, j);
      PositionInCyclicOrder(eligible, cursor, j, i);
      assert batch[i] == order[i];
    }
  }

  /**
   * Only ids of the set; all of them when there are too few; and otherwise
   * exactly `batchSize` of them, the ones met first going up from the cursor
   * and wrapping around, in that order.
   */
  ghost predicate FirstAround(all: set<int>, cursor: int, batchSize: nat, batch: seq<int>) {
    && |batch| <= batchSize
    && (forall id :: id in batch ==> id in all)
    && (|all| <= batchSize ==> forall id :: id in all ==> id in batch)
    && (|all| >= batchSize ==>
          && |batch| == batchSize
          && (forall i, j :: 0 <= i < j < |batch| ==> batch[i] != batch[j] && InArc(cursor, batch[i], batch[j]))
          && (forall id, i :: id in all && id !in batch && 0 <= i < |batch| ==> !InArc(cursor, id, batch[i])))
  }

  lemma BatchIsFirstAround(all: set<int>, cursor: int, batchSize: nat)
    ensures FirstAround(all, cursor, batchSize, BatchFrom(all, cursor, batchSize))
  {
    hide BatchFrom, InArc;
    BatchOfAll(all, cursor, batchSize);
    if |all| >= batchSize {
      FullBatchOrder(all, cursor, batchSize);
    }
  }

  /** Only ids of the set, as many as fit, and all of them when they fit. */
  lemma BatchOfAll(all: set<int>, cursor: int, batchSize: nat)
    ensures var batch := BatchFrom(all, cursor, batchSize);
            && |batch| <= batchSize && (|all| >= batchSize ==> |batch| == batchSize)
            && (forall id :: id in batch ==> id in all)
            && (|all| <= batchSize ==> forall id :: id in all ==> id in batch)
  {
    hide BatchFrom;
    var batch := BatchFrom(all, cursor, batchSize);
    BatchLength(all, cursor, batchSize);
    BatchIsEligible(all, cursor, batchSize);
    assert forall id :: id in batch <==> id in Elements(batch);
    if |all| < batchSize {
      ShortBatchIsEverything(all, cursor, batchSize);
    } else if |all| == batchSize {
      FullBatchDistinct(all, cursor, batchSize);
      DistinctCount(batch);
      SameCountSameSet(Elements(batch), all);
    }
  }

  /**
   * Once the cursor would move to the end of the batch, a live id within the
   * arc swept is in the hot list or in the batch; and with enough eligible ids
   * the batch holds nothing outside that arc and no hot id.
   */
  lemma NoLiveIdPassedOver(live: set<int>, cursor: int, batchSize: nat, hot: set<int>, x: int)
    requires NextBatch(live, cursor, batchSize, hot) != []
    requires x in live
    ensures var batch := NextBatch(live, cursor, batchSize, hot);
            InArc(cursor, x, Last(batch)) ==> x in hot || x in batch
    ensures var batch := NextBatch(live, cursor, batchSize, hot);
            x in batch && batchSize <= |Eligible(live, hot)| ==> InArc(cursor, x, Last(batch)) && x !in hot
  {
    hide BatchFrom;
    var e := Eligible(live, hot);
    var batch := NextBatch(live, cursor, batchSize, hot);
    BatchIsEligible(e, cursor, batchSize);
    assert x in batch <==> x in Elements(batch);
    BatchLength(e, cursor, batchSize);
    if |e| < batchSize {
      ShortBatchIsEverything(e, cursor, batchSize);
    } else if x in e {
      FullBatchIsArc(e, cursor, batchSize, x);
    }
  }

  // ----- bounded fairness -----

  /** How many of the ids in `all` a sweep from `cursor` still meets up to and including `x`. */
  function Ahead(all: set<int>, cursor: int, x: int): nat {
    |AheadSet(all, cursor, x)|
  }

  function AheadSet(all: set<int>, cursor: int, x: int): set<int> {
    set y | y in all && InArc(cursor, y, x)
  }

  /** An uncovered id moves at least a whole batch closer. */
  lemma RankDrops(all: set<int>, live: set<int>, cursor: int, batchSize: nat, hot: set<int>, x: int)
    requires live <= all && x in live && x !in hot
    requires batchSize > 0
    requires x !in NextBatch(live, cursor, batchSize, hot)
    ensures NextBatch(live, cursor, batchSize, hot) != []
    ensures Ahead(all, Last(NextBatch(live, cursor, batchSize, hot)), x) + batchSize <= Ahead(all, cursor, x)
  {
    hide BatchFrom;
    var batch := NextBatch(live, cursor, batchSize, hot);
    var e := Eligible(live, hot);
    UncoveredMeansFull(live, cursor, batchSize, hot, x);
    BatchLength(e, cursor, batchSize);
    FullBatchDistinct(e, cursor, batchSize);
    DistinctCount(batch);
    BatchIsEligible(e, cursor, batchSize);
    forall y | y in Elements(batch)
      ensures y in all && InArc(cursor, y, Last(batch))
    {
      NoLiveIdPassedOver(live, cursor, batchSize, hot, y);
    }
    NoLiveIdPassedOver(live, cursor, batchSize, hot, x);
    ArcShrinks(all, cursor, Last(batch), x, Elements(batch));
  }

  lemma UncoveredMeansFull(live: set<int>, cursor: int, batchSize: nat, hot: set<int>, x: int)
    requires x in live && x !in hot
    requires x !in NextBatch(live, cursor, batchSize, hot)
    ensures batchSize <= |Eligible(live, hot)|
  {
    hide BatchFrom;
    var batch := NextBatch(live, cursor, batchSize, hot);
    assert x in Eligible(live, hot) && x !in Elements(batch);
    if |Eligible(live, hot)| < batchSize {
      ShortBatchIsEverything(Eligible(live, hot), cursor, batchSize);
    }
  }

  /** Moving the cursor short of `x` leaves everything it passed behind. */
  lemma ArcShrinks(all: set<int>, cursor: int, next: int, x: int, passed: set<int>)
    requires passed <= all && !InArc(cursor, x, next)
    requires forall y :: y in passed ==> InArc(cursor, y, next)
    ensures Ahead(all, next, x) + |passed| <= Ahead(all, cursor, x)
  {
    assert AheadSet(all, next, x) !! passed;
    SubsetCount(AheadSet(all, next, x) + passed, AheadSet(all, cursor, x));
  }

  /**
   * What one GP run saw: the live catalog, the hot ids it chose, and whether
   * the response came back and the cursor was stored.
   */
  datatype GpRun = GpRun(live: set<int>, hot: seq<int>, completed: bool) {
    function Batch(cursor: int): seq<int>
      requires |hot| <= MAX_HOT_SLOTS
    {
      NextBatch(live, cursor, BATCH_SIZE - |hot|, Elements(hot))
    }

    /** The cursor the next run starts from. */
    function Advance(cursor: int): int
      requires |hot| <= MAX_HOT_SLOTS
    {
      var batch := Batch(cursor);
      if completed && batch != [] then Last(batch) else cursor
    }
  }

  ghost predicate Bounded(runs: seq<GpRun>) {
    forall r :: r in runs ==> |r.hot| <= MAX_HOT_SLOTS
  }

  function Completed(runs: seq<GpRun>): nat {
    if runs == [] then 0 else (if runs[0].completed then 1 else 0) + Completed(runs[1..])
  }

  /** `x` is asked for by some completed run of the sequence. */
  ghost predicate Requested(runs: seq<GpRun>, cursor: int, x: int)
    requires Bounded(runs)
  {
    runs != [] &&
    ((runs[0].completed && (x in runs[0].hot || x in runs[0].Batch(cursor)))
     || Requested(runs[1..], runs[0].Advance(cursor), x))
  }

  lemma {:induction false} SweepReaches(runs: seq<GpRun>, cursor: int, all: set<int>, x: int)
    requires Bounded(runs) && x in all
    requires forall r :: r in runs ==> x in r.live && r.live <= all
    requires Ahead(all, cursor, x) <= (BATCH_SIZE - MAX_HOT_SLOTS) * Completed(runs)
    ensures Requested(runs, cursor, x)
  {
    assert x in AheadSet(all, cursor, x);
    if runs != [] {
      var r := runs[0];
      assert r in runs;
      if r.completed && x !in r.hot && x !in r.Batch(cursor) {
        RankDrops(all, r.live, cursor, BATCH_SIZE - |r.hot|, Elements(r.hot), x);
      }
      if !(r.completed && (x in r.hot || x in r.Batch(cursor))) {
        SweepReaches(runs[1..], r.Advance(cursor), all, x);
      }
    }
  }

  /**
   * Bounded fairness. Take any sequence of runs in which `x` stays live, with
   * any hot sets, any failed runs in between and a catalog that may grow or
   * shrink, and let `all` hold every id live at some point. Within
   * ceil(|all| / 300) completed runs `x` has been requested.
   */
  lemma BoundedFairness(runs: seq<GpRun>, cursor: int, all: set<int>, x: int)
    requires Bounded(runs) && x in all
    requires forall r :: r in runs ==> x in r.live && r.live <= all
    requires Completed(runs) >= (|all| + 299) / 300
    ensures Requested(runs, cursor, x)
  {
    SubsetCount(AheadSet(all, cursor, x), all);
    SweepReaches(runs, cursor, all, x);
  }
}
