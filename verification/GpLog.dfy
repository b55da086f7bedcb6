/** The GP events of one object over a whole run of the system. */
module GpLog {
  import opened Prelude
  import opened Rules
  import opened Tables
  import opened History
  import opened Satcat
  import opened System

  predicate IsRecordOf(a: Action, n: int) {
    a.GpRecord? && a.rec.noradCatId == n
  }

  /** What became of record `k` of a run. */
  function OutcomeAt(t: Tables, actions: seq<Action>, k: nat): Outcome
    requires k < |actions| && actions[k].GpRecord?
  {
    ProcessRecord(Run(t, actions[..k]), actions[k].rec, actions[k].oracle).1
  }

  /** Object `n`'s raw records that were stored, in arrival order. */
  function KeptOf(t: Tables, actions: seq<Action>, n: int): seq<Snapshot> {
    if actions == [] then []
    else
      var k := |actions| - 1;
      KeptOf(t, actions[..k], n)
      + if IsRecordOf(actions[k], n) && Keeps(OutcomeAt(t, actions, k)) then [actions[k].rec] else []
  }

  /** No event write for object `n` failed. */
  ghost predicate EventsWritten(t: Tables, actions: seq<Action>, n: int) {
    forall k :: 0 <= k < |actions| && IsRecordOf(actions[k], n) ==> !OutcomeAt(t, actions, k).InsertedThenFailed?
  }

  lemma StepKeepsOthersHistory(t: Tables, a: Action, n: int)
    requires !IsRecordOf(a, n)
    ensures SnapshotsOf(Step(t, a).snapshots, n) == SnapshotsOf(t.snapshots, n)
    ensures GpEventsOf(Step(t, a).events, n) == GpEventsOf(t.events, n)
  {
    match a
    case SatcatBatch(recs, _) => SatcatKeepsGpHistory(t, recs, n);
    case GpRecord(rec, oracle) => OtherRecordKeepsHistory(t, rec, oracle, n);
    case _ =>
  }

  lemma {:induction false} SatcatKeepsGpHistory(t: Tables, recs: seq<ObjectRecord>, n: int)
    ensures UpsertAll(t, recs).snapshots == t.snapshots
    ensures GpEventsOf(UpsertAll(t, recs).events, n) == GpEventsOf(t.events, n)
  {
    hide FireAll;
    if recs != [] {
      var k := |recs| - 1;
      SatcatKeepsGpHistory(t, recs[..k], n);
      var t1 := UpsertAll(t, recs[..k]);
      var added := Untagged(Diff(StoredState(t1.objects, recs[k].noradCatId), StateOfRecord(recs[k])), recs[k].noradCatId);
      GpEventsOfAppend(t1.events, added, n);
      UntaggedAreNotGp(added, n);
    }
  }

  lemma {:induction false} UntaggedAreNotGp(rows: seq<EventRow>, n: int)
    requires forall e :: e in rows ==> e.prevSnapshotId.None?
    ensures GpEventsOf(rows, n) == []
  {
    if rows != [] {
      assert rows[|rows| - 1] in rows;
      UntaggedAreNotGp(rows[..|rows| - 1], n);
    }
  }

  /**
   * The stored GP log of an object is determined by its own stored records
   * alone: each was diffed against the newest one before it, and the event
   * rows name exactly that pair, however other objects, imports, lookups and
   * failures are interleaved, and whatever history the run started from.
   */
  lemma {:induction false} GpLogOfRun(t: Tables, past: seq<Snapshot>, actions: seq<Action>, n: int)
    requires HistoryIs(t, n, past)
    requires EventsWritten(t, actions, n) && DistinctEpochs(past + KeptOf(t, actions, n))
    ensures HistoryIs(Run(t, actions), n, past + KeptOf(t, actions, n))
  {
    hide ProcessRecord, Latest;
    if actions == [] {
      assert past + [] == past;
    } else {
      var k := |actions| - 1;
      var init, a := actions[..k], actions[k];
      var kept := past + KeptOf(t, init, n);
      forall i | 0 <= i < k && IsRecordOf(init[i], n)
        ensures !OutcomeAt(t, init, i).InsertedThenFailed?
      {
        assert init[..i] == actions[..i];
        assert IsRecordOf(actions[i], n);
      }
      var t1 := Run(t, init);
      if IsRecordOf(a, n) && Keeps(OutcomeAt(t, actions, k)) {
        assert past + KeptOf(t, actions, n) == kept + [a.rec];
        DistinctPrefix(kept, a.rec);
        GpLogOfRun(t, past, init, n);
        OwnRecordExtendsHistory(t1, a.rec, a.oracle, kept);
      } else {
        assert KeptOf(t, actions, n) == KeptOf(t, init, n);
        GpLogOfRun(t, past, init, n);
        if IsRecordOf(a, n) {
          UnkeptChangesNothing(t1, a.rec, a.oracle);
        } else {
          StepKeepsOthersHistory(t1, a, n);
        }
      }
    }
  }

  /** The same records with the tie-breaks and faults they met. */
  function ArrivalsOf(t: Tables, actions: seq<Action>, n: int): seq<Arrival> {
    if actions == [] then []
    else
      var k := |actions| - 1;
      var a := actions[k];
      ArrivalsOf(t, actions[..k], n)
      + if IsRecordOf(a, n) && Keeps(OutcomeAt(t, actions, k)) then [Arrival(a.rec, a.oracle.ties, a.oracle.fault)] else []
  }

  lemma {:induction false} ArrivalsAreKept(t: Tables, actions: seq<Action>, n: int)
    ensures Arrived(ArrivalsOf(t, actions, n)) == KeptOf(t, actions, n)
  {
    hide OutcomeAt, Keeps;
    if actions != [] {
      ArrivalsAreKept(t, actions[..|actions| - 1], n);
    }
  }

  /**
   * Without any hypothesis on faults, epochs or ties: the stored rows are the
   * arrivals, and the GP events are each arrival's diff against the row its
   * query preferred among the newest, cut where a write failed.
   */
  lemma {:induction false} GpLogOfEveryRun(t: Tables, past: seq<Arrival>, actions: seq<Action>, n: int)
    requires ArrivalHistoryIs(t, n, past)
    ensures ArrivalHistoryIs(Run(t, actions), n, past + ArrivalsOf(t, actions, n))
  {
    hide ProcessRecord, ArrivalHistoryIs;
    if actions == [] {
      assert past + [] == past;
    } else {
      var k := |actions| - 1;
      var init, a := actions[..k], actions[k];
      var t1 := Run(t, init);
      GpLogOfEveryRun(t, past, init, n);
      if IsRecordOf(a, n) && Keeps(OutcomeAt(t, actions, k)) {
        var one := [Arrival(a.rec, a.oracle.ties, a.oracle.fault)];
        assert past + ArrivalsOf(t, actions, n) == past + ArrivalsOf(t, init, n) + one;
        OwnArrivalExtendsHistory(t1, a.rec, a.oracle, past + ArrivalsOf(t, init, n));
      } else {
        assert ArrivalsOf(t, actions, n) == ArrivalsOf(t, init, n);
        OtherStepKeepsHistory(t1, a, past + ArrivalsOf(t, init, n), n);
      }
    }
  }

  lemma OtherStepKeepsHistory(t: Tables, a: Action, arrivals: seq<Arrival>, n: int)
    requires ArrivalHistoryIs(t, n, arrivals)
    requires IsRecordOf(a, n) ==> !Keeps(ProcessRecord(t, a.rec, a.oracle).1)
    ensures ArrivalHistoryIs(Step(t, a), n, arrivals)
  {
    hide ProcessRecord, ArrivalLog, Step, SnapshotsOf, GpEventsOf;
    if IsRecordOf(a, n) {
      UnkeptStep(t, a);
    } else {
      StepKeepsOthersHistory(t, a, n);
    }
  }

  lemma UnkeptStep(t: Tables, a: Action)
    requires a.GpRecord? && !Keeps(ProcessRecord(t, a.rec, a.oracle).1)
    ensures Step(t, a) == t
  {
    hide ProcessRecord;
    UnkeptChangesNothing(t, a.rec, a.oracle);
  }

  /**
   * The same field by field: row `k`'s events follow those of the rows before
   * it, and are its raw record's diff against a newest earlier row, in order,
   * under the object's id and the two rows' ids, up to a write that failed.
   */
  lemma RunWritesItsDiffs(t: Tables, actions: seq<Action>, n: int, k: nat)
    requires ArrivalHistoryIs(t, n, []) && k < |SnapshotsOf(Run(t, actions).snapshots, n)|
    ensures var (rows, arrivals) := (SnapshotsOf(Run(t, actions).snapshots, n), ArrivalsOf(t, actions, n));
            && |rows| == |arrivals| && rows[k].snap == Stored(arrivals[k].rec)
            && var (log, lo, hi) := (GpEventsOf(Run(t, actions).events, n), LogStart(n, rows, arrivals, k),
                                     LogStart(n, rows, arrivals, k + 1));
               && lo <= hi <= |log| && (k == 0 ==> lo == 0 == hi) && (k + 1 == |rows| ==> hi == |log|)
               && (k > 0 ==> exists p :: 0 <= p < k && IsNewest(rows[..k], n, rows[p])
                                         && WritesDiff(log[lo..hi], rows[p], arrivals[k].rec, rows[k].id, arrivals[k].fault))
  {
    hide Run, ArrivalsOf, SnapshotsOf, GpEventsOf, ArrivalLog, Stored, WritesDiff, IsNewest, LogStart;
    GpLogOfEveryRun(t, [], actions, n);
    var rows, arrivals := SnapshotsOf(Run(t, actions).snapshots, n), ArrivalsOf(t, actions, n);
    assert [] + arrivals == arrivals;
    OwnRowsAreOwn(Run(t, actions).snapshots, n);
    LogIsDiffs(n, rows, arrivals, k);
  }

  /**
   * The rules promise their caller nothing about late records: over any run,
   * every comparison for an object has the earlier epoch first exactly when
   * its stored records arrived in epoch order.
   */
  lemma RunComparesForwardIff(t: Tables, actions: seq<Action>, n: int)
    requires ArrivalHistoryIs(t, n, [])
    ensures var (rows, arrivals) := (SnapshotsOf(Run(t, actions).snapshots, n), ArrivalsOf(t, actions, n));
            && |rows| == |arrivals| && GpEventsOf(Run(t, actions).events, n) == ArrivalLog(n, rows, arrivals)
            && (ComparedForward(n, rows, arrivals) <==> IncreasingEpochs(KeptOf(t, actions, n)))
  {
    hide Run, ArrivalsOf, KeptOf, SnapshotsOf, GpEventsOf, ArrivalLog, ComparedForward, Arrived, IncreasingEpochs;
    GpLogOfEveryRun(t, [], actions, n);
    ArrivalsAreKept(t, actions, n);
    assert [] + ArrivalsOf(t, actions, n) == ArrivalsOf(t, actions, n);
    OwnRowsAreOwn(Run(t, actions).snapshots, n);
    ComparedForwardIff(n, SnapshotsOf(Run(t, actions).snapshots, n), ArrivalsOf(t, actions, n));
  }

  const CALM := Oracle(NoFault, 0, FIRST_WINS)

  /**
   * A late record: an object is imported, one record is stored, then one of an
   * earlier epoch. The event it fires has the later epoch as the previous one.
   */
  lemma LateRecordComparedBackwards(obj: ObjectRecord, first: Snapshot, late: Snapshot)
    requires first.noradCatId == late.noradCatId == obj.noradCatId && first.gpId != late.gpId
    requires late.epoch < first.epoch
    requires Abs(late.inclination - Stored(first).inclination) > INCLINATION_THRESHOLD
    ensures var t := Run(EMPTY_TABLES, [SatcatBatch([obj], true), GpRecord(first, CALM), GpRecord(late, CALM)]);
            exists e :: e in t.events && e.noradCatId == obj.noradCatId && e.event.ManeuverDetected?
                        && e.event.prevEpoch == first.epoch && e.event.currEpoch == late.epoch
                        && e.event.currEpoch < e.event.prevEpoch
  {
    hide ProcessRecord, FireAll, Stored, WithSnapshot, NewRow;
    var t1 := UpsertAll(EMPTY_TABLES, [obj]);
    UpsertSingle(EMPTY_TABLES, obj);
    assert t1.objects.Keys == {obj.noradCatId} && t1.snapshots == [] && t1.events == [];
    FirstRecordStored(t1, first);
    ThreeActions(EMPTY_TABLES, SatcatBatch([obj], true), GpRecord(first, CALM), GpRecord(late, CALM));
    var t2 := WithSnapshot(t1, first, CALM);
    LateRecordFires(t2, NewRow(t1, first, CALM), late);
  }

  lemma ThreeActions(t: Tables, a: Action, b: Action, c: Action)
    ensures Run(t, [a, b, c]) == Step(Step(Step(t, a), b), c)
  {
    hide Step;
    assert [a, b, c][..2] == [a, b] && [a, b][..1] == [a] && [a][..0] == [];
    assert Run(t, [a]) == Step(t, a);
    assert Run(t, [a, b]) == Step(Step(t, a), b);
  }

  lemma FirstRecordStored(t: Tables, rec: Snapshot)
    requires rec.noradCatId in t.objects && t.snapshots == []
    ensures var t' := WithSnapshot(t, rec, CALM);
            && ProcessRecord(t, rec, CALM).0 == t' && t'.snapshots == [NewRow(t, rec, CALM)]
            && t'.objects == t.objects && t'.events == t.events && NewRow(t, rec, CALM).snap == Stored(rec)
  {
    hide Stored;
  }

  lemma LateRecordFires(t: Tables, prev: SnapshotRow, late: Snapshot)
    requires t.snapshots == [prev] && t.events == [] && late.noradCatId in t.objects
    requires prev.snap.noradCatId == late.noradCatId && prev.snap.gpId != late.gpId
    requires Abs(late.inclination - prev.snap.inclination) > INCLINATION_THRESHOLD
    ensures exists e :: e in ProcessRecord(t, late, CALM).0.events && e.noradCatId == late.noradCatId
                        && e.event.ManeuverDetected?
                        && e.event.prevEpoch == prev.snap.epoch && e.event.currEpoch == late.epoch
  {
    hide Stored, FireAll;
    assert t.snapshots[..0] == [];
    assert Latest(t.snapshots, late.noradCatId, FIRST_WINS) == Some(prev);
    assert Insertable(t, late, NoFault);
    var t' := ProcessRecord(t, late, CALM).0;
    assert t'.events == WrittenEvents(prev, late, NewRow(t, late, CALM).id, NoFault);
    GpEventsUnfold(prev.snap, late);
    assert GpEvents(prev.snap, late)[0] == ManeuverDetectedRule(prev.snap, late).value;
    assert t'.events[0] in t'.events;
  }

  lemma {:induction false} OwnRowsAreOwn(rows: seq<SnapshotRow>, n: int)
    ensures forall i :: 0 <= i < |SnapshotsOf(rows, n)| ==> SnapshotsOf(rows, n)[i].snap.noradCatId == n
  {
    if rows != [] {
      OwnRowsAreOwn(rows[..|rows| - 1], n);
    }
  }

  /** All GP records of object `n`, stored or not. */
  function StreamOf(actions: seq<Action>, n: int): seq<Snapshot> {
    if actions == [] then []
    else
      var k := |actions| - 1;
      StreamOf(actions[..k], n) + if IsRecordOf(actions[k], n) then [actions[k].rec] else []
  }

  /** The record has the gp_id of the one kept last. */
  predicate Repeats(kept: seq<Snapshot>, rec: Snapshot) {
    kept != [] && kept[|kept| - 1].gpId == rec.gpId
  }

  /** A stream without records that repeat the gp_id of the one kept before them. */
  function Deduped(stream: seq<Snapshot>): seq<Snapshot> {
    if stream == [] then []
    else
      var before, rec := Deduped(stream[..|stream| - 1]), stream[|stream| - 1];
      if Repeats(before, rec) then before else before + [rec]
  }

  /** Every write for object `n` succeeded. */
  ghost predicate AllWritten(t: Tables, actions: seq<Action>, n: int) {
    forall k :: 0 <= k < |actions| && IsRecordOf(actions[k], n) ==>
      OutcomeAt(t, actions, k).Inserted? || OutcomeAt(t, actions, k).Unchanged?
  }

  lemma WrittenWasRead(t: Tables, rec: Snapshot, o: Oracle)
    requires var outcome := ProcessRecord(t, rec, o).1; outcome.Inserted? || outcome.Unchanged?
    ensures !o.fault.ReadFails?
  {
  }

  /** In epoch order, whether a record is dropped depends only on the record stored before it. */
  lemma DedupDecision(t: Tables, rec: Snapshot, o: Oracle, kept: seq<Snapshot>)
    requires HistoryIs(t, rec.noradCatId, kept) && IncreasingEpochs(kept)
    requires !o.fault.ReadFails?
    ensures ProcessRecord(t, rec, o).1.Unchanged? <==> Repeats(kept, rec)
  {
    hide Stored;
    var n := rec.noradCatId;
    var rows := SnapshotsOf(t.snapshots, n);
    LatestOfOwnRows(t.snapshots, n, o.ties);
    OwnRowsAreOwn(t.snapshots, n);
    TiesIrrelevant(rows, kept, n, o.ties);
    if kept != [] {
      NewestIsLast(rows, kept, n);
    }
  }

  lemma IncreasingPrefix(kept: seq<Snapshot>, rec: Snapshot)
    requires IncreasingEpochs(kept + [rec])
    ensures IncreasingEpochs(kept)
  {
    forall i, j | 0 <= i < j < |kept|
      ensures kept[i].epoch < kept[j].epoch
    {
      assert (kept + [rec])[i] == kept[i] && (kept + [rec])[j] == kept[j];
    }
  }

  /**
   * With no failed write and records arriving in epoch order, what is stored
   * for an object is its record stream deduplicated on gp_id.
   */
  lemma {:induction false} StoredStreamIsDeduped(t: Tables, actions: seq<Action>, n: int)
    requires HistoryIs(t, n, [])
    requires AllWritten(t, actions, n) && IncreasingEpochs(Deduped(StreamOf(actions, n)))
    ensures KeptOf(t, actions, n) == Deduped(StreamOf(actions, n))
  {
    hide ProcessRecord, Latest, HistoryIs, Run;
    if actions != [] {
      var k := |actions| - 1;
      var init, a := actions[..k], actions[k];
      AllWrittenPrefix(t, actions, n);
      if IsRecordOf(a, n) {
        var before := Deduped(StreamOf(init, n));
        DedupedOneMore(StreamOf(init, n), a.rec);
        if !Repeats(before, a.rec) {
          IncreasingPrefix(before, a.rec);
        }
        StoredStreamIsDeduped(t, init, n);
        WrittenWasRead(Run(t, init), a.rec, a.oracle);
        OwnRecordDedup(t, init, a, before, n);
        assert OutcomeAt(t, actions, k) == ProcessRecord(Run(t, init), a.rec, a.oracle).1;
      } else {
        assert StreamOf(actions, n) == StreamOf(init, n);
        StoredStreamIsDeduped(t, init, n);
      }
    }
  }

  lemma OwnRecordDedup(t: Tables, init: seq<Action>, a: Action, before: seq<Snapshot>, n: int)
    requires HistoryIs(t, n, []) && EventsWritten(t, init, n) && IsRecordOf(a, n)
    requires KeptOf(t, init, n) == before && IncreasingEpochs(before)
    requires !a.oracle.fault.ReadFails?
    ensures ProcessRecord(Run(t, init), a.rec, a.oracle).1.Unchanged?
            <==> Repeats(before, a.rec)
  {
    hide ProcessRecord, HistoryIs, Run, KeptOf;
    assert [] + before == before;
    GpLogOfRun(t, [], init, n);
    DedupDecision(Run(t, init), a.rec, a.oracle, before);
  }

  lemma DedupedOneMore(stream: seq<Snapshot>, rec: Snapshot)
    ensures var before := Deduped(stream);
            Deduped(stream + [rec])
            == if Repeats(before, rec) then before else before + [rec]
  {
    assert (stream + [rec])[..|stream|] == stream;
  }

  lemma AllWrittenPrefix(t: Tables, actions: seq<Action>, n: int)
    requires AllWritten(t, actions, n) && actions != []
    ensures AllWritten(t, actions[..|actions| - 1], n)
    ensures EventsWritten(t, actions[..|actions| - 1], n)
    ensures IsRecordOf(actions[|actions| - 1], n) ==>
              var outcome := OutcomeAt(t, actions, |actions| - 1); outcome.Inserted? || outcome.Unchanged?
  {
    hide Run, ProcessRecord;
    var init := actions[..|actions| - 1];
    forall i | 0 <= i < |init| && IsRecordOf(init[i], n)
      ensures OutcomeAt(t, init, i).Inserted? || OutcomeAt(t, init, i).Unchanged?
    {
      assert init[..i] == actions[..i];
      assert IsRecordOf(actions[i], n);
    }
  }

  /**
   * The refinement: with no failed write for `n` and epochs in order, its
   * stored snapshots are the deduplicated stream and its GP events are the
   * rules evaluated on adjacent pairs of it, naming those pairs.
   */
  lemma GpLogIsAdjacentPairs(t: Tables, actions: seq<Action>, n: int)
    requires HistoryIs(t, n, [])
    requires AllWritten(t, actions, n) && IncreasingEpochs(Deduped(StreamOf(actions, n)))
    ensures var (rows, history) := (SnapshotsOf(Run(t, actions).snapshots, n), Deduped(StreamOf(actions, n)));
            StoresOf(rows, history) && GpEventsOf(Run(t, actions).events, n) == AdjacentLog(n, rows, history)
  {
    StoredStreamIsDeduped(t, actions, n);
    assert [] + KeptOf(t, actions, n) == KeptOf(t, actions, n);
    GpLogOfRun(t, [], actions, n);
    var rows := SnapshotsOf(Run(t, actions).snapshots, n);
    OwnRowsAreOwn(Run(t, actions).snapshots, n);
    InOrderLogIsAdjacent(n, rows, Deduped(StreamOf(actions, n)));
  }

  // ----- the hypothesis on the input -----

  /** Where snapshot rows come from. */
  predicate Accounted(t: Tables, actions: seq<Action>, row: SnapshotRow) {
    row in t.snapshots || exists k :: 0 <= k < |actions| && actions[k].GpRecord? && row.snap == Stored(actions[k].rec)
  }

  lemma StepRows(t: Tables, a: Action, row: SnapshotRow)
    requires row in Step(t, a).snapshots
    ensures row in t.snapshots || (a.GpRecord? && row.snap == Stored(a.rec))
  {
    hide Latest, GpEvents, Stored, UpsertAll;
    if a.SatcatBatch? {
      SatcatKeepsGpHistory(t, a.recs, 0);
    }
  }

  lemma {:induction false} RowsAreAccounted(t: Tables, actions: seq<Action>, row: SnapshotRow)
    requires row in Run(t, actions).snapshots
    ensures Accounted(t, actions, row)
  {
    hide Step, Stored;
    if actions != [] {
      var k := |actions| - 1;
      var init := actions[..k];
      StepRows(Run(t, init), actions[k], row);
      if row in Run(t, init).snapshots {
        RowsAreAccounted(t, init, row);
        if j :| 0 <= j < k && init[j].GpRecord? && row.snap == Stored(init[j].rec) {
          assert actions[j] == init[j];
        }
      }
    }
  }

  ghost predicate DistinctGpIds(stream: seq<Snapshot>) {
    forall i, j :: 0 <= i < j < |stream| ==> stream[i].gpId != stream[j].gpId
  }

  predicate OtherRecord(a: Action, n: int) {
    a.GpRecord? && a.rec.noradCatId != n
  }

  /**
   * A stream the database can store: its object is known, no write for it
   * fails, and its element sets carry gp_ids nothing else has.
   */
  ghost predicate CleanInput(t: Tables, actions: seq<Action>, n: int) {
    && n in t.objects
    && (forall k :: 0 <= k < |actions| && IsRecordOf(actions[k], n) ==> actions[k].oracle.fault == NoFault)
    && DistinctGpIds(Deduped(StreamOf(actions, n)))
    && (forall row, rec :: row in t.snapshots && rec in StreamOf(actions, n) ==> row.snap.gpId != rec.gpId)
    && (forall a, rec :: a in actions && OtherRecord(a, n) && rec in StreamOf(actions, n) ==> a.rec.gpId != rec.gpId)
  }

  lemma DistinctGpIdsPrefix(kept: seq<Snapshot>, rec: Snapshot)
    requires DistinctGpIds(kept + [rec])
    ensures DistinctGpIds(kept)
    ensures forall i :: 0 <= i < |kept| ==> kept[i].gpId != rec.gpId
  {
    forall i, j | 0 <= i < j <= |kept|
      ensures (kept + [rec])[i].gpId != (kept + [rec])[j].gpId
    {
    }
    assert forall i :: 0 <= i < |kept| ==> (kept + [rec])[i] == kept[i];
    assert (kept + [rec])[|kept|] == rec;
  }

  /** Clean input stays clean without its last action, and in epoch order if it was. */
  lemma CleanPrefix(t: Tables, actions: seq<Action>, n: int)
    requires CleanInput(t, actions, n) && actions != []
    ensures var init := actions[..|actions| - 1];
            && CleanInput(t, init, n)
            && (IncreasingEpochs(Deduped(StreamOf(actions, n))) ==> IncreasingEpochs(Deduped(StreamOf(init, n))))
  {
    hide Deduped, DistinctGpIds, IncreasingEpochs;
    var init, a := actions[..|actions| - 1], actions[|actions| - 1];
    assert forall k :: 0 <= k < |init| ==> init[k] == actions[k];
    assert forall x :: x in init ==> x in actions;
    if IsRecordOf(a, n) {
      var before := Deduped(StreamOf(init, n));
      DedupedOneMore(StreamOf(init, n), a.rec);
      if Deduped(StreamOf(actions, n)) != before {
        DistinctGpIdsPrefix(before, a.rec);
        if IncreasingEpochs(before + [a.rec]) {
          IncreasingPrefix(before, a.rec);
        }
      }
    } else {
      assert StreamOf(actions, n) == StreamOf(init, n);
    }
  }

  /** The gp_id of a record that is not dropped is free. */
  lemma FreshGpId(t: Tables, init: seq<Action>, a: Action, n: int, rows: seq<SnapshotRow>, kept: seq<Snapshot>)
    requires CleanInput(t, init + [a], n) && IsRecordOf(a, n)
    requires rows == SnapshotsOf(Run(t, init).snapshots, n) && StoresOf(rows, kept)
    requires forall i :: 0 <= i < |kept| ==> kept[i].gpId != a.rec.gpId
    ensures !GpIdTaken(Run(t, init).snapshots, a.rec.gpId)
  {
    hide Stored, Run, Deduped, DistinctGpIds, SnapshotsOf;
    var all := init + [a];
    assert all[..|init|] == init && all[|init|] == a;
    assert a.rec in StreamOf(all, n);
    var snapshots := Run(t, init).snapshots;
    forall i | 0 <= i < |snapshots|
      ensures snapshots[i].snap.gpId != a.rec.gpId
    {
      var row := snapshots[i];
      assert row in snapshots;
      if row.snap.noradCatId == n {
        OwnRowListed(snapshots, row, n);
        var j :| 0 <= j < |rows| && rows[j] == row;
        assert rows[j].snap == Stored(kept[j]);
      } else {
        RowsAreAccounted(t, init, row);
        if row !in t.snapshots {
          var k :| 0 <= k < |init| && init[k].GpRecord? && row.snap == Stored(init[k].rec);
          assert all[k] == init[k] && all[k] in all;
          assert OtherRecord(all[k], n);
        }
      }
    }
  }

  lemma {:induction false} OwnRowListed(rows: seq<SnapshotRow>, row: SnapshotRow, n: int)
    requires row in rows && row.snap.noradCatId == n
    ensures row in SnapshotsOf(rows, n)
  {
    if rows[|rows| - 1] != row {
      assert row in rows[..|rows| - 1];
      OwnRowListed(rows[..|rows| - 1], row, n);
    }
  }

  /** Clean input in epoch order is written completely. */
  lemma {:induction false} CleanInputIsWritten(t: Tables, actions: seq<Action>, n: int)
    requires HistoryIs(t, n, [])
    requires CleanInput(t, actions, n) && IncreasingEpochs(Deduped(StreamOf(actions, n)))
    ensures AllWritten(t, actions, n)
  {
    hide HistoryIs, ProcessRecord, Run, CleanInput, Deduped, StreamOf, IncreasingEpochs;
    if actions != [] {
      var k := |actions| - 1;
      var init, a := actions[..k], actions[k];
      CleanPrefix(t, actions, n);
      CleanInputIsWritten(t, init, n);
      if IsRecordOf(a, n) {
        assert init + [a] == actions;
        StoredStreamIsDeduped(t, init, n);
        NextCleanRecord(t, init, a, Deduped(StreamOf(init, n)), n);
      }
      forall i | 0 <= i < |actions| && IsRecordOf(actions[i], n)
        ensures OutcomeAt(t, actions, i).Inserted? || OutcomeAt(t, actions, i).Unchanged?
      {
        if i < k {
          assert init[..i] == actions[..i] && init[i] == actions[i];
          assert IsRecordOf(init[i], n);
        }
      }
    }
  }

  /** If so far the deduplicated stream was stored, in epoch order, the next record is dropped or stored alike. */
  lemma NextCleanRecord(t: Tables, init: seq<Action>, a: Action, before: seq<Snapshot>, n: int)
    requires IsRecordOf(a, n) && HistoryIs(t, n, []) && CleanInput(t, init + [a], n)
    requires before == KeptOf(t, init, n) == Deduped(StreamOf(init, n)) && IncreasingEpochs(before)
    ensures var outcome := ProcessRecord(Run(t, init), a.rec, a.oracle).1;
            (outcome.Inserted? || outcome.Unchanged?) && (outcome.Unchanged? <==> Repeats(before, a.rec))
  {
    assert a.GpRecord?;
    hide *;
    NextCleanInput(t, init, a, n);
    KnownStaysKnown(t, init, n);
    OwnRecordDedup(t, init, a, before, n);
    if !Repeats(before, a.rec) {
      DistinctGpIdsPrefix(before, a.rec);
      LastRecordIsNew(t, init, a, before, n);
    }
  }

  /** What clean input says about its last record, and that no event write fails before it. */
  lemma NextCleanInput(t: Tables, init: seq<Action>, a: Action, n: int)
    requires IsRecordOf(a, n) && CleanInput(t, init + [a], n)
    ensures a.oracle.fault == NoFault && n in t.objects && EventsWritten(t, init, n)
    ensures var before := Deduped(StreamOf(init, n)); Repeats(before, a.rec) || DistinctGpIds(before + [a.rec])
  {
    hide Deduped, DistinctGpIds, ProcessRecord, Run, Repeats;
    var all := init + [a];
    assert all[..|init|] == init && all[|init|] == a;
    DedupedOneMore(StreamOf(init, n), a.rec);
    forall k | 0 <= k < |init| && IsRecordOf(init[k], n)
      ensures !OutcomeAt(t, init, k).InsertedThenFailed?
    {
      assert all[k] == init[k] && all[k].oracle.fault == NoFault;
      FaultlessOutcome(Run(t, init[..k]), init[k].rec, init[k].oracle);
    }
  }

  lemma FaultlessOutcome(t: Tables, rec: Snapshot, o: Oracle)
    requires !o.fault.EventFails?
    ensures !ProcessRecord(t, rec, o).1.InsertedThenFailed?
  {
  }

  lemma LastRecordIsNew(t: Tables, init: seq<Action>, a: Action, before: seq<Snapshot>, n: int)
    requires IsRecordOf(a, n) && a.oracle.fault == NoFault && n in Run(t, init).objects
    requires HistoryIs(t, n, []) && EventsWritten(t, init, n) && CleanInput(t, init + [a], n)
    requires KeptOf(t, init, n) == before && IncreasingEpochs(before)
    requires forall i :: 0 <= i < |before| ==> before[i].gpId != a.rec.gpId
    ensures var outcome := ProcessRecord(Run(t, init), a.rec, a.oracle).1; outcome.Inserted? || outcome.Unchanged?
  {
    hide ProcessRecord, Run, CleanInput, KeptOf, StoresOf, EventsWritten, SnapshotsOf, DiffLog, GpEventsOf;
    assert [] + before == before;
    GpLogOfRun(t, [], init, n);
    FreshGpId(t, init, a, n, SnapshotsOf(Run(t, init).snapshots, n), before);
    FaultlessRecord(Run(t, init), a.rec, a.oracle);
  }

  lemma FaultlessRecord(t: Tables, rec: Snapshot, o: Oracle)
    requires o.fault == NoFault && rec.noradCatId in t.objects && !GpIdTaken(t.snapshots, rec.gpId)
    ensures var outcome := ProcessRecord(t, rec, o).1; outcome.Inserted? || outcome.Unchanged?
  {
  }

  lemma KnownStaysKnown(t: Tables, actions: seq<Action>, n: int)
    requires n in t.objects
    ensures n in Run(t, actions).objects
  {
    FactsFixedAndHitsCounted(t, actions, n);
  }

  /**
   * The refinement with hypotheses on the input alone: a known object whose
   * element sets arrive without faults, in epoch order and under gp_ids of
   * their own.
   */
  lemma GpLogOfCleanInput(t: Tables, actions: seq<Action>, n: int)
    requires HistoryIs(t, n, [])
    requires CleanInput(t, actions, n) && IncreasingEpochs(Deduped(StreamOf(actions, n)))
    ensures var (rows, history) := (SnapshotsOf(Run(t, actions).snapshots, n), Deduped(StreamOf(actions, n)));
            StoresOf(rows, history) && GpEventsOf(Run(t, actions).events, n) == AdjacentLog(n, rows, history)
  {
    hide *;
    CleanInputIsWritten(t, actions, n);
    GpLogIsAdjacentPairs(t, actions, n);
  }

  /** Clean input that got stored in epoch order got stored as its deduplicated stream. */
  lemma {:induction false} OrderedStoreIsDeduped(t: Tables, actions: seq<Action>, n: int)
    requires HistoryIs(t, n, []) && CleanInput(t, actions, n)
    requires IncreasingEpochs(KeptOf(t, actions, n))
    ensures KeptOf(t, actions, n) == Deduped(StreamOf(actions, n))
  {
    hide HistoryIs, CleanInput, IncreasingEpochs, KeptOf, Deduped, StreamOf, ProcessRecord, Run, IsRecordOf;
    if actions == [] {
      NothingKept(t, n);
    } else {
      var init, a := actions[..|actions| - 1], actions[|actions| - 1];
      assert init + [a] == actions;
      KeptPrefix(t, actions, n);
      CleanPrefix(t, actions, n);
      OrderedStoreIsDeduped(t, init, n);
      OneMoreKept(t, init, a, n);
    }
  }

  lemma KeptPrefix(t: Tables, actions: seq<Action>, n: int)
    requires actions != [] && IncreasingEpochs(KeptOf(t, actions, n))
    ensures IncreasingEpochs(KeptOf(t, actions[..|actions| - 1], n))
  {
    hide OutcomeAt;
    var init := actions[..|actions| - 1];
    if KeptOf(t, actions, n) != KeptOf(t, init, n) {
      IncreasingPrefix(KeptOf(t, init, n), actions[|actions| - 1].rec);
    }
  }

  lemma NothingKept(t: Tables, n: int)
    ensures KeptOf(t, [], n) == [] == Deduped(StreamOf([], n))
  {
  }

  /** The next action adds to the stored records what it adds to the deduplicated stream. */
  lemma OneMoreKept(t: Tables, init: seq<Action>, a: Action, n: int)
    requires HistoryIs(t, n, []) && CleanInput(t, init + [a], n)
    requires KeptOf(t, init, n) == Deduped(StreamOf(init, n)) && IncreasingEpochs(KeptOf(t, init, n))
    ensures KeptOf(t, init + [a], n) == Deduped(StreamOf(init + [a], n))
  {
    var before := KeptOf(t, init, n);
    assert IsRecordOf(a, n) ==> a.GpRecord?;
    hide *;
    StreamOneMore(init, a, n);
    if IsRecordOf(a, n) {
      NextCleanRecord(t, init, a, before, n);
      KeptOneMore(t, init, a, n);
      DedupedOneMore(StreamOf(init, n), a.rec);
    } else {
      KeptOther(t, init, a, n);
    }
  }

  lemma StreamOneMore(init: seq<Action>, a: Action, n: int)
    ensures IsRecordOf(a, n) ==> StreamOf(init + [a], n) == StreamOf(init, n) + [a.rec]
    ensures !IsRecordOf(a, n) ==> StreamOf(init + [a], n) == StreamOf(init, n)
  {
    assert (init + [a])[..|init|] == init;
  }

  lemma KeptOther(t: Tables, init: seq<Action>, a: Action, n: int)
    requires !IsRecordOf(a, n)
    ensures KeptOf(t, init + [a], n) == KeptOf(t, init, n)
  {
    hide OutcomeAt;
    assert (init + [a])[..|init|] == init;
  }

  lemma KeptOneMore(t: Tables, init: seq<Action>, a: Action, n: int)
    requires IsRecordOf(a, n)
    ensures var outcome := ProcessRecord(Run(t, init), a.rec, a.oracle).1;
            && (outcome.Inserted? ==> KeptOf(t, init + [a], n) == KeptOf(t, init, n) + [a.rec])
            && (outcome.Unchanged? ==> KeptOf(t, init + [a], n) == KeptOf(t, init, n))
  {
    hide ProcessRecord, Run;
    assert (init + [a])[..|init|] == init && (init + [a])[|init|] == a;
  }

  /**
   * When the rules' promise to their caller holds, on the input: for clean
   * input every comparison has the earlier epoch first exactly when the record
   * stream, deduplicated, is in epoch order.
   */
  lemma InputComparesForwardIff(t: Tables, actions: seq<Action>, n: int)
    requires HistoryIs(t, n, []) && CleanInput(t, actions, n)
    ensures var (rows, arrivals) := (SnapshotsOf(Run(t, actions).snapshots, n), ArrivalsOf(t, actions, n));
            && |rows| == |arrivals| && GpEventsOf(Run(t, actions).events, n) == ArrivalLog(n, rows, arrivals)
            && (ComparedForward(n, rows, arrivals) <==> IncreasingEpochs(Deduped(StreamOf(actions, n))))
  {
    NoHistoryEither(t, n);
    hide *;
    RunComparesForwardIff(t, actions, n);
    if IncreasingEpochs(Deduped(StreamOf(actions, n))) {
      CleanInputIsWritten(t, actions, n);
      StoredStreamIsDeduped(t, actions, n);
    }
    if IncreasingEpochs(KeptOf(t, actions, n)) {
      OrderedStoreIsDeduped(t, actions, n);
    }
  }

  lemma NoHistoryEither(t: Tables, n: int)
    ensures HistoryIs(t, n, []) <==> ArrivalHistoryIs(t, n, [])
  {
  }
}
