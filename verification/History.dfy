/**
 * What `GpPoller::process_response` does to the tables, record by record, and
 * the shape of the resulting snapshot and event history.
 */
module History {
  import opened Prelude
  import opened Rules
  import opened Tables

  /** Where the database layer throws while one record is handled. */
  datatype Fault = NoFault | ReadFails | InsertFails | EventFails(at: nat)

  /**
   * Everything the code does not decide itself: a fault, the id the sequence
   * hands out (failed inserts burn ids), and how the query breaks epoch ties.
   */
  datatype Oracle = Oracle(fault: Fault, idGap: nat, ties: TieBreak)

  datatype Outcome = Unchanged | Inserted | Failed | InsertedThenFailed

  predicate Blocks(fault: Fault) {
    fault.ReadFails? || fault.InsertFails?
  }

  /** The events of one diff as rows of the event table. */
  function Tagged(events: seq<DetectedEvent>, n: int, prevId: int, newId: int): (rows: seq<EventRow>)
    ensures |rows| == |events|
  {
    seq(|events|, i requires 0 <= i < |events| => EventRow(n, events[i], Some(prevId), Some(newId)))
  }

  /** The insert is refused when the object is unknown (foreign key) or the gp_id is taken (UNIQUE). */
  predicate Insertable(t: Tables, rec: Snapshot, fault: Fault) {
    !fault.InsertFails? && rec.noradCatId in t.objects && !GpIdTaken(t.snapshots, rec.gpId)
  }

  function NewRow(t: Tables, rec: Snapshot, o: Oracle): SnapshotRow {
    SnapshotRow(t.nextSnapshotId + o.idGap, Stored(rec))
  }

  function WithSnapshot(t: Tables, rec: Snapshot, o: Oracle): Tables {
    var row := NewRow(t, rec, o);
    t.(snapshots := t.snapshots + [row], nextSnapshotId := row.id + 1)
  }

  /** Event rows that get written; each is its own transaction, so those before a fault stay. */
  function WrittenEvents(prev: SnapshotRow, rec: Snapshot, newId: int, fault: Fault): seq<EventRow> {
    var rows := Tagged(GpEvents(prev.snap, rec), rec.noradCatId, prev.id, newId);
    if fault.EventFails? then Limit(rows, fault.at) else rows
  }

  predicate EventWriteFails(prev: Option<SnapshotRow>, rec: Snapshot, fault: Fault) {
    prev.Some? && fault.EventFails? && fault.at < |GpEvents(prev.value.snap, rec)|
  }

  /** The body of the record loop. */
  function ProcessRecord(t: Tables, rec: Snapshot, o: Oracle): (Tables, Outcome) {
    if o.fault.ReadFails? then (t, Failed)
    else
      var prev := Latest(t.snapshots, rec.noradCatId, o.ties);
      if prev.Some? && prev.value.snap.gpId == rec.gpId then (t, Unchanged)
      else if !Insertable(t, rec, o.fault) then (t, Failed)
      else
        var t1 := WithSnapshot(t, rec, o);
        if prev.None? then (t1, Inserted)
        else
          (t1.(events := t1.events + WrittenEvents(prev.value, rec, NewRow(t, rec, o).id, o.fault)),
           if EventWriteFails(prev, rec, o.fault) then InsertedThenFailed else Inserted)
  }

  /** The whole loop over a response. */
  function ProcessAll(t: Tables, recs: seq<Snapshot>, os: seq<Oracle>): Tables
    requires |recs| == |os|
  {
    if recs == [] then t
    else
      var k := |recs| - 1;
      ProcessRecord(ProcessAll(t, recs[..k], os[..k]), recs[k], os[k]).0
  }

  function OutcomesOf(t: Tables, recs: seq<Snapshot>, os: seq<Oracle>): (outcomes: seq<Outcome>)
    requires |recs| == |os|
    ensures |outcomes| == |recs|
  {
    if recs == [] then []
    else
      var k := |recs| - 1;
      OutcomesOf(t, recs[..k], os[..k]) + [ProcessRecord(ProcessAll(t, recs[..k], os[..k]), recs[k], os[k]).1]
  }

  // ----- accounting -----

  datatype Tally = Tally(insertedCount: nat, unchangedCount: nat, errorCount: nat)

  function TallyOf(outcomes: seq<Outcome>): Tally {
    if outcomes == [] then Tally(0, 0, 0)
    else
      var before := TallyOf(outcomes[..|outcomes| - 1]);
      match outcomes[|outcomes| - 1]
      case Unchanged => before.(unchangedCount := before.unchangedCount + 1)
      case Inserted => before.(insertedCount := before.insertedCount + 1)
      case Failed => before.(errorCount := before.errorCount + 1)
      case InsertedThenFailed => before.(insertedCount := before.insertedCount + 1, errorCount := before.errorCount + 1)
  }

  function HalfDone(outcomes: seq<Outcome>): nat {
    if outcomes == [] then 0
    else
      HalfDone(outcomes[..|outcomes| - 1]) + if outcomes[|outcomes| - 1].InsertedThenFailed? then 1 else 0
  }

  /** The printed counters add up, counting twice only records that failed after their snapshot was stored. */
  lemma {:induction false} CountersAddUp(outcomes: seq<Outcome>)
    ensures var c := TallyOf(outcomes);
            c.insertedCount + c.unchangedCount + c.errorCount == |outcomes| + HalfDone(outcomes)
  {
    if outcomes != [] {
      CountersAddUp(outcomes[..|outcomes| - 1]);
    }
  }

  /** What each counter counts. */
  lemma {:induction false} CountersMean(outcomes: seq<Outcome>)
    ensures var (c, all) := (TallyOf(outcomes), multiset(outcomes));
            && c.insertedCount == all[Inserted] + all[InsertedThenFailed]
            && c.unchangedCount == all[Unchanged]
            && c.errorCount == all[Failed] + all[InsertedThenFailed]
  {
    if outcomes != [] {
      CountersMean(outcomes[..|outcomes| - 1]);
      assert outcomes == outcomes[..|outcomes| - 1] + [outcomes[|outcomes| - 1]];
    }
  }

  /** The "inserted" counter is the growth of the snapshot table, and earlier rows stay put. */
  lemma {:induction false} InsertedCountsRows(t: Tables, recs: seq<Snapshot>, os: seq<Oracle>)
    requires |recs| == |os|
    ensures var t' := ProcessAll(t, recs, os);
            && |t'.snapshots| == |t.snapshots| + TallyOf(OutcomesOf(t, recs, os)).insertedCount
            && t.snapshots <= t'.snapshots && t.events <= t'.events
            && t'.objects == t.objects && t'.pollers == t.pollers
  {
    if recs != [] {
      var k := |recs| - 1;
      InsertedCountsRows(t, recs[..k], os[..k]);
      var outcomes := OutcomesOf(t, recs, os);
      assert outcomes[..k] == OutcomesOf(t, recs[..k], os[..k]);
    }
  }

  // ----- reprocessing -----

  /** A record that can no longer change anything. */
  predicate Settled(t: Tables, rec: Snapshot, blocked: bool) {
    blocked || rec.noradCatId !in t.objects || GpIdTaken(t.snapshots, rec.gpId)
  }

  lemma SettledChangesNothing(t: Tables, rec: Snapshot, o: Oracle)
    requires Settled(t, rec, Blocks(o.fault))
    ensures ProcessRecord(t, rec, o).0 == t
  {
  }

  lemma ProcessingSettles(t: Tables, rec: Snapshot, o: Oracle)
    ensures Settled(ProcessRecord(t, rec, o).0, rec, Blocks(o.fault))
  {
    var t' := ProcessRecord(t, rec, o).0;
    LatestIsNewest(t.snapshots, rec.noradCatId, o.ties);
    var prev := Latest(t.snapshots, rec.noradCatId, o.ties);
    if prev.Some? && prev.value.snap.gpId == rec.gpId {
      assert GpIdTaken(t.snapshots, rec.gpId);
    } else if !Blocks(o.fault) && Insertable(t, rec, o.fault) {
      assert t'.snapshots[|t.snapshots|].snap.gpId == rec.gpId;
    }
  }

  lemma SettledStays(t: Tables, rec: Snapshot, blocked: bool, other: Snapshot, o: Oracle)
    requires Settled(t, rec, blocked)
    ensures Settled(ProcessRecord(t, other, o).0, rec, blocked)
  {
    var t' := ProcessRecord(t, other, o).0;
    if GpIdTaken(t.snapshots, rec.gpId) {
      var i :| 0 <= i < |t.snapshots| && t.snapshots[i].snap.gpId == rec.gpId;
      assert t'.snapshots[i] == t.snapshots[i];
    }
  }

  lemma {:induction false} AllSettled(t: Tables, recs: seq<Snapshot>, os: seq<Oracle>)
    requires |recs| == |os|
    ensures forall i :: 0 <= i < |recs| ==> Settled(ProcessAll(t, recs, os), recs[i], Blocks(os[i].fault))
  {
    if recs != [] {
      var k := |recs| - 1;
      var t1 := ProcessAll(t, recs[..k], os[..k]);
      AllSettled(t, recs[..k], os[..k]);
      ProcessingSettles(t1, recs[k], os[k]);
      forall i | 0 <= i < k
        ensures Settled(ProcessAll(t, recs, os), recs[i], Blocks(os[i].fault))
      {
        assert recs[..k][i] == recs[i] && os[..k][i] == os[i];
        SettledStays(t1, recs[i], Blocks(os[i].fault), recs[k], os[k]);
      }
    }
  }

  lemma {:induction false} SettledBodyChangesNothing(t: Tables, recs: seq<Snapshot>, os: seq<Oracle>)
    requires |recs| == |os|
    requires forall i :: 0 <= i < |recs| ==> Settled(t, recs[i], Blocks(os[i].fault))
    ensures ProcessAll(t, recs, os) == t
  {
    if recs != [] {
      var k := |recs| - 1;
      SettledBodyChangesNothing(t, recs[..k], os[..k]);
      SettledChangesNothing(t, recs[k], os[k]);
    }
  }

  /**
   * Processing the same body again changes no table, whatever its order,
   * repetitions, epochs or earlier event faults, and however ties are broken,
   * as long as a record whose read or insert failed the first time fails again.
   */
  lemma ReprocessingIsIdempotent(t: Tables, recs: seq<Snapshot>, first: seq<Oracle>, second: seq<Oracle>)
    requires |recs| == |first| == |second|
    requires forall i :: 0 <= i < |recs| ==> Blocks(first[i].fault) ==> Blocks(second[i].fault)
    ensures ProcessAll(ProcessAll(t, recs, first), recs, second) == ProcessAll(t, recs, first)
  {
    AllSettled(t, recs, first);
    SettledBodyChangesNothing(ProcessAll(t, recs, first), recs, second);
  }

  // ----- one object's history -----

  /** Object `n`'s snapshot rows, in insertion order. */
  function SnapshotsOf(rows: seq<SnapshotRow>, n: int): seq<SnapshotRow> {
    if rows == [] then []
    else
      var row := rows[|rows| - 1];
      SnapshotsOf(rows[..|rows| - 1], n) + if row.snap.noradCatId == n then [row] else []
  }

  /** Object `n`'s events that came from a snapshot diff. */
  function GpEventsOf(events: seq<EventRow>, n: int): seq<EventRow> {
    if events == [] then []
    else
      var e := events[|events| - 1];
      GpEventsOf(events[..|events| - 1], n) + if e.noradCatId == n && e.prevSnapshotId.Some? then [e] else []
  }

  lemma {:induction false} GpEventsOfAppend(a: seq<EventRow>, b: seq<EventRow>, n: int)
    ensures GpEventsOf(a + b, n) == GpEventsOf(a, n) + GpEventsOf(b, n)
  {
    if b == [] {
      assert a + b == a;
    } else {
      var k := |b| - 1;
      GpEventsOfAppend(a, b[..k], n);
      assert (a + b)[..|a + b| - 1] == a + b[..k];
    }
  }

  lemma {:induction false} GpEventsOfTagged(rows: seq<EventRow>, m: int, n: int)
    requires forall e :: e in rows ==> e.noradCatId == m && e.prevSnapshotId.Some?
    ensures GpEventsOf(rows, n) == if m == n then rows else []
  {
    if rows != [] {
      assert rows[|rows| - 1] in rows;
      GpEventsOfTagged(rows[..|rows| - 1], m, n);
      assert rows == rows[..|rows| - 1] + [rows[|rows| - 1]];
    }
  }

  ghost predicate DistinctEpochs(kept: seq<Snapshot>) {
    forall i, j :: 0 <= i < j < |kept| ==> kept[i].epoch != kept[j].epoch
  }

  ghost predicate IncreasingEpochs(kept: seq<Snapshot>) {
    forall i, j :: 0 <= i < j < |kept| ==> kept[i].epoch < kept[j].epoch
  }

  /** The rows are the stored forms of the raw records, one for one. */
  ghost predicate StoresOf(rows: seq<SnapshotRow>, kept: seq<Snapshot>) {
    |rows| == |kept| && forall i :: 0 <= i < |rows| ==> rows[i].snap == Stored(kept[i])
  }

  const FIRST_WINS: TieBreak := (a: int, b: int) => false

  /** The object's row with the greatest epoch. */
  function Newest(rows: seq<SnapshotRow>, n: int): Option<SnapshotRow> {
    Latest(rows, n, FIRST_WINS)
  }

  /**
   * The reference event log of an object: each raw record in arrival order,
   * evaluated against the stored form of the newest one before it.
   */
  function DiffLog(n: int, rows: seq<SnapshotRow>, kept: seq<Snapshot>): seq<EventRow>
    requires |rows| == |kept|
  {
    if rows == [] then []
    else
      var k := |rows| - 1;
      DiffLog(n, rows[..k], kept[..k]) + (
        match Newest(rows[..k], n)
        case Some(prev) => Tagged(GpEvents(prev.snap, kept[k]), n, prev.id, rows[k].id)
        case None => [])
  }

  /** The same with each record evaluated against the one right before it. */
  function AdjacentLog(n: int, rows: seq<SnapshotRow>, kept: seq<Snapshot>): seq<EventRow>
    requires |rows| == |kept|
  {
    if |rows| <= 1 then []
    else
      var k := |rows| - 1;
      AdjacentLog(n, rows[..k], kept[..k])
      + Tagged(GpEvents(rows[k - 1].snap, kept[k]), n, rows[k - 1].id, rows[k].id)
  }

  lemma {:induction false} LatestOfOwnRows(rows: seq<SnapshotRow>, n: int, ties: TieBreak)
    ensures Latest(SnapshotsOf(rows, n), n, ties) == Latest(rows, n, ties)
  {
    if rows != [] {
      var init := rows[..|rows| - 1];
      LatestOfOwnRows(init, n, ties);
      var own := SnapshotsOf(init, n);
      var row := rows[|rows| - 1];
      assert (own + [row])[..|own|] == own;
      assert own + [] == own;
    }
  }

  /** With distinct epochs the tie-break is irrelevant. */
  lemma {:induction false} TiesIrrelevant(rows: seq<SnapshotRow>, kept: seq<Snapshot>, n: int, ties: TieBreak)
    requires StoresOf(rows, kept) && DistinctEpochs(kept)
    ensures Latest(rows, n, ties) == Newest(rows, n)
  {
    if rows != [] {
      var k := |rows| - 1;
      TiesIrrelevant(rows[..k], kept[..k], n, ties);
      LatestIsNewest(rows[..k], n, ties);
      var best := Latest(rows[..k], n, ties);
      if best.Some? {
        var i :| 0 <= i < k && rows[..k][i] == best.value;
        assert rows[i].snap.epoch == kept[i].epoch != kept[k].epoch == rows[k].snap.epoch;
      }
    }
  }

  /** When epochs arrive in order, the newest row is the last one. */
  lemma {:induction false} NewestIsLast(rows: seq<SnapshotRow>, kept: seq<Snapshot>, n: int)
    requires StoresOf(rows, kept) && IncreasingEpochs(kept) && rows != []
    requires forall i :: 0 <= i < |rows| ==> rows[i].snap.noradCatId == n
    ensures Newest(rows, n) == Some(rows[|rows| - 1])
  {
    var k := |rows| - 1;
    LatestIsNewest(rows[..k], n, FIRST_WINS);
    var best := Newest(rows[..k], n);
    if best.Some? {
      var i :| 0 <= i < k && rows[..k][i] == best.value;
      assert rows[i].snap.epoch == kept[i].epoch < kept[k].epoch == rows[k].snap.epoch;
    }
  }

  /** In epoch order the log is the adjacent-pair log. */
  lemma {:induction false} InOrderLogIsAdjacent(n: int, rows: seq<SnapshotRow>, kept: seq<Snapshot>)
    requires StoresOf(rows, kept) && IncreasingEpochs(kept)
    requires forall i :: 0 <= i < |rows| ==> rows[i].snap.noradCatId == n
    ensures DiffLog(n, rows, kept) == AdjacentLog(n, rows, kept)
  {
    hide Tagged, GpEvents;
    if rows != [] {
      var k := |rows| - 1;
      InOrderLogIsAdjacent(n, rows[..k], kept[..k]);
      if k > 0 {
        NewestIsLast(rows[..k], kept[..k], n);
      } else {
        assert rows[..k] == [];
      }
    }
  }

  /** The stored rows and events of object `n` are what the raw records `kept` determine. */
  ghost predicate HistoryIs(t: Tables, n: int, kept: seq<Snapshot>) {
    var rows := SnapshotsOf(t.snapshots, n);
    StoresOf(rows, kept) && GpEventsOf(t.events, n) == DiffLog(n, rows, kept)
  }

  predicate Keeps(outcome: Outcome) {
    outcome.Inserted? || outcome.InsertedThenFailed?
  }

  /** Handling another object's record leaves this object's history alone. */
  lemma OtherRecordKeepsHistory(t: Tables, rec: Snapshot, o: Oracle, n: int)
    requires rec.noradCatId != n
    ensures var t' := ProcessRecord(t, rec, o).0;
            SnapshotsOf(t'.snapshots, n) == SnapshotsOf(t.snapshots, n)
            && GpEventsOf(t'.events, n) == GpEventsOf(t.events, n)
  {
    hide Latest, GpEvents, Stored, GpEventsOf;
    var (t', outcome) := ProcessRecord(t, rec, o);
    if Keeps(outcome) {
      assert t'.snapshots[..|t'.snapshots| - 1] == t.snapshots;
      var prev := Latest(t.snapshots, rec.noradCatId, o.ties);
      if prev.Some? {
        var written := WrittenEvents(prev.value, rec, NewRow(t, rec, o).id, o.fault);
        GpEventsOfAppend(t.events, written, n);
        GpEventsOfTagged(written, rec.noradCatId, n);
        assert GpEventsOf(t.events, n) + [] == GpEventsOf(t.events, n);
      }
    }
  }

  lemma DistinctPrefix(kept: seq<Snapshot>, rec: Snapshot)
    requires DistinctEpochs(kept + [rec])
    ensures DistinctEpochs(kept)
  {
    forall i, j | 0 <= i < j < |kept|
      ensures kept[i].epoch != kept[j].epoch
    {
      assert (kept + [rec])[i] == kept[i] && (kept + [rec])[j] == kept[j];
    }
  }

  /** A stored record is the object's next row. */
  lemma NewRowOf(t: Tables, rec: Snapshot, o: Oracle)
    requires Keeps(ProcessRecord(t, rec, o).1)
    ensures SnapshotsOf(ProcessRecord(t, rec, o).0.snapshots, rec.noradCatId)
            == SnapshotsOf(t.snapshots, rec.noradCatId) + [NewRow(t, rec, o)]
  {
    hide Stored, Latest, WrittenEvents;
    var t' := ProcessRecord(t, rec, o).0;
    assert t'.snapshots == t.snapshots + [NewRow(t, rec, o)];
    assert t'.snapshots[..|t.snapshots|] == t.snapshots;
  }

  /** Its events are the diff against the newest row, up to the first write that fails. */
  lemma NewEventsOf(t: Tables, rec: Snapshot, o: Oracle)
    requires Keeps(ProcessRecord(t, rec, o).1)
    ensures GpEventsOf(ProcessRecord(t, rec, o).0.events, rec.noradCatId)
            == GpEventsOf(t.events, rec.noradCatId) + (
                 match Latest(SnapshotsOf(t.snapshots, rec.noradCatId), rec.noradCatId, o.ties)
                 case Some(prev) => WrittenEvents(prev, rec, NewRow(t, rec, o).id, o.fault)
                 case None => [])
  {
    hide Stored, Latest, GpEvents, GpEventsOf;
    LatestOfOwnRows(t.snapshots, rec.noradCatId, o.ties);
    var prev := Latest(t.snapshots, rec.noradCatId, o.ties);
    if prev.Some? {
      var written := WrittenEvents(prev.value, rec, NewRow(t, rec, o).id, o.fault);
      GpEventsOfAppend(t.events, written, rec.noradCatId);
      GpEventsOfTagged(written, rec.noradCatId, rec.noradCatId);
    }
  }

  lemma StoresOneMore(rows: seq<SnapshotRow>, kept: seq<Snapshot>, row: SnapshotRow, rec: Snapshot)
    requires StoresOf(rows, kept) && row.snap == Stored(rec)
    ensures StoresOf(rows + [row], kept + [rec])
  {
    hide Stored;
  }

  lemma DiffLogOneMore(n: int, rows: seq<SnapshotRow>, kept: seq<Snapshot>, row: SnapshotRow, rec: Snapshot)
    requires |rows| == |kept|
    ensures DiffLog(n, rows + [row], kept + [rec])
            == DiffLog(n, rows, kept) + (
                 match Newest(rows, n)
                 case Some(prev) => Tagged(GpEvents(prev.snap, rec), n, prev.id, row.id)
                 case None => [])
  {
    hide Tagged, GpEvents, Newest;
    assert (rows + [row])[..|rows|] == rows && (kept + [rec])[..|rows|] == kept;
  }

  /** Handling this object's record appends exactly the record and its diff against the newest row. */
  lemma OwnRecordExtendsHistory(t: Tables, rec: Snapshot, o: Oracle, kept: seq<Snapshot>)
    requires HistoryIs(t, rec.noradCatId, kept)
    requires ProcessRecord(t, rec, o).1.Inserted? && DistinctEpochs(kept + [rec])
    ensures HistoryIs(ProcessRecord(t, rec, o).0, rec.noradCatId, kept + [rec])
  {
    var n, row := rec.noradCatId, NewRow(t, rec, o);
    var rows := SnapshotsOf(t.snapshots, n);
    DistinctPrefix(kept, rec);
    TiesIrrelevant(rows, kept, n, o.ties);
    WholeDiffWritten(t, rec, o);
    NewRowOf(t, rec, o);
    NewEventsOf(t, rec, o);
    StoresOneMore(rows, kept, row, rec);
    DiffLogOneMore(n, rows, kept, row, rec);
    hide ProcessRecord, Tagged, GpEvents, Latest, Stored, StoresOf, DiffLog, SnapshotsOf, GpEventsOf, WrittenEvents;
  }

  /** When no event write fails, all events of the diff are written. */
  lemma WholeDiffWritten(t: Tables, rec: Snapshot, o: Oracle)
    requires ProcessRecord(t, rec, o).1.Inserted?
    ensures match Latest(SnapshotsOf(t.snapshots, rec.noradCatId), rec.noradCatId, o.ties)
            case Some(prev) =>
              WrittenEvents(prev, rec, NewRow(t, rec, o).id, o.fault)
              == Tagged(GpEvents(prev.snap, rec), rec.noradCatId, prev.id, NewRow(t, rec, o).id)
            case None => true
  {
    hide Stored, Latest, GpEvents;
    LatestOfOwnRows(t.snapshots, rec.noradCatId, o.ties);
  }

  // ----- the history under faults and ties -----

  /** A stored record with what the environment decided while it was handled. */
  datatype Arrival = Arrival(rec: Snapshot, ties: TieBreak, fault: Fault)

  function Arrived(arrivals: seq<Arrival>): (recs: seq<Snapshot>)
    ensures |recs| == |arrivals|
  {
    seq(|arrivals|, i requires 0 <= i < |arrivals| => arrivals[i].rec)
  }

  /**
   * The event log of an object in full generality: each arrival diffed against
   * the row its query preferred among the newest, cut where a write failed.
   */
  function ArrivalLog(n: int, rows: seq<SnapshotRow>, arrivals: seq<Arrival>): seq<EventRow>
    requires |rows| == |arrivals|
  {
    if rows == [] then []
    else
      var k := |rows| - 1;
      ArrivalLog(n, rows[..k], arrivals[..k]) + (
        match Latest(rows[..k], n, arrivals[k].ties)
        case Some(prev) => WrittenEvents(prev, arrivals[k].rec, rows[k].id, arrivals[k].fault)
        case None => [])
  }

  ghost predicate ArrivalHistoryIs(t: Tables, n: int, arrivals: seq<Arrival>) {
    var rows := SnapshotsOf(t.snapshots, n);
    StoresOf(rows, Arrived(arrivals)) && GpEventsOf(t.events, n) == ArrivalLog(n, rows, arrivals)
  }

  lemma ArrivalLogOneMore(n: int, rows: seq<SnapshotRow>, arrivals: seq<Arrival>, row: SnapshotRow, a: Arrival)
    requires |rows| == |arrivals|
    ensures ArrivalLog(n, rows + [row], arrivals + [a])
            == ArrivalLog(n, rows, arrivals) + (
                 match Latest(rows, n, a.ties)
                 case Some(prev) => WrittenEvents(prev, a.rec, row.id, a.fault)
                 case None => [])
    ensures Arrived(arrivals + [a]) == Arrived(arrivals) + [a.rec]
  {
    hide Latest, WrittenEvents;
    assert (rows + [row])[..|rows|] == rows && (arrivals + [a])[..|rows|] == arrivals;
  }

  /** Every stored record extends the history so, with any fault and any tie-break. */
  lemma OwnArrivalExtendsHistory(t: Tables, rec: Snapshot, o: Oracle, arrivals: seq<Arrival>)
    requires ArrivalHistoryIs(t, rec.noradCatId, arrivals)
    requires Keeps(ProcessRecord(t, rec, o).1)
    ensures ArrivalHistoryIs(ProcessRecord(t, rec, o).0, rec.noradCatId, arrivals + [Arrival(rec, o.ties, o.fault)])
  {
    var n, row := rec.noradCatId, NewRow(t, rec, o);
    var rows := SnapshotsOf(t.snapshots, n);
    NewRowOf(t, rec, o);
    NewEventsOf(t, rec, o);
    StoresOneMore(rows, Arrived(arrivals), row, rec);
    ArrivalLogOneMore(n, rows, arrivals, row, Arrival(rec, o.ties, o.fault));
    hide ProcessRecord, Latest, Stored, StoresOf, ArrivalLog, SnapshotsOf, GpEventsOf, WrittenEvents, Arrived;
  }

  // ----- is the earlier snapshot first? -----

  /** Every stored record was compared with a row of an earlier epoch. */
  ghost predicate ComparedForward(n: int, rows: seq<SnapshotRow>, arrivals: seq<Arrival>)
    requires |rows| == |arrivals|
  {
    forall k :: 0 < k < |rows| ==>
      var prev := Latest(rows[..k], n, arrivals[k].ties);
      prev.Some? && prev.value.snap.epoch < arrivals[k].rec.epoch
  }

  /** Comparisons run forward in time exactly when the stored records arrived in epoch order. */
  lemma ComparedForwardIff(n: int, rows: seq<SnapshotRow>, arrivals: seq<Arrival>)
    requires StoresOf(rows, Arrived(arrivals))
    requires forall i :: 0 <= i < |rows| ==> rows[i].snap.noradCatId == n
    ensures ComparedForward(n, rows, arrivals) <==> IncreasingEpochs(Arrived(arrivals))
  {
    hide Stored, Latest;
    var kept := Arrived(arrivals);
    forall k | 0 < k < |rows|
      ensures var prev := Latest(rows[..k], n, arrivals[k].ties);
              && prev.Some?
              && (forall i :: 0 <= i < k ==> kept[i].epoch <= prev.value.snap.epoch)
              && (exists i :: 0 <= i < k && kept[i].epoch == prev.value.snap.epoch)
    {
      NewestOfPrefix(n, rows, kept, k, arrivals[k].ties);
    }
    if ComparedForward(n, rows, arrivals) {
      forall i, j | 0 <= i < j < |kept|
        ensures kept[i].epoch < kept[j].epoch
      {
        assert kept[i].epoch <= Latest(rows[..j], n, arrivals[j].ties).value.snap.epoch < arrivals[j].rec.epoch;
      }
    }
    if IncreasingEpochs(kept) {
      forall k | 0 < k < |rows|
        ensures Latest(rows[..k], n, arrivals[k].ties).value.snap.epoch < arrivals[k].rec.epoch
      {
        var i :| 0 <= i < k && kept[i].epoch == Latest(rows[..k], n, arrivals[k].ties).value.snap.epoch;
        assert kept[i].epoch < kept[k].epoch;
      }
    }
  }

  lemma NewestOfPrefix(n: int, rows: seq<SnapshotRow>, kept: seq<Snapshot>, k: nat, ties: TieBreak)
    requires StoresOf(rows, kept) && 0 < k < |rows|
    requires forall i :: 0 <= i < |rows| ==> rows[i].snap.noradCatId == n
    ensures var prev := Latest(rows[..k], n, ties);
            && prev.Some?
            && (forall i :: 0 <= i < k ==> kept[i].epoch <= prev.value.snap.epoch)
            && (exists i :: 0 <= i < k && kept[i].epoch == prev.value.snap.epoch)
  {
    hide Stored, Latest;
    var prefix := rows[..k];
    LatestIsNewest(prefix, n, ties);
    forall i | 0 <= i < k
      ensures rows[i] in prefix && rows[i].snap.epoch == kept[i].epoch
    {
      assert prefix[i] == rows[i];
    }
    assert rows[0] in prefix;
    var i :| 0 <= i < k && prefix[i] == Latest(prefix, n, ties).value;
    assert rows[i].snap.epoch == kept[i].epoch;
  }

  // ----- the event rows, field by field -----

  /** The rows are the diff of the two snapshots, in order, up to the first write that fails. */
  ghost predicate WritesDiff(rows: seq<EventRow>, prev: SnapshotRow, rec: Snapshot, newId: int, fault: Fault) {
    var diff := GpEvents(prev.snap, rec);
    && |rows| == (if fault.EventFails? && fault.at < |diff| then fault.at else |diff|)
    && forall i :: 0 <= i < |rows| ==>
         && rows[i].event == diff[i] && rows[i].noradCatId == rec.noradCatId
         && rows[i].prevSnapshotId == Some(prev.id) && rows[i].newSnapshotId == Some(newId)
  }

  lemma WrittenIsDiff(prev: SnapshotRow, rec: Snapshot, newId: int, fault: Fault)
    ensures WritesDiff(WrittenEvents(prev, rec, newId, fault), prev, rec, newId, fault)
  {
    hide GpEvents;
  }

  /** A newest row of the object. */
  ghost predicate IsNewest(rows: seq<SnapshotRow>, n: int, row: SnapshotRow) {
    && row in rows && row.snap.noradCatId == n
    && forall other :: other in rows && other.snap.noradCatId == n ==> other.snap.epoch <= row.snap.epoch
  }

  /**
   * A stored record appends its snapshot row and then the rows of its diff
   * against a newest row of the object; a first one appends no event. The
   * outcome says whether all of them were written.
   */
  lemma RecordWritesItsDiff(t: Tables, rec: Snapshot, o: Oracle)
    requires Keeps(ProcessRecord(t, rec, o).1)
    ensures var (t', outcome) := ProcessRecord(t, rec, o);
            && |t'.snapshots| == |t.snapshots| + 1 && t.snapshots <= t'.snapshots && t.events <= t'.events
            && var (row, written) := (t'.snapshots[|t.snapshots|], t'.events[|t.events|..]);
               && row.snap == Stored(rec) && row.id >= t.nextSnapshotId
               && if forall other :: other in t.snapshots ==> other.snap.noradCatId != rec.noradCatId then
                    written == [] && outcome.Inserted?
                  else
                    exists prev :: IsNewest(t.snapshots, rec.noradCatId, prev)
                                   && WritesDiff(written, prev, rec, row.id, o.fault)
                                   && (outcome.Inserted? <==> |written| == |GpEvents(prev.snap, rec)|)
  {
    hide GpEvents, Latest, Stored, WritesDiff;
    var t' := ProcessRecord(t, rec, o).0;
    var prev := Latest(t.snapshots, rec.noradCatId, o.ties);
    LatestIsNewest(t.snapshots, rec.noradCatId, o.ties);
    if prev.Some? {
      var written := WrittenEvents(prev.value, rec, NewRow(t, rec, o).id, o.fault);
      WrittenIsDiff(prev.value, rec, NewRow(t, rec, o).id, o.fault);
      assert t'.events[|t.events|..] == written;
      assert IsNewest(t.snapshots, rec.noradCatId, prev.value);
    }
  }

  /** Where the rows of arrival `k` begin in the log. */
  function LogStart(n: int, rows: seq<SnapshotRow>, arrivals: seq<Arrival>, k: nat): nat
    requires |rows| == |arrivals| && k <= |rows|
  {
    |ArrivalLog(n, rows[..k], arrivals[..k])|
  }

  lemma {:induction false} LogGrows(n: int, rows: seq<SnapshotRow>, arrivals: seq<Arrival>, k: nat)
    requires |rows| == |arrivals| && k <= |rows|
    ensures ArrivalLog(n, rows[..k], arrivals[..k]) <= ArrivalLog(n, rows, arrivals)
    decreases |rows| - k
  {
    hide Latest, WrittenEvents;
    if k == |rows| {
      assert rows[..k] == rows && arrivals[..k] == arrivals;
    } else {
      LogGrows(n, rows, arrivals, k + 1);
      assert rows[..k + 1][..k] == rows[..k] && arrivals[..k + 1][..k] == arrivals[..k];
    }
  }

  /** The log is the arrivals' diffs one after the other, each against a newest earlier row. */
  lemma LogIsDiffs(n: int, rows: seq<SnapshotRow>, arrivals: seq<Arrival>, k: nat)
    requires |rows| == |arrivals| && k < |rows|
    requires forall i :: 0 <= i < |rows| ==> rows[i].snap.noradCatId == n
    ensures var (log, lo, hi) := (ArrivalLog(n, rows, arrivals), LogStart(n, rows, arrivals, k), LogStart(n, rows, arrivals, k + 1));
            && lo <= hi <= |log| && (k == 0 ==> lo == 0 == hi) && (k + 1 == |rows| ==> hi == |log|)
            && (k > 0 ==> exists p :: 0 <= p < k && IsNewest(rows[..k], n, rows[p])
                                      && WritesDiff(log[lo..hi], rows[p], arrivals[k].rec, rows[k].id, arrivals[k].fault))
  {
    hide Latest, WrittenEvents, WritesDiff, IsNewest, ArrivalLog;
    var log := ArrivalLog(n, rows, arrivals);
    var before, upTo := ArrivalLog(n, rows[..k], arrivals[..k]), ArrivalLog(n, rows[..k + 1], arrivals[..k + 1]);
    LogGrows(n, rows, arrivals, k + 1);
    LogStep(n, rows, arrivals, k);
    NewestAmongFirst(n, rows, k, arrivals[k].ties);
    if k == 0 {
      NoLogYet(n, rows[..k], arrivals[..k]);
    } else {
      var p :| 0 <= p < k && Latest(rows[..k], n, arrivals[k].ties) == Some(rows[p]) && IsNewest(rows[..k], n, rows[p]);
      var written := WrittenEvents(rows[p], arrivals[k].rec, rows[k].id, arrivals[k].fault);
      WrittenIsDiff(rows[p], arrivals[k].rec, rows[k].id, arrivals[k].fault);
      Slice(before, written, log);
    }
    if k + 1 == |rows| {
      assert rows[..k + 1] == rows && arrivals[..k + 1] == arrivals;
    }
  }

  lemma NoLogYet(n: int, rows: seq<SnapshotRow>, arrivals: seq<Arrival>)
    requires rows == [] && arrivals == []
    ensures ArrivalLog(n, rows, arrivals) == []
  {
  }

  lemma Slice<T>(before: seq<T>, block: seq<T>, all: seq<T>)
    requires before + block <= all
    ensures |before| + |block| <= |all| && all[|before|..|before| + |block|] == block
  {
    assert all[..|before + block|] == before + block;
  }

  lemma LogStep(n: int, rows: seq<SnapshotRow>, arrivals: seq<Arrival>, k: nat)
    requires |rows| == |arrivals| && k < |rows|
    ensures ArrivalLog(n, rows[..k + 1], arrivals[..k + 1])
            == ArrivalLog(n, rows[..k], arrivals[..k]) + (
                 match Latest(rows[..k], n, arrivals[k].ties)
                 case Some(prev) => WrittenEvents(prev, arrivals[k].rec, rows[k].id, arrivals[k].fault)
                 case None => [])
  {
    hide Latest, WrittenEvents;
    assert rows[..k + 1][..k] == rows[..k] && arrivals[..k + 1][..k] == arrivals[..k];
  }

  lemma NewestAmongFirst(n: int, rows: seq<SnapshotRow>, k: nat, ties: TieBreak)
    requires k <= |rows| && forall i :: 0 <= i < |rows| ==> rows[i].snap.noradCatId == n
    ensures k == 0 ==> Latest(rows[..k], n, ties) == None
    ensures k > 0 ==> exists p :: 0 <= p < k && Latest(rows[..k], n, ties) == Some(rows[p]) && IsNewest(rows[..k], n, rows[p])
  {
    hide Latest;
    LatestIsNewest(rows[..k], n, ties);
    if k > 0 {
      assert rows[..k][0] in rows[..k];
      var row := Latest(rows[..k], n, ties).value;
      var p :| 0 <= p < k && rows[..k][p] == row;
      assert rows[p] == row && IsNewest(rows[..k], n, rows[p]);
    }
  }

  /** A record that stores no snapshot changes no table. */
  lemma UnkeptChangesNothing(t: Tables, rec: Snapshot, o: Oracle)
    requires !Keeps(ProcessRecord(t, rec, o).1)
    ensures ProcessRecord(t, rec, o).0 == t
  {
  }
}
