/**
 * The database as mutable state and the write path both pollers share. Every
 * method is one transaction; what the server decides (the clock, faults, ids,
 * tie-breaks) comes in as a parameter.
 */
module DbWriter {
  import opened Prelude
  import opened Ordering
  import opened Rules
  import opened Tables
  import opened Text
  import opened History
  import opened Satcat
  import Rotation

  class Database {
    var objects: map<int, ObjectRow>
    var snapshots: seq<SnapshotRow>
    var nextSnapshotId: int
    var events: seq<EventRow>
    var pollers: map<string, PollerRow>

    constructor ()
      ensures View() == EMPTY_TABLES
    {
      objects, snapshots, nextSnapshotId, events, pollers := map[], [], 1, [], map[];
    }

    function View(): Tables
      reads this
    {
      Tables(objects, snapshots, nextSnapshotId, events, pollers)
    }
  }

  lemma NothingUpserted(rules: ObjectRules, t: Tables, recs: seq<ObjectRecord>)
    ensures UpsertAllBy(rules, t, recs[..0]) == t && FiredBy(rules, t, recs[..0]) == []
  {
  }

  /** One iteration of the batch loop, in the terms the loop computes. */
  lemma OneMoreUpserted(rules: ObjectRules, t: Tables, recs: seq<ObjectRecord>, i: nat)
    requires i < |recs|
    ensures var before := UpsertAllBy(rules, t, recs[..i]);
            var n := recs[i].noradCatId;
            var diff := if n in before.objects then FireAll(rules, StateOfRow(before.objects[n]), StateOfRecord(recs[i])) else [];
            && UpsertAllBy(rules, t, recs[..i + 1])
               == before.(objects := Upserted(before.objects, recs[i]), events := before.events + Untagged(diff, n))
            && FiredBy(rules, t, recs[..i + 1]) == FiredBy(rules, t, recs[..i]) + diff
  {
    hide FireAll, Upserted;
    assert recs[..i + 1][..i] == recs[..i];
  }

  class Writer {
    const db: Database

    constructor (db: Database)
      ensures this.db == db
    {
      this.db := db;
    }

    /**
     * One transaction for the whole batch. `failsAt` is the record whose
     * statements throw, or the batch length if the commit does.
     */
    method UpsertObjectsFromSatcat(objs: seq<ObjectRecord>, registry: RuleRegistry<ObjectState>, failsAt: Option<nat>)
      returns (r: Result<seq<DetectedEvent>>)
      modifies db
      ensures r.Thrown? <==> objs != [] && failsAt.Some? && failsAt.value <= |objs|
      ensures r.Thrown? ==> db.View() == old(db.View())
      ensures r.Returned? ==>
                && db.View() == UpsertAllBy(old(registry.rules), old(db.View()), objs)
                && r.value == FiredBy(old(registry.rules), old(db.View()), objs)
    {
      if objs == [] {
        return Returned([]);
      }
      hide UpsertAllBy, FiredBy;
      var objects, events, fired, ok := DiffAndUpsertAll(db.View(), objs, registry, failsAt);
      if !ok || failsAt == Some(|objs|) {
        return Thrown;
      }
      db.objects, db.events := objects, events;
      return Returned(fired);
    }

    /** The statements of the transaction, on its own view of the two tables; `!ok` is a thrown exception. */
    method DiffAndUpsertAll(
        start: Tables, objs: seq<ObjectRecord>, registry: RuleRegistry<ObjectState>, failsAt: Option<nat>)
      returns (objects: map<int, ObjectRow>, events: seq<EventRow>, fired: seq<DetectedEvent>, ok: bool)
      ensures ok <==> !(failsAt.Some? && failsAt.value < |objs|)
      ensures ok ==> start.(objects := objects, events := events) == UpsertAllBy(registry.rules, start, objs)
      ensures ok ==> fired == FiredBy(registry.rules, start, objs)
    {
      hide UpsertAllBy, FiredBy, FireAll, Upserted;
      objects, events, fired := start.objects, start.events, [];
      NothingUpserted(registry.rules, start, objs);
      for i := 0 to |objs|
        invariant failsAt.Some? ==> i <= failsAt.value
        invariant start.(objects := objects, events := events) == UpsertAllBy(registry.rules, start, objs[..i])
        invariant fired == FiredBy(registry.rules, start, objs[..i])
      {
        if failsAt == Some(i) {
          return objects, events, fired, false;
        }
        OneMoreUpserted(registry.rules, start, objs, i);
        var diff := DiffAgainstStored(objects, objs[i], registry);
        events := events + Untagged(diff, objs[i].noradCatId);
        fired := fired + diff;
        objects := Upserted(objects, objs[i]);
      }
      assert objs[..|objs|] == objs;
      ok := true;
    }

    /** The stored row, if there is one, against the incoming record. */
    method DiffAgainstStored(objects: map<int, ObjectRow>, obj: ObjectRecord, registry: RuleRegistry<ObjectState>)
      returns (diff: seq<DetectedEvent>)
      ensures diff == if obj.noradCatId in objects
                      then FireAll(registry.rules, StateOfRow(objects[obj.noradCatId]), StateOfRecord(obj)) else []
    {
      hide FireAll;
      diff := [];
      if obj.noradCatId in objects {
        diff := registry.EvaluateAll(StateOfRow(objects[obj.noradCatId]), StateOfRecord(obj));
      }
    }

    method GetLastSnapshot(noradCatId: int, fails: bool, ties: TieBreak) returns (r: Result<Option<SnapshotRow>>)
      ensures r == if fails then Thrown else Returned(Latest(db.snapshots, noradCatId, ties))
    {
      if fails {
        return Thrown;
      }
      var best: Option<SnapshotRow> := None;
      for i := 0 to |db.snapshots|
        invariant best == Latest(db.snapshots[..i], noradCatId, ties)
      {
        assert db.snapshots[..i + 1][..i] == db.snapshots[..i];
        var row := db.snapshots[i];
        if row.snap.noradCatId == noradCatId && (best.None? || Supersedes(row, best.value, ties)) {
          best := Some(row);
        }
      }
      assert db.snapshots[..|db.snapshots|] == db.snapshots;
      r := Returned(best);
    }

    method InsertSnapshot(snap: Snapshot, o: Oracle) returns (r: Result<int>)
      modifies db
      ensures r.Returned? <==> Insertable(old(db.View()), snap, o.fault)
      ensures r.Returned? ==>
                r.value == NewRow(old(db.View()), snap, o).id && db.View() == WithSnapshot(old(db.View()), snap, o)
      ensures r.Thrown? ==> db.View() == old(db.View())
    {
      if o.fault.InsertFails? || snap.noradCatId !in db.objects || GpIdTaken(db.snapshots, snap.gpId) {
        return Thrown;
      }
      var id := db.nextSnapshotId + o.idGap;
      db.snapshots, db.nextSnapshotId := db.snapshots + [SnapshotRow(id, Stored(snap))], id + 1;
      r := Returned(id);
    }

    method InsertEvent(noradCatId: int, event: DetectedEvent, prevSnapshotId: Option<int>, newSnapshotId: int, fails: bool)
      returns (r: Result<()>)
      modifies db`events
      ensures r.Thrown? <==> fails
      ensures db.events == old(db.events)
                           + if fails then [] else [EventRow(noradCatId, event, prevSnapshotId, Some(newSnapshotId))]
    {
      if fails {
        return Thrown;
      }
      db.events := db.events + [EventRow(noradCatId, event, prevSnapshotId, Some(newSnapshotId))];
      r := Returned(());
    }

    /** Not due exactly while a recorded run is less than the interval minus five minutes in the past. */
    method IsPollerDue(pollerName: string, interval: int, now: int) returns (due: bool)
      ensures due <==> IsDue(db.pollers, pollerName, interval, now)
      ensures !due <==> pollerName in db.pollers && now - db.pollers[pollerName].lastRunAt < interval - TOLERANCE
    {
      if pollerName !in db.pollers {
        return true;
      }
      due := db.pollers[pollerName].lastRunAt <= now - interval + TOLERANCE;
    }

    method MarkPollerRun(pollerName: string, now: int)
      modifies db`pollers
      ensures db.pollers == Marked(old(db.pollers), pollerName, now)
      ensures pollerName in db.pollers && db.pollers[pollerName].lastRunAt == now
      ensures db.pollers[pollerName].rotationCursor
              == if pollerName in old(db.pollers) then old(db.pollers)[pollerName].rotationCursor else None
      ensures db.pollers == old(db.pollers)[pollerName := db.pollers[pollerName]]
    {
      if pollerName in db.pollers {
        db.pollers := db.pollers[pollerName := db.pollers[pollerName].(lastRunAt := now)];
      } else {
        db.pollers := db.pollers[pollerName := PollerRow(now, None)];
      }
    }

    /** Read-only; the exclusion travels as the text of the query's clause. */
    method NextGpRotationBatch(batchSize: nat, excludeIds: seq<int>) returns (batch: seq<int>)
      ensures batch == Rotation.NextBatch(Live(db.objects), StoredCursor(db.pollers), batchSize, Elements(excludeIds))
      ensures RotationRows(db.objects,
                           if "gp" in db.pollers && db.pollers["gp"].rotationCursor.Some?
                           then db.pollers["gp"].rotationCursor.value else -1,
                           batchSize, excludeIds, batch)
    {
      hide OrderBy, Ascending, ExcludedBy, ReadCondition, Live, RotationRows, Rotation.Past, Rotation.Eligible;
      BatchIsRotationRows(db.objects, StoredCursor(db.pollers), batchSize, excludeIds);
      var cursor := if "gp" in db.pollers && db.pollers["gp"].rotationCursor.Some?
                    then db.pollers["gp"].rotationCursor.value else Rotation.NO_CURSOR;
      assert cursor == StoredCursor(db.pollers);
      var exclusion := BuildExclusionClause(excludeIds);
      var eligible := Rotation.Eligible(Live(db.objects), Elements(ExcludedBy(exclusion).value));
      var primaryRows := Limit(Ascending(Rotation.Past(eligible, cursor)), batchSize);
      batch := CollectIds([], primaryRows);
      if |batch| < batchSize {
        var remaining := batchSize - |batch|;
        var wrapRows := Limit(Ascending(eligible), remaining);
        batch := CollectIds(batch, wrapRows);
      }
    }

    /** The loop that pushes a result's ids onto a list. */
    method CollectIds(ids: seq<int>, rows: seq<int>) returns (r: seq<int>)
      ensures r == ids + rows
    {
      r := ids;
      for i := 0 to |rows|
        invariant r == ids + rows[..i]
      {
        r := r + [rows[i]];
      }
      assert rows[..|rows|] == rows;
    }

    /** Undecayed, featured or viewed objects in rank order, cut at `limit`. */
    method TopGpHotTargets(limit: nat) returns (ids: seq<int>)
      ensures RankedCut(db.objects, limit, ids)
      ensures ids == HotTargets(db.objects, limit)
    {
      hide OrderBy, HotKey, HotCandidates, RankedCut, Limit;
      var rows := Limit(OrderBy(HotCandidates(db.objects), HotKey(db.objects)), limit);
      ids := CollectIds([], rows);
      assert ids == rows;
      HotTargetsRanked(db.objects, limit);
    }

    /** `last_run_at` is only set when the row does not exist yet. */
    method AdvanceGpRotationCursor(newCursor: int, now: int)
      modifies db`pollers
      ensures db.pollers == WithCursor(old(db.pollers), newCursor, now)
      ensures "gp" in db.pollers && db.pollers["gp"].rotationCursor == Some(newCursor)
      ensures db.pollers["gp"].lastRunAt == if "gp" in old(db.pollers) then old(db.pollers)["gp"].lastRunAt else now
      ensures db.pollers == old(db.pollers)["gp" := db.pollers["gp"]]
    {
      if "gp" in db.pollers {
        db.pollers := db.pollers["gp" := db.pollers["gp"].(rotationCursor := Some(newCursor))];
      } else {
        db.pollers := db.pollers["gp" := PollerRow(now, Some(newCursor))];
      }
    }
  }
}
