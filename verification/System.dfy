/**
 * Whole runs: any interleaving of SATCAT batches, GP records, stamps, cursor
 * writes and API lookups, with failures anywhere.
 */
module System {
  import opened Prelude
  import opened Rules
  import opened Tables
  import opened History
  import opened Satcat

  datatype Action =
    | SatcatBatch(recs: seq<ObjectRecord>, committed: bool)
    | GpRecord(rec: Snapshot, oracle: Oracle)
    | MoveCursor(cursor: int, now: int)
    | Stamp(poller: string, now: int)
    | Lookup(id: int, committed: bool)

  /** `UPDATE objects SET hit_count = hit_count + 1 WHERE norad_cat_id = id`. */
  function WithHit(objects: map<int, ObjectRow>, id: int): map<int, ObjectRow> {
    if id in objects then objects[id := objects[id].(hitCount := objects[id].hitCount + 1)] else objects
  }

  function Step(t: Tables, a: Action): Tables {
    match a
    case SatcatBatch(recs, committed) => if committed then UpsertAll(t, recs) else t
    case GpRecord(rec, oracle) => ProcessRecord(t, rec, oracle).0
    case MoveCursor(cursor, now) => t.(pollers := WithCursor(t.pollers, cursor, now))
    case Stamp(poller, now) => t.(pollers := Marked(t.pollers, poller, now))
    case Lookup(id, committed) => if committed then t.(objects := WithHit(t.objects, id)) else t
  }

  function Run(t: Tables, actions: seq<Action>): Tables {
    if actions == [] then t else Step(Run(t, actions[..|actions| - 1]), actions[|actions| - 1])
  }

  function RecordActions(recs: seq<Snapshot>, os: seq<Oracle>): (actions: seq<Action>)
    requires |recs| == |os|
    ensures |actions| == |recs|
  {
    seq(|recs|, i requires 0 <= i < |recs| => GpRecord(recs[i], os[i]))
  }

  /** A response's record loop is a run of its records. */
  lemma {:induction false} ResponseIsRun(t: Tables, recs: seq<Snapshot>, os: seq<Oracle>)
    requires |recs| == |os|
    ensures ProcessAll(t, recs, os) == Run(t, RecordActions(recs, os))
  {
    if recs != [] {
      var k := |recs| - 1;
      ResponseIsRun(t, recs[..k], os[..k]);
      assert RecordActions(recs, os)[..k] == RecordActions(recs[..k], os[..k]);
    }
  }

  // ----- integrity -----

  predicate HasSnapshot(rows: seq<SnapshotRow>, id: int, n: int) {
    exists i :: 0 <= i < |rows| && rows[i].id == id && rows[i].snap.noradCatId == n
  }

  ghost predicate SnapshotsSound(t: Tables) {
    && (forall i, j :: 0 <= i < j < |t.snapshots| ==> t.snapshots[i].id < t.snapshots[j].id)
    && (forall i :: 0 <= i < |t.snapshots| ==> t.snapshots[i].id < t.nextSnapshotId)
    && (forall i, j :: 0 <= i < j < |t.snapshots| ==> t.snapshots[i].snap.gpId != t.snapshots[j].snap.gpId)
    && (forall i :: 0 <= i < |t.snapshots| ==> t.snapshots[i].snap.noradCatId in t.objects)
  }

  ghost predicate EventSound(t: Tables, e: EventRow) {
    && e.noradCatId in t.objects
    && match (e.prevSnapshotId, e.newSnapshotId)
       case (None, None) => true
       case (Some(p), Some(c)) =>
         p < c && HasSnapshot(t.snapshots, p, e.noradCatId) && HasSnapshot(t.snapshots, c, e.noradCatId)
       case _ => false
  }

  /**
   * Snapshot ids are unique and increasing, gp_ids unique, every snapshot's
   * object exists, and every event belongs to a known object: a GP event links
   * an earlier and a later snapshot of its own object, a SATCAT event none.
   */
  ghost predicate Integrity(t: Tables) {
    SnapshotsSound(t) && forall e :: e in t.events ==> EventSound(t, e)
  }

  /** Nothing is ever deleted: objects stay, snapshot and event rows stay. */
  ghost predicate Extends(t: Tables, t': Tables) {
    t.objects.Keys <= t'.objects.Keys && t.snapshots <= t'.snapshots && t.events <= t'.events
  }

  lemma EventStaysSound(t: Tables, t': Tables, e: EventRow)
    requires Extends(t, t') && EventSound(t, e)
    ensures EventSound(t', e)
  {
    if e.prevSnapshotId.Some? {
      HasSnapshotStays(t.snapshots, t'.snapshots, e.prevSnapshotId.value, e.noradCatId);
      HasSnapshotStays(t.snapshots, t'.snapshots, e.newSnapshotId.value, e.noradCatId);
    }
  }

  lemma HasSnapshotStays(rows: seq<SnapshotRow>, rows': seq<SnapshotRow>, id: int, n: int)
    requires rows <= rows' && HasSnapshot(rows, id, n)
    ensures HasSnapshot(rows', id, n)
  {
    var i :| 0 <= i < |rows| && rows[i].id == id && rows[i].snap.noradCatId == n;
    assert rows'[i] == rows[i];
  }

  /** Integrity survives a step that keeps rows, has sound snapshots and adds only sound events. */
  lemma IntegrityFrom(t: Tables, t': Tables, added: seq<EventRow>)
    requires Integrity(t) && Extends(t, t') && SnapshotsSound(t')
    requires t'.events == t.events + added
    requires forall e :: e in added ==> EventSound(t', e)
    ensures Integrity(t')
  {
    forall e | e in t'.events
      ensures EventSound(t', e)
    {
      if e in t.events {
        EventStaysSound(t, t', e);
      } else {
        assert e in added;
      }
    }
  }

  lemma GpRecordKeepsIntegrity(t: Tables, rec: Snapshot, o: Oracle)
    requires Integrity(t)
    ensures Integrity(ProcessRecord(t, rec, o).0) && Extends(t, ProcessRecord(t, rec, o).0)
  {
    hide GpEvents, Latest, Stored;
    var (t', outcome) := ProcessRecord(t, rec, o);
    if !Keeps(outcome) {
      UnkeptChangesNothing(t, rec, o);
    } else {
      var row := NewRow(t, rec, o);
      var prev := Latest(t.snapshots, rec.noradCatId, o.ties);
      assert t'.snapshots == t.snapshots + [row];
      NewSnapshotIsSound(t, t', row);
      assert t'.snapshots[|t.snapshots|] == row;
      assert HasSnapshot(t'.snapshots, row.id, rec.noradCatId);
      if prev.Some? {
        var added := WrittenEvents(prev.value, rec, row.id, o.fault);
        LatestIsNewest(t.snapshots, rec.noradCatId, o.ties);
        var i :| 0 <= i < |t.snapshots| && t.snapshots[i] == prev.value;
        assert t'.snapshots[i] == prev.value;
        assert HasSnapshot(t'.snapshots, prev.value.id, rec.noradCatId);
        assert forall e :: e in added ==> EventSound(t', e);
        IntegrityFrom(t, t', added);
      } else {
        IntegrityFrom(t, t', []);
      }
    }
  }

  lemma NewSnapshotIsSound(t: Tables, t': Tables, row: SnapshotRow)
    requires SnapshotsSound(t)
    requires t'.objects == t.objects && t'.snapshots == t.snapshots + [row] && t'.nextSnapshotId == row.id + 1
    requires row.id >= t.nextSnapshotId && row.snap.noradCatId in t.objects && !GpIdTaken(t.snapshots, row.snap.gpId)
    ensures SnapshotsSound(t')
  {
  }

  lemma {:induction false} SatcatKeepsIntegrity(t: Tables, recs: seq<ObjectRecord>)
    requires Integrity(t)
    ensures Integrity(UpsertAll(t, recs)) && Extends(t, UpsertAll(t, recs))
  {
    hide FireAll;
    if recs != [] {
      var k := |recs| - 1;
      SatcatKeepsIntegrity(t, recs[..k]);
      var t1 := UpsertAll(t, recs[..k]);
      var n := recs[k].noradCatId;
      IntegrityFrom(t1, UpsertAll(t, recs), Untagged(Diff(StoredState(t1.objects, n), StateOfRecord(recs[k])), n));
    }
  }

  lemma StepKeepsIntegrity(t: Tables, a: Action)
    requires Integrity(t)
    ensures Integrity(Step(t, a)) && Extends(t, Step(t, a))
  {
    hide ProcessRecord, UpsertAll, EventSound, Marked, WithCursor;
    match a
    case SatcatBatch(recs, _) => SatcatKeepsIntegrity(t, recs);
    case GpRecord(rec, oracle) => GpRecordKeepsIntegrity(t, rec, oracle);
    case MoveCursor(_, _) => IntegrityFrom(t, Step(t, a), []);
    case Stamp(_, _) => IntegrityFrom(t, Step(t, a), []);
    case Lookup(_, _) => IntegrityFrom(t, Step(t, a), []);
  }

  /** Every run keeps integrity, whatever fails and however the writers interleave. */
  lemma {:induction false} RunKeepsIntegrity(t: Tables, actions: seq<Action>)
    requires Integrity(t)
    ensures Integrity(Run(t, actions)) && Extends(t, Run(t, actions))
  {
    if actions != [] {
      var k := |actions| - 1;
      RunKeepsIntegrity(t, actions[..k]);
      StepKeepsIntegrity(Run(t, actions[..k]), actions[k]);
    }
  }

  /** So every state reachable from the empty database has it, and counts hits from each object's insertion. */
  lemma ReachableStates(actions: seq<Action>, n: int)
    ensures Integrity(Run(EMPTY_TABLES, actions))
    ensures HitsOf(Run(EMPTY_TABLES, actions).objects, n) == FoundLookups(EMPTY_TABLES, actions, n)
  {
    RunKeepsIntegrity(EMPTY_TABLES, actions);
    FactsFixedAndHitsCounted(EMPTY_TABLES, actions, n);
  }

  // ----- fixed facts and hit counts -----

  /** The columns no later import changes. */
  ghost predicate SameFixedFacts(objects: map<int, ObjectRow>, objects': map<int, ObjectRow>, n: int) {
    n in objects ==>
      && n in objects'
      && objects'[n].objectId == objects[n].objectId
      && objects'[n].countryCode == objects[n].countryCode && objects'[n].launchDate == objects[n].launchDate
      && objects'[n].site == objects[n].site && objects'[n].featured == objects[n].featured
  }

  function HitsOf(objects: map<int, ObjectRow>, n: int): nat {
    if n in objects then objects[n].hitCount else 0
  }

  lemma {:induction false} SatcatKeepsFacts(t: Tables, recs: seq<ObjectRecord>, n: int)
    ensures SameFixedFacts(t.objects, UpsertAll(t, recs).objects, n)
    ensures HitsOf(UpsertAll(t, recs).objects, n) == HitsOf(t.objects, n)
  {
    if recs != [] {
      SatcatKeepsFacts(t, recs[..|recs| - 1], n);
    }
  }

  /** Committed lookups of `n` that found it. */
  function FoundLookups(t: Tables, actions: seq<Action>, n: int): nat {
    if actions == [] then 0
    else
      var k := |actions| - 1;
      FoundLookups(t, actions[..k], n)
      + if actions[k].Lookup? && actions[k].id == n && actions[k].committed && n in Run(t, actions[..k]).objects then 1 else 0
  }

  /**
   * Object id, country, launch date, site and the featured mark are fixed at
   * first sighting, and hit_count is exactly the number of successful lookups.
   */
  lemma {:induction false} FactsFixedAndHitsCounted(t: Tables, actions: seq<Action>, n: int)
    ensures SameFixedFacts(t.objects, Run(t, actions).objects, n)
    ensures HitsOf(Run(t, actions).objects, n) == HitsOf(t.objects, n) + FoundLookups(t, actions, n)
  {
    if actions != [] {
      var k := |actions| - 1;
      FactsFixedAndHitsCounted(t, actions[..k], n);
      if actions[k].SatcatBatch? {
        SatcatKeepsFacts(Run(t, actions[..k]), actions[k].recs, n);
      }
    }
  }

  ghost predicate NoObjectIds(objects: map<int, ObjectRow>) {
    forall n :: n in objects ==> objects[n].objectId == None
  }

  lemma {:induction false} SatcatNeverSetsObjectId(t: Tables, recs: seq<ObjectRecord>)
    requires NoObjectIds(t.objects)
    ensures NoObjectIds(UpsertAll(t, recs).objects)
  {
    hide UpsertAll, DiffBy, Untagged, StoredState;
    UpsertAllUnfold(t, recs);
    if recs != [] {
      SatcatNeverSetsObjectId(t, recs[..|recs| - 1]);
    }
  }

  /** The object id every SATCAT record carries is never stored. */
  lemma {:induction false} ObjectIdIsNeverStored(actions: seq<Action>)
    ensures NoObjectIds(Run(EMPTY_TABLES, actions).objects)
  {
    hide UpsertAll, ProcessRecord;
    if actions != [] {
      var k := |actions| - 1;
      var t1 := Run(EMPTY_TABLES, actions[..k]);
      ObjectIdIsNeverStored(actions[..k]);
      match actions[k]
      case SatcatBatch(recs, _) => SatcatNeverSetsObjectId(t1, recs);
      case GpRecord(rec, oracle) => RecordKeepsObjects(t1, rec, oracle);
      case _ =>
    }
  }

  lemma RecordKeepsObjects(t: Tables, rec: Snapshot, o: Oracle)
    ensures ProcessRecord(t, rec, o).0.objects == t.objects
  {
    hide Latest, GpEvents, Stored;
  }

  lemma RecordKeepsPollers(t: Tables, rec: Snapshot, o: Oracle)
    ensures ProcessRecord(t, rec, o).0.pollers == t.pollers
  {
    hide Latest, GpEvents, Stored;
  }

  // ----- moving lookups -----

  function WithHitIn(t: Tables, id: int): Tables {
    t.(objects := WithHit(t.objects, id))
  }

  lemma HitThenRecord(t: Tables, rec: Snapshot, o: Oracle, id: int)
    ensures ProcessRecord(WithHitIn(t, id), rec, o).0 == WithHitIn(ProcessRecord(t, rec, o).0, id)
  {
    hide Latest, GpEvents, Stored;
    assert WithHit(t.objects, id).Keys == t.objects.Keys;
  }

  lemma HitThenUpsert(t: Tables, rec: ObjectRecord, id: int)
    requires id in t.objects || rec.noradCatId != id
    ensures UpsertOne(WithHitIn(t, id), rec) == WithHitIn(UpsertOne(t, rec), id)
  {
    hide DiffBy, Untagged;
    assert StoredState(WithHit(t.objects, id), rec.noradCatId) == StoredState(t.objects, rec.noradCatId);
    assert Upserted(WithHit(t.objects, id), rec) == WithHit(Upserted(t.objects, rec), id);
  }

  lemma {:induction false} HitThenBatch(t: Tables, recs: seq<ObjectRecord>, id: int)
    requires id in t.objects || forall rec :: rec in recs ==> rec.noradCatId != id
    ensures UpsertAll(WithHitIn(t, id), recs) == WithHitIn(UpsertAll(t, recs), id)
  {
    hide UpsertAll, UpsertOne, WithHitIn;
    UpsertAllUnfold(t, recs);
    UpsertAllUnfold(WithHitIn(t, id), recs);
    if recs != [] {
      var init, rec := recs[..|recs| - 1], recs[|recs| - 1];
      assert rec in recs;
      HitThenBatch(t, init, id);
      SatcatKeepsFacts(t, init, id);
      HitThenUpsert(UpsertAll(t, init), rec, id);
    }
  }

  /** The step brings an object the database does not know yet. */
  predicate Introduces(t: Tables, a: Action, id: int) {
    a.SatcatBatch? && a.committed && id !in t.objects && exists rec :: rec in a.recs && rec.noradCatId == id
  }

  lemma {:induction false} BatchListsAll(t: Tables, recs: seq<ObjectRecord>, rec: ObjectRecord)
    requires rec in recs
    ensures rec.noradCatId in UpsertAll(t, recs).objects
  {
    hide UpsertAll, DiffBy, Untagged, StoredState;
    UpsertAllUnfold(t, recs);
    if recs[|recs| - 1] != rec {
      BatchListsAll(t, recs[..|recs| - 1], rec);
    }
  }

  /**
   * When a page is viewed does not matter to any other writer: a committed
   * lookup can be moved across a step exactly if that step is not the import
   * that brings its object.
   */
  lemma LookupCommutesIff(t: Tables, a: Action, id: int)
    ensures Step(Step(t, Lookup(id, true)), a) == Step(Step(t, a), Lookup(id, true)) <==> !Introduces(t, a, id)
  {
    hide UpsertAll, ProcessRecord, Marked, WithCursor;
    match a
    case GpRecord(rec, oracle) => HitThenRecord(t, rec, oracle, id);
    case SatcatBatch(recs, committed) =>
      if Introduces(t, a, id) {
        var rec :| rec in recs && rec.noradCatId == id;
        BatchListsAll(t, recs, rec);
        assert WithHit(t.objects, id) == t.objects;
        assert UpsertAll(t, recs).objects[id].hitCount != WithHit(UpsertAll(t, recs).objects, id)[id].hitCount;
      } else if committed {
        HitThenBatch(t, recs, id);
      }
    case Lookup(other, _) => HitsCommute(t.objects, id, other);
    case _ =>
  }

  lemma HitsCommute(objects: map<int, ObjectRow>, a: int, b: int)
    ensures WithHit(WithHit(objects, a), b) == WithHit(WithHit(objects, b), a)
  {
  }
}
