/** What the validators of the catalog response track over a run of the system. */
module Validators {
  import opened Tables
  import opened History
  import opened Satcat
  import opened System
  import opened CivilTime
  import opened HttpDate
  import opened ConditionalGet
  import opened Api
  import Sweep
  import ProcessRuns

  /** The SATCAT stamp after a run that started with `stamp`. */
  function LastImportStamp(stamp: int, actions: seq<Action>): int {
    if actions == [] then stamp
    else
      match actions[|actions| - 1]
      case Stamp(poller, now) => if poller == "satcat" then now else LastImportStamp(stamp, actions[..|actions| - 1])
      case _ => LastImportStamp(stamp, actions[..|actions| - 1])
  }

  function IdsOf(recs: seq<ObjectRecord>): set<int> {
    set rec | rec in recs :: rec.noradCatId
  }

  /** The ids committed batches list. */
  function CommittedIds(actions: seq<Action>): set<int> {
    if actions == [] then {}
    else
      var a := actions[|actions| - 1];
      CommittedIds(actions[..|actions| - 1]) + if a.SatcatBatch? && a.committed then IdsOf(a.recs) else {}
  }

  lemma {:induction false} BatchKeys(t: Tables, recs: seq<ObjectRecord>)
    ensures UpsertAll(t, recs).objects.Keys == t.objects.Keys + IdsOf(recs)
  {
    hide UpsertAll, DiffBy, Untagged, StoredState;
    UpsertAllUnfold(t, recs);
    if recs != [] {
      var init, rec := recs[..|recs| - 1], recs[|recs| - 1];
      BatchKeys(t, init);
      assert IdsOf(recs) == IdsOf(init) + {rec.noradCatId} by {
        assert recs == init + [rec];
      }
    }
  }

  lemma StepKeys(t: Tables, a: Action)
    ensures Step(t, a).objects.Keys == t.objects.Keys + if a.SatcatBatch? && a.committed then IdsOf(a.recs) else {}
  {
    hide UpsertAll, ProcessRecord;
    match a
    case SatcatBatch(recs, _) => BatchKeys(t, recs);
    case GpRecord(rec, oracle) => RecordKeepsObjects(t, rec, oracle);
    case _ =>
  }

  lemma {:induction false} RunKeys(t: Tables, actions: seq<Action>)
    ensures Run(t, actions).objects.Keys == t.objects.Keys + CommittedIds(actions)
  {
    hide Step, IdsOf;
    if actions != [] {
      RunKeys(t, actions[..|actions| - 1]);
      StepKeys(Run(t, actions[..|actions| - 1]), actions[|actions| - 1]);
    }
  }

  lemma StepStamp(t: Tables, a: Action, now: int)
    ensures ImportStamp(Step(t, a), now) == if a.Stamp? && a.poller == "satcat" then a.now else ImportStamp(t, now)
  {
    hide UpsertAll, ProcessRecord;
    match a
    case SatcatBatch(recs, _) => Sweep.SatcatKeepsPollers(t, recs);
    case GpRecord(rec, oracle) => RecordKeepsPollers(t, rec, oracle);
    case _ =>
  }

  lemma {:induction false} RunStamp(t: Tables, actions: seq<Action>, now: int)
    ensures ImportStamp(Run(t, actions), now) == LastImportStamp(ImportStamp(t, now), actions)
  {
    hide Step, ImportStamp;
    if actions != [] {
      RunStamp(t, actions[..|actions| - 1], now);
      StepStamp(Run(t, actions[..|actions| - 1]), actions[|actions| - 1], now);
    }
  }

  lemma GrowthIff(a: set<int>, b: set<int>)
    ensures |a + b| == |a| <==> b <= a
  {
    assert a + b == a + (b - a);
    assert |a + b| == |a| + |b - a|;
    assert |b - a| == 0 <==> b - a == {};
    assert b - a == {} <==> b <= a;
  }

  lemma MetaOfRun(t: Tables, actions: seq<Action>, now: int)
    ensures var m := MetaOf(Run(t, actions), now);
            && m.generatedAt == LastImportStamp(ImportStamp(t, now), actions)
            && (m.objectCount == |t.objects| <==> CommittedIds(actions) <= t.objects.Keys)
  {
    hide Run, LastImportStamp, CommittedIds, ImportStamp;
    RunStamp(t, actions, now);
    RunKeys(t, actions);
    GrowthIff(t.objects.Keys, CommittedIds(actions));
    var t' := Run(t, actions);
    assert |t'.objects| == |t'.objects.Keys| && |t.objects| == |t.objects.Keys|;
  }

  /**
   * What the validators track. After any run, a client that echoes the ETag of
   * its copy gets a 304 exactly when the SATCAT stamp is within the same second
   * and no committed batch listed a new id; one that echoes the date, exactly
   * when the stamp rounds to no later a second and the year is readable.
   * Changed rows and hit counts do not matter.
   */
  lemma ValidatorsTrack(t: Tables, actions: seq<Action>, ifModifiedSince: string, now: int, later: int)
    ensures var (m, n) := (MetaOf(t, now), MetaOf(Run(t, actions), later));
            var (was, latest) := (ImportStamp(t, now), LastImportStamp(ImportStamp(t, later), actions));
            && (NotModified(n, EtagOf(m), ifModifiedSince)
                <==> latest / SECOND == was / SECOND && CommittedIds(actions) <= t.objects.Keys)
            && (NotModified(n, "", LastModifiedOf(m))
                <==> YearReadable(GmTime(NearestSecond(was)).date.year) && NearestSecond(latest) <= NearestSecond(was))
  {
    hide Run, LastImportStamp, CommittedIds, ImportStamp, NotModified, EtagOf, LastModifiedOf, NearestSecond, GmTime,
      YearReadable;
    var (m, n) := (MetaOf(t, now), MetaOf(Run(t, actions), later));
    MetaOfRun(t, actions, later);
    EchoedEtagDecides(n, m, ifModifiedSince);
    EchoedDateDecides(n, m);
  }

  /**
   * The stamp precedes the import it announces. A copy taken in between keeps
   * its Last-Modified while a new object arrives, and only the ETag, thanks to
   * the row count, notices.
   */
  lemma DateMissesCountChange(t: Tables, stamp: int, rec: ObjectRecord, now: int)
    requires rec.noradCatId !in t.objects
    requires YearReadable(GmTime(NearestSecond(stamp)).date.year)
    ensures var stamped := [Stamp("satcat", stamp)];
            var (before, after) := (Run(t, stamped), Run(t, stamped + [SatcatBatch([rec], true)]));
            var (m, n) := (MetaOf(before, now), MetaOf(after, now));
            && n.generatedAt == m.generatedAt && n.objectCount == m.objectCount + 1
            && NotModified(n, "", LastModifiedOf(m)) && !NotModified(n, EtagOf(m), "")
  {
    hide Run, NotModified, EtagOf, LastModifiedOf, NearestSecond, GmTime, YearReadable;
    var (before, batch) := (Run(t, [Stamp("satcat", stamp)]), [SatcatBatch([rec], true)]);
    StampThenBatch(t, stamp, rec);
    assert IdsOf([rec]) == {rec.noradCatId};
    RunKeys(before, batch);
    assert |before.objects.Keys + {rec.noradCatId}| == |before.objects.Keys| + 1;
    var after := Run(before, batch);
    assert |after.objects| == |after.objects.Keys| && |before.objects| == |before.objects.Keys|;
    ValidatorsTrack(before, batch, "", now, now);
  }

  lemma StampThenBatch(t: Tables, stamp: int, rec: ObjectRecord)
    ensures var (stamped, batch) := ([Stamp("satcat", stamp)], [SatcatBatch([rec], true)]);
            var before := Run(t, stamped);
            && before == t.(pollers := Marked(t.pollers, "satcat", stamp))
            && Run(t, stamped + batch) == Run(before, batch) == UpsertOne(before, rec)
            && CommittedIds(batch) == IdsOf([rec]) && LastImportStamp(stamp, batch) == stamp
  {
    hide UpsertAll, UpsertOne;
    ProcessRuns.RunOne(t, Stamp("satcat", stamp));
    var before := Run(t, [Stamp("satcat", stamp)]);
    ProcessRuns.RunAppend(t, [Stamp("satcat", stamp)], [SatcatBatch([rec], true)]);
    ProcessRuns.RunOne(before, SatcatBatch([rec], true));
    UpsertSingle(before, rec);
    assert [SatcatBatch([rec], true)][..0] == [];
  }

  /** An import that only updates rows escapes both validators of such a copy. */
  lemma ValidatorsMissUpdate(t: Tables, stamp: int, rec: ObjectRecord, ifModifiedSince: string, now: int)
    requires rec.noradCatId in t.objects && !Reflects(t.objects, rec)
    requires YearReadable(GmTime(NearestSecond(stamp)).date.year)
    ensures var stamped := [Stamp("satcat", stamp)];
            var (before, after) := (Run(t, stamped), Run(t, stamped + [SatcatBatch([rec], true)]));
            var (m, n) := (MetaOf(before, now), MetaOf(after, now));
            && Reflects(after.objects, rec) && after.objects != before.objects
            && NotModified(n, EtagOf(m), ifModifiedSince) && NotModified(n, "", LastModifiedOf(m))
  {
    hide Run, NotModified, EtagOf, LastModifiedOf, NearestSecond, GmTime, YearReadable, DiffBy, Untagged, StoredState;
    var (before, batch) := (Run(t, [Stamp("satcat", stamp)]), [SatcatBatch([rec], true)]);
    StampThenBatch(t, stamp, rec);
    assert IdsOf([rec]) == {rec.noradCatId};
    ValidatorsTrack(before, batch, ifModifiedSince, now, now);
  }
}
