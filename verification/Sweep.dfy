/** The rotation inside the running system: hour after hour, with imports, lookups and failures in between. */
module Sweep {
  import opened Prelude
  import opened Rotation
  import opened Tables
  import opened Satcat
  import opened System
  import opened SatcatLog

  /**
   * One hour: what the database sees before the GP targets are chosen, what it
   * sees from then on, whether the response came back and the cursor was
   * stored, and when.
   */
  datatype Hour = Hour(before: seq<Action>, during: seq<Action>, completed: bool, now: int)

  /** Only a GP run moves the cursor. */
  ghost predicate Background(actions: seq<Action>) {
    forall a :: a in actions ==> !a.MoveCursor?
  }

  ghost predicate WellFormed(hours: seq<Hour>) {
    forall h :: h in hours ==> Background(h.before) && Background(h.during)
  }

  function HotOf(t: Tables): (hot: seq<int>)
    ensures |hot| <= MAX_HOT_SLOTS
  {
    HotTargets(t.objects, MAX_HOT_SLOTS)
  }

  function BatchOf(t: Tables): seq<int> {
    NextBatch(Live(t.objects), StoredCursor(t.pollers), BATCH_SIZE - |HotOf(t)|, Elements(HotOf(t)))
  }

  function AfterHour(t: Tables, h: Hour): Tables {
    var chosen := Run(t, h.before);
    var done := Run(chosen, h.during);
    if h.completed && BatchOf(chosen) != [] then Step(done, MoveCursor(Last(BatchOf(chosen)), h.now)) else done
  }

  function AfterHours(t: Tables, hours: seq<Hour>): Tables
    decreases |hours|
  {
    if hours == [] then t else AfterHours(AfterHour(t, hours[0]), hours[1..])
  }

  /** `x` is in the targets of some completed hour. */
  predicate RequestedIn(t: Tables, hours: seq<Hour>, x: int)
    decreases |hours|
  {
    hours != [] &&
    var chosen := Run(t, hours[0].before);
    (hours[0].completed && (x in HotOf(chosen) || x in BatchOf(chosen)))
    || RequestedIn(AfterHour(t, hours[0]), hours[1..], x)
  }

  /** The rotation's view of the same hours. */
  function RunsOf(t: Tables, hours: seq<Hour>): (runs: seq<GpRun>)
    ensures |runs| == |hours|
    ensures Bounded(runs)
    decreases |hours|
  {
    if hours == [] then []
    else
      var chosen := Run(t, hours[0].before);
      [GpRun(Live(chosen.objects), HotOf(chosen), hours[0].completed)] + RunsOf(AfterHour(t, hours[0]), hours[1..])
  }

  function CompletedHours(hours: seq<Hour>): nat {
    if hours == [] then 0 else (if hours[0].completed then 1 else 0) + CompletedHours(hours[1..])
  }

  lemma {:induction false} CompletedAgree(t: Tables, hours: seq<Hour>)
    ensures Completed(RunsOf(t, hours)) == CompletedHours(hours)
    decreases |hours|
  {
    if hours != [] {
      CompletedAgree(AfterHour(t, hours[0]), hours[1..]);
      assert RunsOf(t, hours)[1..] == RunsOf(AfterHour(t, hours[0]), hours[1..]);
    }
  }

  lemma {:induction false} BackgroundKeepsCursor(t: Tables, actions: seq<Action>)
    requires Background(actions)
    ensures StoredCursor(Run(t, actions).pollers) == StoredCursor(t.pollers)
  {
    if actions != [] {
      var k := |actions| - 1;
      var a := actions[k];
      assert a in actions;
      BackgroundKeepsCursor(t, actions[..k]);
      if a.SatcatBatch? {
        SatcatKeepsPollers(Run(t, actions[..k]), a.recs);
      }
    }
  }

  lemma {:induction false} SatcatKeepsPollers(t: Tables, recs: seq<ObjectRecord>)
    ensures UpsertAll(t, recs).pollers == t.pollers
  {
    if recs != [] {
      SatcatKeepsPollers(t, recs[..|recs| - 1]);
    }
  }

  /** The cursor column follows exactly the rotation's own advance. */
  lemma CursorFollowsRotation(t: Tables, h: Hour)
    requires Background(h.before) && Background(h.during)
    ensures var chosen := Run(t, h.before);
            var run := GpRun(Live(chosen.objects), HotOf(chosen), h.completed);
            && run.Batch(StoredCursor(t.pollers)) == BatchOf(chosen)
            && StoredCursor(AfterHour(t, h).pollers) == run.Advance(StoredCursor(t.pollers))
  {
    hide Run, NextBatch, HotTargets;
    BackgroundKeepsCursor(t, h.before);
    BackgroundKeepsCursor(Run(t, h.before), h.during);
  }

  lemma {:induction false} RequestsAgree(t: Tables, hours: seq<Hour>, x: int)
    requires WellFormed(hours)
    ensures RequestedIn(t, hours, x) <==> Requested(RunsOf(t, hours), StoredCursor(t.pollers), x)
    decreases |hours|
  {
    hide NextBatch, HotTargets, Run, AfterHour;
    if hours != [] {
      assert hours[0] in hours;
      CursorFollowsRotation(t, hours[0]);
      RequestsAgree(AfterHour(t, hours[0]), hours[1..], x);
      var runs := RunsOf(t, hours);
      assert runs[1..] == RunsOf(AfterHour(t, hours[0]), hours[1..]);
    }
  }

  /** `x` is live, and only ids of `all` are, whenever targets are chosen. */
  ghost predicate LiveThroughout(t: Tables, hours: seq<Hour>, x: int, all: set<int>) {
    forall r :: r in RunsOf(t, hours) ==> x in r.live && r.live <= all
  }

  /** Bounded fairness of the deployed system. */
  lemma SweepReachesEveryLiveId(t: Tables, hours: seq<Hour>, x: int, all: set<int>)
    requires WellFormed(hours) && LiveThroughout(t, hours, x, all) && x in all
    requires CompletedHours(hours) >= (|all| + 299) / 300
    ensures RequestedIn(t, hours, x)
  {
    CompletedAgree(t, hours);
    BoundedFairness(RunsOf(t, hours), StoredCursor(t.pollers), all, x);
    RequestsAgree(t, hours, x);
  }

  ghost predicate ImportsAsQueried(hours: seq<Hour>) {
    forall h :: h in hours ==> AllAsQueried(h.before) && AllAsQueried(h.during)
  }

  lemma HourKeepsLive(t: Tables, h: Hour)
    requires AllAsQueried(h.before) && AllAsQueried(h.during)
    ensures Live(t.objects) <= Live(Run(t, h.before).objects) <= Live(AfterHour(t, h).objects)
  {
    RunNeverDecays(t, h.before);
    RunNeverDecays(Run(t, h.before), h.during);
  }

  lemma {:induction false} LiveOnlyGrows(t: Tables, hours: seq<Hour>, x: int)
    requires ImportsAsQueried(hours) && x in Live(t.objects)
    ensures Live(t.objects) <= Live(AfterHours(t, hours).objects)
    ensures LiveThroughout(t, hours, x, Live(AfterHours(t, hours).objects))
    decreases |hours|
  {
    if hours != [] {
      assert hours[0] in hours;
      HourKeepsLive(t, hours[0]);
      LiveOnlyGrows(AfterHour(t, hours[0]), hours[1..], x);
    }
  }

  /**
   * With imports that answer the SATCAT query, an object seen once is asked
   * for within ceil(n / 300) completed GP hours, `n` being the number of live
   * objects at the end: the sweep keeps up with a growing catalog.
   */
  lemma EveryImportedObjectIsPolled(t: Tables, hours: seq<Hour>, x: int)
    requires WellFormed(hours) && ImportsAsQueried(hours) && x in Live(t.objects)
    requires CompletedHours(hours) >= (|Live(AfterHours(t, hours).objects)| + 299) / 300
    ensures RequestedIn(t, hours, x)
  {
    LiveOnlyGrows(t, hours, x);
    SweepReachesEveryLiveId(t, hours, x, Live(AfterHours(t, hours).objects));
  }
}
