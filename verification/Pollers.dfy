/**
 * The pollers and one run of the process. The network is a parameter: whether
 * a login works and what a request brings back.
 */
module Pollers {
  import opened Prelude
  import opened Rules
  import opened Tables
  import opened Text
  import opened History
  import opened Satcat
  import opened DbWriter
  import Rotation
  import Scheduler
  import Sweep

  /** What a fetch yields: nothing, a body that does not parse, or parsed records. */
  datatype Reply<T> = FetchFailed | Unparsable | Records(records: seq<T>)

  // ----- what a run does to the tables -----

  function AfterSatcatRun(t: Tables, authenticated: bool, reply: Reply<ObjectRecord>, failsAt: Option<nat>): Tables {
    if authenticated && reply.Records? && (failsAt.None? || failsAt.value > |reply.records|)
    then UpsertAll(t, reply.records)
    else t
  }

  /** The record loop and then the cursor; only the rotation part of the targets moves it. */
  function AfterResponse(t: Tables, recs: seq<Snapshot>, os: seq<Oracle>, rotation: seq<int>, cursorFails: bool, now: int): Tables
    requires |recs| == |os|
  {
    var t1 := ProcessAll(t, recs, os);
    if rotation != [] && !cursorFails then
      t1.(pollers := WithCursor(t1.pollers, rotation[|rotation| - 1], now))
    else
      t1
  }

  predicate ReachesResponse(authenticated: bool, hot: seq<int>, rotation: seq<int>, reply: Reply<Snapshot>) {
    authenticated && hot + rotation != [] && reply.Records?
  }

  /** The URL a GP run fetches. */
  function SentBy(authenticated: bool, targets: seq<int>): Option<string> {
    if authenticated && targets != [] then Some(QueryUrl(targets)) else None
  }

  ghost predicate OraclesFor(reply: Reply<Snapshot>, os: seq<Oracle>) {
    reply.Records? ==> |os| == |reply.records|
  }

  lemma NothingProcessed(t: Tables, recs: seq<Snapshot>, os: seq<Oracle>)
    ensures ProcessAll(t, recs[..0], os[..0]) == t
    ensures TallyOf(OutcomesOf(t, recs[..0], os[..0])) == Tally(0, 0, 0)
  {
  }

  /** One iteration of the record loop on the tables and the counters. */
  lemma OneMoreProcessed(t: Tables, recs: seq<Snapshot>, os: seq<Oracle>, i: nat)
    requires |recs| == |os| && i < |recs|
    ensures var (t', outcome) := ProcessRecord(ProcessAll(t, recs[..i], os[..i]), recs[i], os[i]);
            var before := TallyOf(OutcomesOf(t, recs[..i], os[..i]));
            && ProcessAll(t, recs[..i + 1], os[..i + 1]) == t'
            && TallyOf(OutcomesOf(t, recs[..i + 1], os[..i + 1]))
               == Tally(before.insertedCount + if outcome.Inserted? || outcome.InsertedThenFailed? then 1 else 0,
                        before.unchangedCount + if outcome.Unchanged? then 1 else 0,
                        before.errorCount + if outcome.Failed? || outcome.InsertedThenFailed? then 1 else 0)
  {
    hide ProcessRecord;
    assert recs[..i + 1][..i] == recs[..i] && os[..i + 1][..i] == os[..i];
    var before := OutcomesOf(t, recs[..i], os[..i]);
    var outcomes := OutcomesOf(t, recs[..i + 1], os[..i + 1]);
    assert outcomes[..i] == before;
  }

  // ----- the pollers -----

  class GpPoller {
    const writer: Writer
    const registry: RuleRegistry<Snapshot>
    const hotTargetIds: seq<int>
    const rotationTargetIds: seq<int>

    constructor (db: Database, hotTargetIds: seq<int>, rotationTargetIds: seq<int>)
      ensures this.writer.db == db && registry.rules == GP_RULES
      ensures this.hotTargetIds == hotTargetIds && this.rotationTargetIds == rotationTargetIds
      ensures fresh(registry)
    {
      var registry := MakeDefaultRuleRegistry();
      this.registry := registry;
      this.writer := new Writer(db);
      this.hotTargetIds := hotTargetIds;
      this.rotationTargetIds := rotationTargetIds;
    }

    /** The body of the loop with its catch clause. */
    method ProcessOne(rec: Snapshot, o: Oracle) returns (outcome: Outcome)
      requires registry.rules == GP_RULES
      modifies writer.db
      ensures (writer.db.View(), outcome) == ProcessRecord(old(writer.db.View()), rec, o)
    {
      ghost var start := writer.db.View();
      var read := writer.GetLastSnapshot(rec.noradCatId, o.fault.ReadFails?, o.ties);
      if read.Thrown? {
        return Failed;
      }
      var prev := read.value;
      if prev.Some? && prev.value.snap.gpId == rec.gpId {
        return Unchanged;
      }
      var inserted := writer.InsertSnapshot(rec, o);
      if inserted.Thrown? {
        return Failed;
      }
      outcome := Inserted;
      if prev.Some? {
        outcome := DiffAndLog(prev.value, rec, inserted.value, o.fault);
        assert writer.db.View()
               == WithSnapshot(start, rec, o).(events := start.events + WrittenEvents(prev.value, rec, inserted.value, o.fault));
      }
    }

    /** The diff of a freshly stored snapshot: one transaction per fired event, up to the first that throws. */
    method DiffAndLog(prev: SnapshotRow, rec: Snapshot, newSnapshotId: int, fault: Fault) returns (outcome: Outcome)
      requires registry.rules == GP_RULES
      modifies writer.db`events
      ensures writer.db.events == old(writer.db.events) + WrittenEvents(prev, rec, newSnapshotId, fault)
      ensures outcome == if EventWriteFails(Some(prev), rec, fault) then InsertedThenFailed else Inserted
    {
      var events := registry.EvaluateAll(prev.snap, rec);
      assert events == GpEvents(prev.snap, rec);
      hide GpEvents, FireAll;
      ghost var rows := Tagged(events, rec.noradCatId, prev.id, newSnapshotId);
      for i := 0 to |events|
        invariant fault.EventFails? ==> i <= fault.at
        invariant writer.db.events == old(writer.db.events) + rows[..i]
      {
        var write := writer.InsertEvent(rec.noradCatId, events[i], Some(prev.id), newSnapshotId, fault == EventFails(i));
        if write.Thrown? {
          return InsertedThenFailed;
        }
        assert rows[..i + 1] == rows[..i] + [rows[i]];
      }
      assert rows[..|events|] == rows;
      return Inserted;
    }

    /** The record loop with its three counters. */
    method ProcessRecords(records: seq<Snapshot>, os: seq<Oracle>) returns (tally: Tally)
      requires registry.rules == GP_RULES && |records| == |os|
      modifies writer.db
      ensures writer.db.View() == ProcessAll(old(writer.db.View()), records, os)
      ensures tally == TallyOf(OutcomesOf(old(writer.db.View()), records, os))
    {
      hide ProcessRecord, ProcessAll, OutcomesOf, TallyOf;
      ghost var start := writer.db.View();
      var insertedCount, unchangedCount, errorCount: nat := 0, 0, 0;
      NothingProcessed(start, records, os);
      for i := 0 to |records|
        invariant writer.db.View() == ProcessAll(start, records[..i], os[..i])
        invariant Tally(insertedCount, unchangedCount, errorCount) == TallyOf(OutcomesOf(start, records[..i], os[..i]))
      {
        OneMoreProcessed(start, records, os, i);
        var outcome := ProcessOne(records[i], os[i]);
        match outcome {
          case Unchanged => unchangedCount := unchangedCount + 1;
          case Inserted => insertedCount := insertedCount + 1;
          case Failed => errorCount := errorCount + 1;
          case InsertedThenFailed => insertedCount, errorCount := insertedCount + 1, errorCount + 1;
        }
      }
      assert records[..|records|] == records && os[..|os|] == os;
      tally := Tally(insertedCount, unchangedCount, errorCount);
    }

    method ProcessResponse(reply: Reply<Snapshot>, os: seq<Oracle>, cursorFails: bool, now: int)
      returns (r: Result<Tally>)
      requires registry.rules == GP_RULES
      requires !reply.FetchFailed? && OraclesFor(reply, os)
      modifies writer.db
      ensures reply.Unparsable? ==> r.Thrown? && writer.db.View() == old(writer.db.View())
      ensures reply.Records? ==>
                && writer.db.View()
                   == AfterResponse(old(writer.db.View()), reply.records, os, rotationTargetIds, cursorFails, now)
                && (r.Thrown? <==> rotationTargetIds != [] && cursorFails)
                && (r.Returned? ==> r.value == TallyOf(OutcomesOf(old(writer.db.View()), reply.records, os)))
    {
      hide ProcessAll, OutcomesOf, TallyOf, WithCursor;
      if reply.Unparsable? {
        return Thrown;
      }
      var tally := ProcessRecords(reply.records, os);
      if rotationTargetIds != [] {
        if cursorFails {
          return Thrown;
        }
        writer.AdvanceGpRotationCursor(rotationTargetIds[|rotationTargetIds| - 1], now);
      }
      r := Returned(tally);
    }

    /**
     * `Poller::run`: only an empty target list lets an exception out; everything
     * else is logged and swallowed. `sent` is the URL it fetches, if it gets there.
     */
    method Run(loggedIn: bool, loginWorks: bool, reply: Reply<Snapshot>, os: seq<Oracle>, cursorFails: bool, now: int)
      returns (r: Result<()>, sent: Option<string>)
      requires registry.rules == GP_RULES && OraclesFor(reply, os)
      modifies writer.db
      ensures sent == SentBy(loggedIn || loginWorks, hotTargetIds + rotationTargetIds)
      ensures sent.Some? ==> RequestedBy(sent.value) == Some(hotTargetIds + rotationTargetIds)
      ensures r.Thrown? <==> (loggedIn || loginWorks) && hotTargetIds + rotationTargetIds == []
      ensures writer.db.View()
              == if ReachesResponse(loggedIn || loginWorks, hotTargetIds, rotationTargetIds, reply)
                 then AfterResponse(old(writer.db.View()), reply.records, os, rotationTargetIds, cursorFails, now)
                 else old(writer.db.View())
    {
      hide RequestedBy, QueryUrl;
      if !loggedIn {
        if !loginWorks {
          return Returned(()), None;
        }
      }
      var url := BuildQueryUrl(hotTargetIds, rotationTargetIds);
      if url.Thrown? {
        return Thrown, None;
      }
      if !reply.FetchFailed? {
        var _ := ProcessResponse(reply, os, cursorFails, now);
      }
      return Returned(()), Some(url.value);
    }
  }

  class SatcatPoller {
    const writer: Writer
    const registry: RuleRegistry<ObjectState>

    constructor (db: Database)
      ensures this.writer.db == db && registry.rules == OBJECT_RULES
      ensures fresh(registry)
    {
      var registry := MakeDefaultObjectRuleRegistry();
      this.registry := registry;
      this.writer := new Writer(db);
    }

    method Run(loggedIn: bool, loginWorks: bool, reply: Reply<ObjectRecord>, failsAt: Option<nat>)
      requires registry.rules == OBJECT_RULES
      modifies writer.db
      ensures writer.db.View() == AfterSatcatRun(old(writer.db.View()), loggedIn || loginWorks, reply, failsAt)
    {
      if !loggedIn {
        if !loginWorks {
          return;
        }
      }
      if !reply.Records? {
        return;
      }
      var _ := writer.UpsertObjectsFromSatcat(reply.records, registry, failsAt);
    }
  }

  // ----- one process -----

  /** Everything the environment decides during one process. */
  datatype Env = Env(
    satcatCheck: int, gpCheck: int, satcatStamp: int, gpStamp: int, gpRequest: int, now: int, fatal: Scheduler.Fatal,
    satcatLogin: bool, satcatReply: Reply<ObjectRecord>, satcatFailsAt: Option<nat>,
    gpLogin: bool, gpReply: Reply<Snapshot>, oracles: seq<Oracle>, cursorFails: bool)

  function SatcatDue(t: Tables, env: Env): bool {
    IsDue(t.pollers, "satcat", Scheduler.Poller.Satcat.Interval(), env.satcatCheck)
  }

  function GpDue(t: Tables, env: Env): bool {
    IsDue(t.pollers, "gp", Scheduler.Poller.Gp.Interval(), env.gpCheck)
  }

  function WithMark(t: Tables, due: bool, name: string, now: int): Tables {
    if due then t.(pollers := Marked(t.pollers, name, now)) else t
  }

  /** The tables once both stamps are in. */
  function AfterStamps(t: Tables, env: Env): Tables {
    WithMark(WithMark(t, SatcatDue(t, env), "satcat", env.satcatStamp), GpDue(t, env), "gp", env.gpStamp)
  }

  /** The client is shared: a login that worked for SATCAT serves GP too. */
  function GpAuthenticated(t: Tables, env: Env): bool {
    (SatcatDue(t, env) && env.satcatLogin) || env.gpLogin
  }

  /** The tables at the moment the GP targets are chosen. */
  function BeforeGp(t: Tables, env: Env): Tables {
    if SatcatDue(t, env) then
      AfterSatcatRun(AfterStamps(t, env), env.satcatLogin, env.satcatReply, env.satcatFailsAt)
    else
      AfterStamps(t, env)
  }

  /** The targets a process chooses if it gets that far. */
  function Targets(t: Tables, env: Env): seq<int> {
    Sweep.HotOf(BeforeGp(t, env)) + Sweep.BatchOf(BeforeGp(t, env))
  }

  /** The one GP request of a process, if it sends one. */
  function SentUrl(t: Tables, env: Env): Option<string> {
    if env.fatal.Never? && GpDue(t, env) then SentBy(GpAuthenticated(t, env), Targets(t, env)) else None
  }

  /** The process ends with an exception. */
  predicate Crashes(t: Tables, env: Env) {
    match env.fatal
    case BeforeSatcatStamp => true
    case BeforeGpStamp => true
    case BeforeGpTargets => GpDue(t, env)
    case Never => GpDue(t, env) && GpAuthenticated(t, env) && Targets(t, env) == []
  }

  function AfterProcess(t: Tables, env: Env): Tables
    requires env.gpReply.Records? ==> |env.oracles| == |env.gpReply.records|
  {
    match env.fatal
    case BeforeSatcatStamp => t
    case BeforeGpStamp => WithMark(t, SatcatDue(t, env), "satcat", env.satcatStamp)
    case BeforeGpTargets => BeforeGp(t, env)
    case Never =>
      var t1 := BeforeGp(t, env);
      if GpDue(t, env) && ReachesResponse(GpAuthenticated(t, env), Sweep.HotOf(t1), Sweep.BatchOf(t1), env.gpReply) then
        AfterResponse(t1, env.gpReply.records, env.oracles, Sweep.BatchOf(t1), env.cursorFails, env.now)
      else
        t1
  }

  /** Both due checks, then both stamps. */
  method DecideAndStamp(writer: Writer, env: Env) returns (satcatDue: bool, gpDue: bool, r: Result<()>)
    modifies writer.db`pollers
    ensures satcatDue == SatcatDue(old(writer.db.View()), env) && gpDue == GpDue(old(writer.db.View()), env)
    ensures r.Returned? <==> env.fatal.Stamps()
    ensures writer.db.View()
            == match env.fatal
               case BeforeSatcatStamp => old(writer.db.View())
               case BeforeGpStamp => WithMark(old(writer.db.View()), satcatDue, "satcat", env.satcatStamp)
               case _ => AfterStamps(old(writer.db.View()), env)
  {
    satcatDue := writer.IsPollerDue("satcat", Scheduler.Poller.Satcat.Interval(), env.satcatCheck);
    gpDue := writer.IsPollerDue("gp", Scheduler.Poller.Gp.Interval(), env.gpCheck);
    if env.fatal.BeforeSatcatStamp? {
      return satcatDue, gpDue, Thrown;
    }
    if satcatDue {
      writer.MarkPollerRun("satcat", env.satcatStamp);
    }
    if env.fatal.BeforeGpStamp? {
      return satcatDue, gpDue, Thrown;
    }
    if gpDue {
      writer.MarkPollerRun("gp", env.gpStamp);
    }
    r := Returned(());
  }

  /** The hot/rotation split and the GP run. */
  method SplitAndRunGp(writer: Writer, loggedIn: bool, env: Env) returns (r: Result<()>, sent: Option<string>)
    requires OraclesFor(env.gpReply, env.oracles)
    modifies writer.db
    ensures var t := old(writer.db.View());
            var targets := Sweep.HotOf(t) + Sweep.BatchOf(t);
            && sent == SentBy(loggedIn || env.gpLogin, targets)
            && (sent.Some? ==> RequestedBy(sent.value) == Some(targets))
            && (r.Thrown? <==> (loggedIn || env.gpLogin) && targets == [])
    ensures var t := old(writer.db.View());
            var (hot, rotation) := (Sweep.HotOf(t), Sweep.BatchOf(t));
            writer.db.View()
            == if ReachesResponse(loggedIn || env.gpLogin, hot, rotation, env.gpReply)
               then AfterResponse(t, env.gpReply.records, env.oracles, rotation, env.cursorFails, env.now)
               else t
  {
    hide HotTargets, Rotation.NextBatch, AfterResponse, RankedCut, SentBy, RequestedBy;
    var hotTargets := writer.TopGpHotTargets(Rotation.MAX_HOT_SLOTS);
    assert hotTargets == Sweep.HotOf(writer.db.View());
    var rotationTargets := writer.NextGpRotationBatch(Rotation.BATCH_SIZE - |hotTargets|, hotTargets);
    assert rotationTargets == Sweep.BatchOf(writer.db.View());
    var gpPoller := new GpPoller(writer.db, hotTargets, rotationTargets);
    r, sent := gpPoller.Run(loggedIn, env.gpLogin, env.gpReply, env.oracles, env.cursorFails, env.now);
  }

  /**
   * `main`: decide and stamp both pollers first, then SATCAT, then the
   * hot/rotation split and GP, whose one request, if any, is `sent`.
   */
  method RunProcess(db: Database, env: Env) returns (r: Result<()>, sent: Option<string>)
    requires OraclesFor(env.gpReply, env.oracles)
    modifies db
    ensures db.View() == AfterProcess(old(db.View()), env)
    ensures sent == SentUrl(old(db.View()), env)
    ensures sent.Some? ==> RequestedBy(sent.value) == Some(Targets(old(db.View()), env))
    ensures r.Thrown? <==> Crashes(old(db.View()), env)
  {
    hide AfterSatcatRun, AfterResponse, AfterStamps, SatcatDue, GpDue, Sweep.HotOf, Sweep.BatchOf, ReachesResponse,
      RequestedBy, SentBy;
    ghost var start := db.View();
    var schedulerState := new Writer(db);
    var satcatPoller := new SatcatPoller(db);
    var satcatDue, gpDue, stamped := DecideAndStamp(schedulerState, env);
    if stamped.Thrown? {
      return Thrown, None;
    }
    var loggedIn := false;
    if satcatDue {
      satcatPoller.Run(false, env.satcatLogin, env.satcatReply, env.satcatFailsAt);
      loggedIn := env.satcatLogin;
    }
    assert db.View() == BeforeGp(start, env);
    if !gpDue {
      return Returned(()), None;
    }
    if env.fatal.BeforeGpTargets? {
      return Thrown, None;
    }
    r, sent := SplitAndRunGp(schedulerState, loggedIn, env);
  }

  // ----- what a process guarantees -----

  /** Login, fetch, empty-target, parse and cursor-write failures all leave the cursor where it was. */
  lemma FailuresKeepCursor(t: Tables, env: Env)
    requires OraclesFor(env.gpReply, env.oracles)
    requires var t1 := BeforeGp(t, env);
             || !env.fatal.Never? || !GpDue(t, env) || env.cursorFails
             || !ReachesResponse(GpAuthenticated(t, env), Sweep.HotOf(t1), Sweep.BatchOf(t1), env.gpReply)
    ensures StoredCursor(AfterProcess(t, env).pollers) == StoredCursor(t.pollers)
  {
    hide UpsertAll, ProcessAll, Sweep.HotOf, Sweep.BatchOf;
    StampsKeepCursor(t, env);
    if env.gpReply.Records? {
      InsertedCountsRows(BeforeGp(t, env), env.gpReply.records, env.oracles);
    }
  }

  lemma StampsKeepCursor(t: Tables, env: Env)
    ensures StoredCursor(AfterStamps(t, env).pollers) == StoredCursor(t.pollers)
    ensures StoredCursor(BeforeGp(t, env).pollers) == StoredCursor(t.pollers)
    ensures StoredCursor(WithMark(t, SatcatDue(t, env), "satcat", env.satcatStamp).pollers) == StoredCursor(t.pollers)
  {
    hide UpsertAll;
    Sweep.SatcatKeepsPollers(AfterStamps(t, env), if env.satcatReply.Records? then env.satcatReply.records else []);
  }

  /** Per-record failures do not: once the response is processed the cursor is the last rotation id. */
  lemma ProcessedResponseMovesCursor(t: Tables, env: Env)
    requires OraclesFor(env.gpReply, env.oracles)
    requires env.fatal.Never? && GpDue(t, env) && !env.cursorFails
    requires var t1 := BeforeGp(t, env);
             && ReachesResponse(GpAuthenticated(t, env), Sweep.HotOf(t1), Sweep.BatchOf(t1), env.gpReply)
             && Sweep.BatchOf(t1) != []
    ensures StoredCursor(AfterProcess(t, env).pollers) == Rotation.Last(Sweep.BatchOf(BeforeGp(t, env)))
  {
    hide UpsertAll, ProcessAll, Sweep.HotOf, Sweep.BatchOf, BeforeGp;
  }

  /** Reprocessing the same body leaves every table, cursor included, as after the first time. */
  lemma ResponseIsIdempotent(
      t: Tables, recs: seq<Snapshot>, first: seq<Oracle>, second: seq<Oracle>, rotation: seq<int>, now: int, later: int)
    requires |recs| == |first| == |second|
    requires forall i :: 0 <= i < |recs| ==> Blocks(first[i].fault) ==> Blocks(second[i].fault)
    ensures var once := AfterResponse(t, recs, first, rotation, false, now);
            AfterResponse(once, recs, second, rotation, false, later) == once
  {
    hide ProcessRecord;
    var t1 := ProcessAll(t, recs, first);
    ReprocessingIsIdempotent(t, recs, first, second);
    var once := AfterResponse(t, recs, first, rotation, false, now);
    PollersDoNotMatter(t1, recs, second, once.pollers);
  }

  lemma PollersDoNotMatterOnce(t: Tables, rec: Snapshot, o: Oracle, pollers: map<string, PollerRow>)
    ensures ProcessRecord(t.(pollers := pollers), rec, o).0 == ProcessRecord(t, rec, o).0.(pollers := pollers)
  {
    hide Latest, GpEvents, Stored;
  }

  /** The record loop neither reads nor writes poller_state. */
  lemma {:induction false} PollersDoNotMatter(t: Tables, recs: seq<Snapshot>, os: seq<Oracle>, pollers: map<string, PollerRow>)
    requires |recs| == |os|
    ensures ProcessAll(t.(pollers := pollers), recs, os) == ProcessAll(t, recs, os).(pollers := pollers)
  {
    hide ProcessRecord;
    if recs != [] {
      var k := |recs| - 1;
      PollersDoNotMatter(t, recs[..k], os[..k], pollers);
      PollersDoNotMatterOnce(ProcessAll(t, recs[..k], os[..k]), recs[k], os[k], pollers);
    }
  }
}
