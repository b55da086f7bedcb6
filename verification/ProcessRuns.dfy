/** The deployed poller: what sequences of processes guarantee, from the cron tick to the requested ids. */
module ProcessRuns {
  import opened Prelude
  import opened Ordering
  import opened Tables
  import opened Text
  import opened History
  import opened Satcat
  import opened System
  import opened SatcatLog
  import opened Sweep
  import opened Pollers
  import Rotation
  import Scheduler

  // ----- one process as an hour of the sweep -----

  /** The GP response was processed and the cursor written. */
  predicate Completes(t: Tables, env: Env) {
    && env.fatal.Never? && GpDue(t, env) && !env.cursorFails
    && ReachesResponse(GpAuthenticated(t, env), HotOf(BeforeGp(t, env)), BatchOf(BeforeGp(t, env)), env.gpReply)
  }

  predicate GpResponseProcessed(t: Tables, env: Env) {
    && env.fatal.Never? && GpDue(t, env)
    && ReachesResponse(GpAuthenticated(t, env), HotOf(BeforeGp(t, env)), BatchOf(BeforeGp(t, env)), env.gpReply)
  }

  function StampActions(due: bool, poller: string, now: int): seq<Action> {
    if due then [Stamp(poller, now)] else []
  }

  function ImportActions(t: Tables, env: Env): seq<Action> {
    if SatcatDue(t, env) && env.satcatLogin && env.satcatReply.Records? then
      var recs := env.satcatReply.records;
      [SatcatBatch(recs, env.satcatFailsAt.None? || env.satcatFailsAt.value > |recs|)]
    else
      []
  }

  /** What a process does before it chooses the GP targets. */
  function BeforeActions(t: Tables, env: Env): seq<Action> {
    match env.fatal
    case BeforeSatcatStamp => []
    case BeforeGpStamp => StampActions(SatcatDue(t, env), "satcat", env.satcatStamp)
    case _ =>
      StampActions(SatcatDue(t, env), "satcat", env.satcatStamp)
      + StampActions(GpDue(t, env), "gp", env.gpStamp) + ImportActions(t, env)
  }

  function HourOf(t: Tables, env: Env): Hour
    requires env.gpReply.Records? ==> |env.oracles| == |env.gpReply.records|
  {
    Hour(BeforeActions(t, env),
         if GpResponseProcessed(t, env) then RecordActions(env.gpReply.records, env.oracles) else [],
         Completes(t, env), env.now)
  }

  lemma RunOne(t: Tables, a: Action)
    ensures Run(t, [a]) == Step(t, a)
  {
    assert [a][..0] == [];
  }

  lemma {:induction false} RunAppend(t: Tables, a: seq<Action>, b: seq<Action>)
    ensures Run(t, a + b) == Run(Run(t, a), b)
  {
    hide Step;
    if b == [] {
      assert a + b == a;
    } else {
      RunAppend(t, a, b[..|b| - 1]);
      assert (a + b)[..|a + b| - 1] == a + b[..|b| - 1];
    }
  }

  lemma StampsRun(t: Tables, due: bool, poller: string, now: int)
    ensures Run(t, StampActions(due, poller, now)) == WithMark(t, due, poller, now)
  {
    if due {
      RunOne(t, Stamp(poller, now));
    }
  }

  lemma BeforeActionsRun(t: Tables, env: Env)
    requires env.fatal.Stamps()
    ensures Run(t, BeforeActions(t, env)) == BeforeGp(t, env)
  {
    hide UpsertAll, Run, SatcatDue, GpDue, StampActions;
    var s1 := StampActions(SatcatDue(t, env), "satcat", env.satcatStamp);
    var s2 := StampActions(GpDue(t, env), "gp", env.gpStamp);
    var s3 := ImportActions(t, env);
    RunAppend(t, s1 + s2, s3);
    RunAppend(t, s1, s2);
    StampsRun(t, SatcatDue(t, env), "satcat", env.satcatStamp);
    StampsRun(WithMark(t, SatcatDue(t, env), "satcat", env.satcatStamp), GpDue(t, env), "gp", env.gpStamp);
    ImportRun(t, env);
  }

  lemma ImportRun(t: Tables, env: Env)
    ensures Run(AfterStamps(t, env), ImportActions(t, env)) == BeforeGp(t, env)
  {
    hide UpsertAll, AfterStamps, SatcatDue;
    if ImportActions(t, env) != [] {
      RunOne(AfterStamps(t, env), ImportActions(t, env)[0]);
    }
  }

  /** Each process is one hour of the sweep: its stamps and import, its targets, its records, its cursor write. */
  lemma ProcessIsHour(t: Tables, env: Env)
    requires OraclesFor(env.gpReply, env.oracles)
    ensures AfterProcess(t, env) == AfterHour(t, HourOf(t, env))
    ensures env.fatal.Never? ==> Run(t, HourOf(t, env).before) == BeforeGp(t, env)
  {
    hide HotOf, BatchOf, BeforeGp, SatcatDue, GpDue, GpAuthenticated, ProcessAll;
    match env.fatal
    case Never =>
      BeforeActionsRun(t, env);
      ResponseRun(t, env);
    case BeforeGpTargets =>
      BeforeActionsRun(t, env);
    case BeforeGpStamp =>
      StampsRun(t, SatcatDue(t, env), "satcat", env.satcatStamp);
    case BeforeSatcatStamp =>
  }

  lemma ResponseRun(t: Tables, env: Env)
    requires OraclesFor(env.gpReply, env.oracles) && env.fatal.Never?
    ensures Run(BeforeGp(t, env), HourOf(t, env).during)
            == if GpResponseProcessed(t, env) then ProcessAll(BeforeGp(t, env), env.gpReply.records, env.oracles)
               else BeforeGp(t, env)
  {
    hide GpResponseProcessed, BeforeGp, ProcessAll, Completes, BeforeActions;
    if GpResponseProcessed(t, env) {
      assert env.gpReply.Records? by {
        ProcessedHasRecords(t, env);
      }
      ResponseIsRun(BeforeGp(t, env), env.gpReply.records, env.oracles);
    }
  }

  lemma ProcessedHasRecords(t: Tables, env: Env)
    requires GpResponseProcessed(t, env)
    ensures env.gpReply.Records?
  {
  }

  lemma HourIsBackground(t: Tables, env: Env)
    requires OraclesFor(env.gpReply, env.oracles)
    ensures Background(HourOf(t, env).before) && Background(HourOf(t, env).during)
  {
    hide SatcatDue, GpDue, Completes, GpResponseProcessed;
  }

  // ----- one process and the scheduler -----

  /** The process as the scheduler sees it. */
  function InvocationOf(t: Tables, env: Env): Scheduler.Invocation {
    Scheduler.Invocation(
      env.satcatCheck, env.gpCheck, env.satcatStamp, env.gpStamp, env.gpRequest, env.now, env.fatal,
      SentUrl(t, env).Some?,
      if Completes(t, env) && BatchOf(BeforeGp(t, env)) != [] then Some(Rotation.Last(BatchOf(BeforeGp(t, env)))) else None)
  }

  /** The process writes the poller's stamp. */
  predicate Stamps(t: Tables, env: Env, p: Scheduler.Poller) {
    match p
    case Satcat => !env.fatal.BeforeSatcatStamp? && SatcatDue(t, env)
    case Gp => env.fatal.Stamps() && GpDue(t, env)
  }

  lemma StampsAgree(t: Tables, env: Env, p: Scheduler.Poller)
    ensures Scheduler.Stamped(t.pollers, InvocationOf(t, env), p) == Stamps(t, env, p)
  {
    hide SentUrl, Completes, HotOf, BatchOf, BeforeGp, IsDue;
  }

  /** So every result about stamps holds of the process itself. */
  lemma ProcessIsInvocation(t: Tables, env: Env)
    requires OraclesFor(env.gpReply, env.oracles)
    ensures AfterProcess(t, env).pollers == Scheduler.After(t.pollers, InvocationOf(t, env))
  {
    StampsAgree(t, env, Scheduler.Poller.Satcat);
    StampsAgree(t, env, Scheduler.Poller.Gp);
    hide SentUrl, UpsertAll, ProcessAll, HotOf, BatchOf, Marked, IsDue, WithCursor, Scheduler.Stamped;
    BeforeGpPollers(t, env);
    if env.gpReply.Records? {
      InsertedCountsRows(BeforeGp(t, env), env.gpReply.records, env.oracles);
    }
  }

  lemma BeforeGpPollers(t: Tables, env: Env)
    ensures BeforeGp(t, env).pollers == AfterStamps(t, env).pollers
  {
    hide UpsertAll;
    SatcatKeepsPollers(AfterStamps(t, env), if env.satcatReply.Records? then env.satcatReply.records else []);
  }

  // ----- what is requested -----

  /** The ids the server is asked for: what the URL the process sends reads back as. */
  function AskedFor(t: Tables, env: Env): seq<int> {
    match SentUrl(t, env)
    case Some(url) => RequestedBy(url).GetOr([])
    case None => []
  }

  lemma AskedForTargets(t: Tables, env: Env)
    ensures AskedFor(t, env) == if SentUrl(t, env).Some? then Targets(t, env) else []
    ensures Completes(t, env) ==> AskedFor(t, env) == Targets(t, env)
  {
    hide RequestedBy, QueryUrl, HotOf, BatchOf, BeforeGp;
    if Targets(t, env) != [] {
      UrlRequests(Targets(t, env));
    }
  }

  lemma EligibleAfterHot(t: Tables)
    ensures Elements(HotOf(t)) <= Live(t.objects) && Distinct(HotOf(t))
    ensures Elements(HotOf(t)) !! Rotation.Eligible(Live(t.objects), Elements(HotOf(t)))
  {
    hide HotTargets, OrderBy, Outranks;
    HotTargetsRanked(t.objects, Rotation.MAX_HOT_SLOTS);
  }

  /** What is asked for, on the rows: the 200 best of the hot rows, and the rotation's share of the other rows. */
  lemma TargetRows(t: Tables)
    ensures var (hot, batch) := (HotOf(t), BatchOf(t));
            && RankedCut(t.objects, 200, hot)
            && RotationRows(t.objects, StoredCursor(t.pollers), 500 - |hot|, hot, batch)
            && (forall id :: id in hot + batch ==> id in t.objects && t.objects[id].decayDate == None)
  {
    hide HotTargets, Rotation.NextBatch, Live, Outranks, Rotation.InArc, StoredCursor;
    HotTargetsRanked(t.objects, 200);
    BatchIsRotationRows(t.objects, StoredCursor(t.pollers), 500 - |HotOf(t)|, HotOf(t));
  }

  /** A request has a target exactly when some row is not decayed. */
  lemma TargetsExistIff(t: Tables)
    ensures HotOf(t) + BatchOf(t) != [] <==> exists id :: id in t.objects && t.objects[id].decayDate == None
  {
    TargetRows(t);
    hide HotOf, BatchOf, RankedCut;
    var (hot, batch) := (HotOf(t), BatchOf(t));
    var all := set id | id in t.objects && t.objects[id].decayDate == None && id !in hot;
    if hot + batch == [] {
      assert hot == [] && batch == [];
      assert forall id :: id in all ==> id in batch;
      assert forall id :: id in t.objects && t.objects[id].decayDate == None ==> id in all;
    } else {
      var id := (hot + batch)[0];
      assert id in hot + batch;
      assert id in t.objects && t.objects[id].decayDate == None;
    }
  }

  /**
   * At most 500 ids, of rows without a decay date, are asked for in one
   * request; no id twice, exactly when the rows that are not hot fill the
   * rotation quota or none of them lies past the cursor.
   */
  lemma RequestAssembly(t: Tables)
    ensures var (hot, batch) := (HotOf(t), BatchOf(t));
            var others := set id | id in t.objects && t.objects[id].decayDate == None && id !in hot;
            && |hot| <= 200 && |hot + batch| <= 500
            && (forall id :: id in hot + batch ==> id in t.objects && t.objects[id].decayDate == None)
            && (|others| >= 500 - |hot| ==> |hot + batch| == 500)
            && (Distinct(hot + batch)
                <==> |others| >= 500 - |hot| || forall id :: id in others ==> id <= StoredCursor(t.pollers))
  {
    hide HotOf, RankedCut, Rotation.BatchFrom, StoredCursor, Rotation.InArc;
    var hot, batch := HotOf(t), BatchOf(t);
    var quota := Rotation.BATCH_SIZE - |hot|;
    var eligible := Rotation.Eligible(Live(t.objects), Elements(hot));
    var others := set id | id in t.objects && t.objects[id].decayDate == None && id !in hot;
    TargetRows(t);
    assert others == eligible;
    EligibleAfterHot(t);
    Rotation.BatchIsEligible(eligible, StoredCursor(t.pollers), quota);
    Rotation.BatchDistinctIff(eligible, StoredCursor(t.pollers), quota);
    DistinctTail(hot, batch);
    if Distinct(batch) {
      DistinctJoin(hot, batch);
    }
  }

  /**
   * When a process asks for anything: it gets that far, its GP stamp is at
   * least 55 minutes old or missing, a login of either poller worked, and some
   * row is not decayed after the import.
   */
  lemma SendsIff(t: Tables, env: Env)
    ensures SentUrl(t, env).Some?
            <==> && env.fatal.Never?
                 && ("gp" in t.pollers ==> env.gpCheck - t.pollers["gp"].lastRunAt >= 3300_000_000)
                 && (env.gpLogin
                     || (env.satcatLogin
                         && ("satcat" in t.pollers ==> env.satcatCheck - t.pollers["satcat"].lastRunAt >= 86100_000_000)))
                 && exists id :: id in BeforeGp(t, env).objects && BeforeGp(t, env).objects[id].decayDate == None
  {
    hide HotOf, BatchOf, BeforeGp, QueryUrl, IsDue;
    DueInSeconds(t.pollers, "gp", env.gpCheck);
    DueInSeconds(t.pollers, "satcat", env.satcatCheck);
    TargetsExistIff(BeforeGp(t, env));
  }

  /** A due GP run with a login but no target ends the process with an exception; so do the early faults. */
  lemma CrashesIff(t: Tables, env: Env)
    ensures Crashes(t, env)
            <==> || env.fatal.BeforeSatcatStamp? || env.fatal.BeforeGpStamp?
                 || (&& ("gp" in t.pollers ==> env.gpCheck - t.pollers["gp"].lastRunAt >= 3300_000_000)
                     && (env.fatal.BeforeGpTargets?
                         || (GpAuthenticated(t, env)
                             && forall id :: id in BeforeGp(t, env).objects ==>
                                  BeforeGp(t, env).objects[id].decayDate.Some?)))
  {
    hide HotOf, BatchOf, BeforeGp, IsDue, GpAuthenticated;
    DueInSeconds(t.pollers, "gp", env.gpCheck);
    TargetsExistIff(BeforeGp(t, env));
  }

  lemma DistinctTail(r: seq<int>, s: seq<int>)
    ensures Distinct(r + s) ==> Distinct(s)
  {
    if Distinct(r + s) {
      forall i, j | 0 <= i < j < |s|
        ensures s[i] != s[j]
      {
        assert (r + s)[|r| + i] == s[i] && (r + s)[|r| + j] == s[j];
      }
    }
  }

  /** No live id is passed over: the ids between the old and the new cursor were all requested. */
  lemma ProcessPassesNoLiveId(t: Tables, env: Env, x: int)
    requires OraclesFor(env.gpReply, env.oracles)
    requires Completes(t, env) && BatchOf(BeforeGp(t, env)) != []
    requires x in Live(BeforeGp(t, env).objects)
    requires Rotation.InArc(StoredCursor(t.pollers), x, StoredCursor(AfterProcess(t, env).pollers))
    ensures x in AskedFor(t, env)
  {
    AskedForTargets(t, env);
    hide AskedFor, HotOf, BeforeGp, Rotation.NextBatch, Rotation.InArc, StoredCursor, AfterProcess, Live;
    var t1 := BeforeGp(t, env);
    ProcessedResponseMovesCursor(t, env);
    StampsKeepCursor(t, env);
    var hot := HotOf(t1);
    Rotation.NoLiveIdPassedOver(Live(t1.objects), StoredCursor(t1.pollers), Rotation.BATCH_SIZE - |hot|, Elements(hot), x);
  }

  // ----- many processes -----

  /** Only a process writes poller_state. */
  ghost predicate LeavesPollers(actions: seq<Action>) {
    forall a :: a in actions ==> !a.MoveCursor? && !a.Stamp?
  }

  /** One process, and what everybody else did since the one before: lookups above all, which change the hot list. */
  datatype Turn = Turn(meanwhile: seq<Action>, env: Env)

  ghost predicate WellFormedTurn(turn: Turn) {
    OraclesFor(turn.env.gpReply, turn.env.oracles) && LeavesPollers(turn.meanwhile)
  }

  ghost predicate WellFormedTurns(turns: seq<Turn>) {
    forall turn :: turn in turns ==> WellFormedTurn(turn)
  }

  /** What the process finds. */
  function TurnStart(t: Tables, turn: Turn): Tables {
    Run(t, turn.meanwhile)
  }

  ghost function AfterTurn(t: Tables, turn: Turn): Tables
    requires WellFormedTurn(turn)
  {
    AfterProcess(TurnStart(t, turn), turn.env)
  }

  ghost function AfterProcesses(t: Tables, turns: seq<Turn>): Tables
    requires WellFormedTurns(turns)
    decreases |turns|
  {
    if turns == [] then t
    else
      assert turns[0] in turns;
      AfterProcesses(AfterTurn(t, turns[0]), turns[1..])
  }

  /** A turn as an hour of the sweep. */
  ghost function TurnHour(t: Tables, turn: Turn): Hour
    requires WellFormedTurn(turn)
  {
    var h := HourOf(TurnStart(t, turn), turn.env);
    h.(before := turn.meanwhile + h.before)
  }

  lemma {:induction false} MeanwhileKeepsPollers(t: Tables, actions: seq<Action>)
    requires LeavesPollers(actions)
    ensures Run(t, actions).pollers == t.pollers
  {
    hide UpsertAll, ProcessRecord;
    if actions != [] {
      var init, a := actions[..|actions| - 1], actions[|actions| - 1];
      assert a in actions;
      MeanwhileKeepsPollers(t, init);
      match a
      case SatcatBatch(recs, _) => SatcatKeepsPollers(Run(t, init), recs);
      case GpRecord(rec, oracle) => RecordKeepsPollers(Run(t, init), rec, oracle);
      case _ =>
    }
  }

  lemma TurnIsHour(t: Tables, turn: Turn)
    requires WellFormedTurn(turn)
    ensures AfterTurn(t, turn) == AfterHour(t, TurnHour(t, turn))
    ensures Background(TurnHour(t, turn).before) && Background(TurnHour(t, turn).during)
  {
    hide AfterProcess, BatchOf, Run, HourOf, Step;
    var start := TurnStart(t, turn);
    ProcessIsHour(start, turn.env);
    HourIsBackground(start, turn.env);
    RunAppend(t, turn.meanwhile, HourOf(start, turn.env).before);
  }

  lemma TurnChoice(t: Tables, turn: Turn)
    requires WellFormedTurn(turn)
    ensures turn.env.fatal.Never? ==> Run(t, TurnHour(t, turn).before) == BeforeGp(TurnStart(t, turn), turn.env)
    ensures TurnHour(t, turn).completed == Completes(TurnStart(t, turn), turn.env)
  {
    hide AfterProcess, BeforeGp, Run, BeforeActions;
    var start := TurnStart(t, turn);
    ProcessIsHour(start, turn.env);
    RunAppend(t, turn.meanwhile, HourOf(start, turn.env).before);
  }

  ghost function HoursOf(t: Tables, turns: seq<Turn>): (hours: seq<Hour>)
    requires WellFormedTurns(turns)
    ensures |hours| == |turns|
    decreases |turns|
  {
    if turns == [] then []
    else
      assert turns[0] in turns;
      [TurnHour(t, turns[0])] + HoursOf(AfterTurn(t, turns[0]), turns[1..])
  }

  /** How many of the processes complete their GP run. */
  ghost function CompletedProcesses(t: Tables, turns: seq<Turn>): nat
    requires WellFormedTurns(turns)
    decreases |turns|
  {
    if turns == [] then 0
    else
      assert turns[0] in turns;
      (if Completes(TurnStart(t, turns[0]), turns[0].env) then 1 else 0)
      + CompletedProcesses(AfterTurn(t, turns[0]), turns[1..])
  }

  /** Some process that completes its GP run asks for `x`. */
  ghost predicate PolledIn(t: Tables, turns: seq<Turn>, x: int)
    requires WellFormedTurns(turns)
    decreases |turns|
  {
    turns != [] &&
    assert turns[0] in turns;
    var (start, env) := (TurnStart(t, turns[0]), turns[0].env);
    ((Completes(start, env) && x in AskedFor(start, env)) || PolledIn(AfterTurn(t, turns[0]), turns[1..], x))
  }

  lemma {:induction false} ProcessesAreHours(t: Tables, turns: seq<Turn>, x: int)
    requires WellFormedTurns(turns)
    ensures WellFormed(HoursOf(t, turns))
    ensures AfterHours(t, HoursOf(t, turns)) == AfterProcesses(t, turns)
    ensures CompletedHours(HoursOf(t, turns)) == CompletedProcesses(t, turns)
    ensures RequestedIn(t, HoursOf(t, turns), x) <==> PolledIn(t, turns, x)
    decreases |turns|
  {
    hide WellFormedTurn, AfterTurn, AfterHour, TurnHour, TurnStart, HotOf, BatchOf, BeforeGp, Run, AskedFor, Background;
    if turns != [] {
      assert turns[0] in turns;
      TurnIsHour(t, turns[0]);
      TurnRequests(t, turns[0], x);
      ProcessesAreHours(AfterTurn(t, turns[0]), turns[1..], x);
      var hours := HoursOf(t, turns);
      assert hours[0] == TurnHour(t, turns[0]) && hours[1..] == HoursOf(AfterTurn(t, turns[0]), turns[1..]);
      assert forall h :: h in hours ==> h == hours[0] || h in hours[1..];
    }
  }

  lemma TurnRequests(t: Tables, turn: Turn, x: int)
    requires WellFormedTurn(turn)
    ensures var (h, start) := (TurnHour(t, turn), TurnStart(t, turn));
            && h.completed == Completes(start, turn.env)
            && (h.completed ==>
                  (x in AskedFor(start, turn.env) <==> x in HotOf(Run(t, h.before)) || x in BatchOf(Run(t, h.before))))
  {
    TurnChoice(t, turn);
    AskedForTargets(TurnStart(t, turn), turn.env);
    hide HotOf, BatchOf, BeforeGp, Run, AskedFor, TurnHour, TurnStart;
  }

  /** The SATCAT responses answer the query: no entry has a decay date. */
  ghost predicate TurnAsQueried(turn: Turn) {
    && AllAsQueried(turn.meanwhile)
    && (turn.env.satcatReply.Records? ==> AsQueried(turn.env.satcatReply.records))
  }

  ghost predicate TurnsAsQueried(turns: seq<Turn>) {
    forall turn :: turn in turns ==> TurnAsQueried(turn)
  }

  lemma TurnHourAsQueried(t: Tables, turn: Turn)
    requires WellFormedTurn(turn) && TurnAsQueried(turn)
    ensures AllAsQueried(TurnHour(t, turn).before) && AllAsQueried(TurnHour(t, turn).during)
  {
    hide HourOf, AsQueried;
    HourAsQueried(TurnStart(t, turn), turn.env);
  }

  lemma {:induction false} HoursAsQueried(t: Tables, turns: seq<Turn>)
    requires WellFormedTurns(turns) && TurnsAsQueried(turns)
    ensures ImportsAsQueried(HoursOf(t, turns))
    decreases |turns|
  {
    hide AfterTurn, TurnHour, AllAsQueried, TurnAsQueried, WellFormedTurn;
    if turns != [] {
      assert turns[0] in turns;
      TurnHourAsQueried(t, turns[0]);
      HoursAsQueried(AfterTurn(t, turns[0]), turns[1..]);
      var hours := HoursOf(t, turns);
      assert forall h :: h in hours ==> h == TurnHour(t, turns[0]) || h in hours[1..];
    }
  }

  lemma HourAsQueried(t: Tables, env: Env)
    requires OraclesFor(env.gpReply, env.oracles)
    requires env.satcatReply.Records? ==> AsQueried(env.satcatReply.records)
    ensures AllAsQueried(HourOf(t, env).before) && AllAsQueried(HourOf(t, env).during)
  {
    hide SatcatDue, GpDue, Completes, GpResponseProcessed, AsQueried;
  }

  /**
   * End to end: once an object is in the catalog, then over any sequence of
   * processes with any logins, failures and imports, and with any lookups in
   * between to reshuffle the hot list, it has been asked for by the time
   * ceil(n / 300) GP runs have completed, `n` being the number of live objects
   * at the end.
   */
  lemma EveryObjectIsPolled(t: Tables, turns: seq<Turn>, x: int)
    requires WellFormedTurns(turns) && TurnsAsQueried(turns) && x in Live(t.objects)
    requires CompletedProcesses(t, turns) >= (|Live(AfterProcesses(t, turns).objects)| + 299) / 300
    ensures PolledIn(t, turns, x)
  {
    ProcessesAreHours(t, turns, x);
    HoursAsQueried(t, turns);
    EveryImportedObjectIsPolled(t, HoursOf(t, turns), x);
  }

  /** Every process keeps the tables' integrity. */
  lemma ProcessKeepsIntegrity(t: Tables, env: Env)
    requires OraclesFor(env.gpReply, env.oracles) && Integrity(t)
    ensures Integrity(AfterProcess(t, env)) && Extends(t, AfterProcess(t, env))
  {
    hide Integrity, Step, HourOf, BatchOf;
    ProcessIsHour(t, env);
    var h := HourOf(t, env);
    RunKeepsIntegrity(t, h.before);
    RunKeepsIntegrity(Run(t, h.before), h.during);
    if h.completed && BatchOf(Run(t, h.before)) != [] {
      StepKeepsIntegrity(Run(Run(t, h.before), h.during), MoveCursor(Rotation.Last(BatchOf(Run(t, h.before))), h.now));
    }
  }

  // ----- processes as runs of the system -----

  function HourActions(t: Tables, h: Hour): seq<Action> {
    var chosen := Run(t, h.before);
    h.before + h.during
    + if h.completed && BatchOf(chosen) != [] then [MoveCursor(Rotation.Last(BatchOf(chosen)), h.now)] else []
  }

  lemma HourIsRun(t: Tables, h: Hour)
    ensures AfterHour(t, h) == Run(t, HourActions(t, h))
  {
    hide Run, Step, BatchOf;
    var chosen := Run(t, h.before);
    RunAppend(t, h.before, h.during);
    if h.completed && BatchOf(chosen) != [] {
      var move := MoveCursor(Rotation.Last(BatchOf(chosen)), h.now);
      RunAppend(t, h.before + h.during, [move]);
      RunOne(Run(t, h.before + h.during), move);
    } else {
      assert h.before + h.during + [] == h.before + h.during;
    }
  }

  ghost function ActionsOf(t: Tables, turns: seq<Turn>): seq<Action>
    requires WellFormedTurns(turns)
    decreases |turns|
  {
    if turns == [] then []
    else
      assert turns[0] in turns;
      HourActions(t, TurnHour(t, turns[0])) + ActionsOf(AfterTurn(t, turns[0]), turns[1..])
  }

  /** So every result about runs holds of the deployed processes. */
  lemma {:induction false} ProcessesAreRun(t: Tables, turns: seq<Turn>)
    requires WellFormedTurns(turns)
    ensures AfterProcesses(t, turns) == Run(t, ActionsOf(t, turns))
    decreases |turns|
  {
    hide AfterTurn, AfterHour, HourActions, TurnHour, Run, WellFormedTurn;
    if turns == [] {
      assert Run(t, []) == t by {
        RunNothing(t);
      }
    } else {
      assert turns[0] in turns;
      TurnIsHour(t, turns[0]);
      HourIsRun(t, TurnHour(t, turns[0]));
      ProcessesAreRun(AfterTurn(t, turns[0]), turns[1..]);
      RunAppend(t, HourActions(t, TurnHour(t, turns[0])), ActionsOf(AfterTurn(t, turns[0]), turns[1..]));
    }
  }

  lemma RunNothing(t: Tables)
    ensures Run(t, []) == t
  {
  }
}
