/** Sequences of processes in time: how often they stamp and ask, and how soon every object is asked for. */
module Cadence {
  import opened Prelude
  import opened Tables
  import opened Text
  import opened System
  import opened SatcatLog
  import opened Sweep
  import opened Pollers
  import opened ProcessRuns
  import Rotation
  import Scheduler

  // ----- processes as invocations -----

  /** The process of a turn as the scheduler sees it. */
  function TurnInvocation(t: Tables, turn: Turn): Scheduler.Invocation {
    InvocationOf(TurnStart(t, turn), turn.env)
  }

  lemma TurnIsInvocation(t: Tables, turn: Turn)
    requires WellFormedTurn(turn)
    ensures AfterTurn(t, turn).pollers == Scheduler.After(t.pollers, TurnInvocation(t, turn))
  {
    hide AfterProcess, InvocationOf, Scheduler.After, Run;
    MeanwhileKeepsPollers(t, turn.meanwhile);
    ProcessIsInvocation(TurnStart(t, turn), turn.env);
  }

  lemma TurnStampsAgree(t: Tables, turn: Turn, p: Scheduler.Poller)
    requires WellFormedTurn(turn)
    ensures Scheduler.Stamped(t.pollers, TurnInvocation(t, turn), p) == Stamps(TurnStart(t, turn), turn.env, p)
  {
    hide Stamps, InvocationOf, Scheduler.Stamped, Run;
    MeanwhileKeepsPollers(t, turn.meanwhile);
    StampsAgree(TurnStart(t, turn), turn.env, p);
  }

  ghost function InvocationsOf(t: Tables, turns: seq<Turn>): (invs: seq<Scheduler.Invocation>)
    requires WellFormedTurns(turns)
    ensures |invs| == |turns|
    decreases |turns|
  {
    if turns == [] then []
    else
      assert turns[0] in turns;
      [TurnInvocation(t, turns[0])] + InvocationsOf(AfterTurn(t, turns[0]), turns[1..])
  }

  lemma {:induction false} AfterAllFromFirst(table: Scheduler.PollerTable, invs: seq<Scheduler.Invocation>)
    requires invs != []
    ensures Scheduler.AfterAll(table, invs) == Scheduler.AfterAll(Scheduler.After(table, invs[0]), invs[1..])
  {
    hide Scheduler.After;
    var k := |invs| - 1;
    if k == 0 {
      assert invs[..0] == [] && invs[1..] == [];
    } else {
      AfterAllFromFirst(table, invs[..k]);
      assert invs[1..][..k - 1] == invs[..k][1..];
    }
  }

  /** The scheduler's table evolves as the processes' poller_state does. */
  lemma {:induction false} ProcessesAreInvocations(t: Tables, turns: seq<Turn>)
    requires WellFormedTurns(turns)
    ensures AfterProcesses(t, turns).pollers == Scheduler.AfterAll(t.pollers, InvocationsOf(t, turns))
    decreases |turns|
  {
    hide WellFormedTurn, AfterTurn, TurnInvocation, Scheduler.After;
    if turns != [] {
      assert turns[0] in turns;
      TurnIsInvocation(t, turns[0]);
      ProcessesAreInvocations(AfterTurn(t, turns[0]), turns[1..]);
      AfterAllFromFirst(t.pollers, InvocationsOf(t, turns));
      assert InvocationsOf(t, turns)[1..] == InvocationsOf(AfterTurn(t, turns[0]), turns[1..]);
    }
  }

  // ----- stamps and requests of processes -----

  /** When the processes stamp a poller. */
  ghost function StampTimes(t: Tables, turns: seq<Turn>, p: Scheduler.Poller): seq<int>
    requires WellFormedTurns(turns)
    decreases |turns|
  {
    if turns == [] then []
    else
      assert turns[0] in turns;
      var later := StampTimes(AfterTurn(t, turns[0]), turns[1..], p);
      var env := turns[0].env;
      if Stamps(TurnStart(t, turns[0]), env, p) then [if p.Satcat? then env.satcatStamp else env.gpStamp] + later
      else later
  }

  /** When the processes send their GP requests. */
  ghost function SentTimes(t: Tables, turns: seq<Turn>): seq<int>
    requires WellFormedTurns(turns)
    decreases |turns|
  {
    if turns == [] then []
    else
      assert turns[0] in turns;
      var later := SentTimes(AfterTurn(t, turns[0]), turns[1..]);
      if SentUrl(TurnStart(t, turns[0]), turns[0].env).Some? then [turns[0].env.gpRequest] + later else later
  }

  lemma {:induction false} StampsFromFirst(table: Scheduler.PollerTable, invs: seq<Scheduler.Invocation>, p: Scheduler.Poller)
    requires invs != []
    ensures var later := Scheduler.StampsOf(Scheduler.After(table, invs[0]), invs[1..], p);
            Scheduler.StampsOf(table, invs, p)
            == if Scheduler.Stamped(table, invs[0], p) then [invs[0].StampTime(p)] + later else later
  {
    hide Scheduler.After, Scheduler.Stamped;
    var k := |invs| - 1;
    if k == 0 {
      assert invs[..0] == [] && invs[1..] == [];
    } else {
      StampsFromFirst(table, invs[..k], p);
      assert invs[1..][..k - 1] == invs[..k][1..];
      AfterAllFromFirst(table, invs[..k]);
    }
  }

  lemma {:induction false} RequestsFromFirst(table: Scheduler.PollerTable, invs: seq<Scheduler.Invocation>)
    requires invs != []
    ensures var later := Scheduler.RequestsOf(Scheduler.After(table, invs[0]), invs[1..]);
            Scheduler.RequestsOf(table, invs)
            == if Scheduler.Stamped(table, invs[0], Scheduler.Poller.Gp) && invs[0].sends
               then [invs[0].gpRequest] + later else later
  {
    hide Scheduler.After, Scheduler.Stamped;
    var k := |invs| - 1;
    if k == 0 {
      assert invs[..0] == [] && invs[1..] == [];
    } else {
      RequestsFromFirst(table, invs[..k]);
      assert invs[1..][..k - 1] == invs[..k][1..];
      AfterAllFromFirst(table, invs[..k]);
    }
  }

  lemma SendingStamps(t: Tables, env: Env)
    ensures SentUrl(t, env).Some? ==> Stamps(t, env, Scheduler.Poller.Gp)
  {
  }

  lemma {:induction false} TimesAgree(t: Tables, turns: seq<Turn>, p: Scheduler.Poller)
    requires WellFormedTurns(turns)
    ensures StampTimes(t, turns, p) == Scheduler.StampsOf(t.pollers, InvocationsOf(t, turns), p)
    ensures SentTimes(t, turns) == Scheduler.RequestsOf(t.pollers, InvocationsOf(t, turns))
    decreases |turns|
  {
    hide WellFormedTurn, AfterTurn, TurnInvocation, TurnStart, Stamps, SentUrl, Scheduler.After, Scheduler.Stamped;
    if turns != [] {
      assert turns[0] in turns;
      var invs := InvocationsOf(t, turns);
      assert invs[1..] == InvocationsOf(AfterTurn(t, turns[0]), turns[1..]);
      TurnStampsAgree(t, turns[0], p);
      TurnStampsAgree(t, turns[0], Scheduler.Poller.Gp);
      SendingStamps(TurnStart(t, turns[0]), turns[0].env);
      TurnTimes(t, turns[0]);
      TurnIsInvocation(t, turns[0]);
      TimesAgree(AfterTurn(t, turns[0]), turns[1..], p);
      StampsFromFirst(t.pollers, invs, p);
      RequestsFromFirst(t.pollers, invs);
    }
  }

  predicate SameTimes(inv: Scheduler.Invocation, env: Env) {
    && inv.satcatCheck == env.satcatCheck && inv.gpCheck == env.gpCheck
    && inv.satcatStamp == env.satcatStamp && inv.gpStamp == env.gpStamp
    && inv.gpRequest == env.gpRequest && inv.end == env.now && inv.fatal == env.fatal
  }

  lemma TurnTimes(t: Tables, turn: Turn)
    ensures SameTimes(TurnInvocation(t, turn), turn.env)
    ensures TurnInvocation(t, turn).sends == SentUrl(TurnStart(t, turn), turn.env).Some?
  {
    hide SentUrl, Completes, BatchOf, BeforeGp, Run;
  }

  // ----- the request rate -----

  predicate InOrder(env: Env) {
    env.satcatCheck <= env.gpCheck <= env.satcatStamp <= env.gpStamp <= env.gpRequest <= env.now
  }

  /** Processes one after the other. */
  ghost predicate SequentialTurns(turns: seq<Turn>) {
    && (forall i :: 0 <= i < |turns| ==> InOrder(turns[i].env))
    && (forall i, j :: 0 <= i < j < |turns| ==> turns[i].env.now <= turns[j].env.satcatCheck)
  }

  /** The import and the logins between a GP stamp and its request take at most `delay`. */
  ghost predicate RequestsWithin(turns: seq<Turn>, delay: nat) {
    forall i :: 0 <= i < |turns| ==> turns[i].env.gpRequest <= turns[i].env.gpStamp + delay
  }

  lemma {:induction false} TimesMatch(t: Tables, turns: seq<Turn>)
    requires WellFormedTurns(turns)
    ensures forall i :: 0 <= i < |turns| ==> SameTimes(InvocationsOf(t, turns)[i], turns[i].env)
    decreases |turns|
  {
    hide WellFormedTurn, AfterTurn, TurnInvocation, SameTimes;
    if turns != [] {
      assert turns[0] in turns;
      TurnTimes(t, turns[0]);
      TimesMatch(AfterTurn(t, turns[0]), turns[1..]);
      forall i | 0 < i < |turns|
        ensures turns[i] == turns[1..][i - 1]
        ensures InvocationsOf(t, turns)[i] == InvocationsOf(AfterTurn(t, turns[0]), turns[1..])[i - 1]
      {
      }
    }
  }

  lemma TurnsAreSequential(t: Tables, turns: seq<Turn>, delay: nat)
    requires WellFormedTurns(turns) && SequentialTurns(turns)
    ensures Scheduler.Sequential(InvocationsOf(t, turns))
    ensures RequestsWithin(turns, delay) ==> Scheduler.DelayedAtMost(InvocationsOf(t, turns), delay)
  {
    hide InvocationsOf;
    TimesMatch(t, turns);
    assert forall i :: 0 <= i < |turns| ==> InOrder(turns[i].env);
  }

  /**
   * What Space-Track sees of processes that do not overlap, whatever they
   * import and however they fail: requests are 55 minutes less the delay
   * apart, and a window holds no more of them than that spacing allows.
   */
  lemma ProcessRequestRate(t: Tables, turns: seq<Turn>, delay: nat, start: int, length: nat)
    requires WellFormedTurns(turns) && SequentialTurns(turns) && RequestsWithin(turns, delay)
    ensures Scheduler.Spaced(SentTimes(t, turns), Scheduler.RequestGap(delay))
    ensures Scheduler.CountIn(SentTimes(t, turns), start, start + length)
            <= (length + delay) / Scheduler.Poller.Gp.MinGap() + 1
  {
    hide *;
    TimesAgree(t, turns, Scheduler.Poller.Gp);
    TurnsAreSequential(t, turns, delay);
    Scheduler.RequestsAreSpaced(t.pollers, InvocationsOf(t, turns), delay);
    Scheduler.RequestsInWindow(t.pollers, InvocationsOf(t, turns), delay, start, length);
  }

  /** The same for the stamps of either poller. */
  lemma ProcessStampRate(t: Tables, turns: seq<Turn>, p: Scheduler.Poller, start: int, length: nat)
    requires WellFormedTurns(turns) && SequentialTurns(turns)
    ensures Scheduler.Spaced(StampTimes(t, turns, p), p.MinGap())
    ensures Scheduler.CountIn(StampTimes(t, turns, p), start, start + length) <= length / p.MinGap() + 1
  {
    TimesAgree(t, turns, p);
    TurnsAreSequential(t, turns, 0);
    Scheduler.StampsAreSpaced(t.pollers, InvocationsOf(t, turns), p);
    Scheduler.StampsInWindow(t.pollers, InvocationsOf(t, turns), p, start, length);
  }

  // ----- hours until an object is asked for -----

  /** Cron fires every hour from `base`, and each process decides and stamps within five minutes of its tick. */
  ghost predicate HourlyTurns(turns: seq<Turn>, base: int) {
    forall k :: 0 <= k < |turns| ==>
      InOrder(turns[k].env)
      && base + Scheduler.HOUR * k <= turns[k].env.satcatCheck && turns[k].env.gpStamp <= base + Scheduler.HOUR * k + TOLERANCE
  }

  /** Process `k` of the sequence stamps the poller. */
  ghost predicate StampsAt(t: Tables, turns: seq<Turn>, p: Scheduler.Poller, k: nat)
    requires WellFormedTurns(turns) && k < |turns|
    decreases |turns|
  {
    assert turns[0] in turns;
    if k == 0 then Stamps(TurnStart(t, turns[0]), turns[0].env, p) else StampsAt(AfterTurn(t, turns[0]), turns[1..], p, k - 1)
  }

  lemma {:induction false} StampsAtAgrees(t: Tables, turns: seq<Turn>, p: Scheduler.Poller, k: nat)
    requires WellFormedTurns(turns) && k < |turns|
    ensures var invs := InvocationsOf(t, turns);
            StampsAt(t, turns, p, k) <==> Scheduler.Stamped(Scheduler.AfterAll(t.pollers, invs[..k]), invs[k], p)
    decreases |turns|
  {
    hide WellFormedTurn, AfterTurn, TurnStart, Stamps, TurnInvocation, Scheduler.After, Scheduler.Stamped;
    assert turns[0] in turns;
    var invs := InvocationsOf(t, turns);
    if k == 0 {
      assert invs[..0] == [];
      TurnStampsAgree(t, turns[0], p);
    } else {
      TurnIsInvocation(t, turns[0]);
      StampsAtAgrees(AfterTurn(t, turns[0]), turns[1..], p, k - 1);
      assert invs[1..] == InvocationsOf(AfterTurn(t, turns[0]), turns[1..]);
      AfterAllFromFirst(t.pollers, invs[..k]);
      assert invs[..k][1..] == invs[1..][..k - 1];
    }
  }

  /**
   * No tick is skipped, of processes: hourly ones that get to their stamps run
   * each poller at exactly every period from one period after the tick it was
   * last stamped at, `ago` ticks before the first of them, or from the start
   * when that is past.
   */
  lemma ProcessTicks(t: Tables, turns: seq<Turn>, base: int, p: Scheduler.Poller, ago: nat, k: nat)
    requires WellFormedTurns(turns) && HourlyTurns(turns, base) && k < |turns|
    requires forall turn :: turn in turns ==> turn.env.fatal.Stamps()
    requires var last := Scheduler.LastRun(t.pollers, p);
             last.Some? ==> 0 <= last.value - (base - Scheduler.HOUR * ago) <= TOLERANCE
    ensures var first := if Scheduler.LastRun(t.pollers, p).None? || ago >= p.Period() then 0 else p.Period() - ago;
            StampsAt(t, turns, p, k) <==> k >= first && (k - first) % p.Period() == 0
  {
    hide *;
    HourlyInvocations(t, turns, base);
    StampsAtAgrees(t, turns, p, k);
    Scheduler.NoTickIsSkipped(t.pollers, InvocationsOf(t, turns), base, p, k);
    Scheduler.FirstDueTick(t.pollers, InvocationsOf(t, turns), base, p, ago);
    if k >= Scheduler.FirstDue(t.pollers, InvocationsOf(t, turns), p) {
      assert Scheduler.FirstDue(t.pollers, InvocationsOf(t, turns), p)
             == if Scheduler.LastRun(t.pollers, p).None? || ago >= p.Period() then 0 else p.Period() - ago;
    }
  }

  lemma HourlyInvocations(t: Tables, turns: seq<Turn>, base: int)
    requires WellFormedTurns(turns) && HourlyTurns(turns, base)
    requires forall turn :: turn in turns ==> turn.env.fatal.Stamps()
    ensures Scheduler.Hourly(InvocationsOf(t, turns), base)
  {
    hide InvocationsOf;
    TimesMatch(t, turns);
    forall k | 0 <= k < |turns|
      ensures InOrder(turns[k].env) && turns[k].env.fatal.Stamps()
    {
      assert turns[k] in turns;
    }
  }

  /** Nothing goes wrong on the GP side. */
  predicate Answered(env: Env) {
    env.fatal.Never? && env.gpLogin && env.gpReply.Records? && !env.cursorFails
  }

  ghost predicate AllAnswered(turns: seq<Turn>) {
    forall turn :: turn in turns ==> Answered(turn.env)
  }

  lemma LiveMeansTargets(t: Tables, x: int)
    requires x in Live(t.objects)
    ensures HotOf(t) + BatchOf(t) != []
  {
    hide HotTargets, Rotation.BatchFrom, StoredCursor, Live;
    var hot := HotOf(t);
    var eligible := Rotation.Eligible(Live(t.objects), Elements(hot));
    var quota := Rotation.BATCH_SIZE - |hot|;
    if hot == [] {
      assert x in eligible;
      Rotation.BatchLength(eligible, StoredCursor(t.pollers), quota);
      if |eligible| < quota {
        Rotation.ShortBatchIsEverything(eligible, StoredCursor(t.pollers), quota);
        assert x in Elements(BatchOf(t));
      }
    }
  }

  lemma LiveAtTargets(t: Tables, turn: Turn, x: int)
    requires WellFormedTurn(turn) && turn.env.fatal.Never? && TurnAsQueried(turn)
    requires x in Live(t.objects)
    ensures x in Live(BeforeGp(TurnStart(t, turn), turn.env).objects) && x in Live(AfterTurn(t, turn).objects)
  {
    hide BeforeGp, AfterTurn, TurnHour, TurnStart, AfterHour, Run, Live, AllAsQueried, TurnAsQueried, WellFormedTurn;
    TurnIsHour(t, turn);
    TurnChoice(t, turn);
    TurnHourAsQueried(t, turn);
    HourKeepsLive(t, TurnHour(t, turn));
  }

  /** A process that finds GP due and is answered completes its run. */
  lemma AnsweredCompletes(t: Tables, env: Env, x: int)
    requires OraclesFor(env.gpReply, env.oracles) && Answered(env) && GpDue(t, env)
    requires x in Live(BeforeGp(t, env).objects)
    ensures Completes(t, env)
  {
    hide HotOf, BatchOf, BeforeGp, GpDue, SatcatDue, Live;
    LiveMeansTargets(BeforeGp(t, env), x);
  }

  /** An hourly process that is not early leaves GP due for the next tick. */
  lemma DueEveryHour(t: Tables, turn: Turn, base: int)
    requires WellFormedTurn(turn) && Answered(turn.env) && InOrder(turn.env)
    requires base <= turn.env.satcatCheck && turn.env.gpStamp <= base + TOLERANCE
    requires GpDueBy(t, base)
    ensures GpDue(TurnStart(t, turn), turn.env) && GpDueBy(AfterTurn(t, turn), base + Scheduler.HOUR)
  {
    hide AfterTurn, TurnStart, TurnInvocation, Scheduler.After, Run;
    TurnIsInvocation(t, turn);
    TurnStampsAgree(t, turn, Scheduler.Poller.Gp);
    TurnTimes(t, turn);
    Scheduler.LastRunAfter(t.pollers, TurnInvocation(t, turn), Scheduler.Poller.Gp);
  }

  /** The GP stamp is old enough at `now`. */
  predicate GpDueBy(t: Tables, now: int) {
    var last := Scheduler.LastRun(t.pollers, Scheduler.Poller.Gp);
    last.None? || last.value + Scheduler.Poller.Gp.MinGap() <= now
  }

  lemma {:induction false} AllComplete(t: Tables, turns: seq<Turn>, base: int, x: int)
    requires WellFormedTurns(turns) && TurnsAsQueried(turns) && AllAnswered(turns) && HourlyTurns(turns, base)
    requires GpDueBy(t, base) && x in Live(t.objects)
    ensures CompletedProcesses(t, turns) == |turns|
    decreases |turns|
  {
    hide AfterTurn, TurnStart, Completes, GpDueBy, GpDue, Live, BeforeGp, TurnAsQueried;
    if turns != [] {
      var turn := turns[0];
      assert turn in turns;
      DueEveryHour(t, turn, base);
      LiveAtTargets(t, turn, x);
      AnsweredCompletes(TurnStart(t, turn), turn.env, x);
      HourlyFromSecond(turns, base);
      AllComplete(AfterTurn(t, turn), turns[1..], base + Scheduler.HOUR, x);
    }
  }

  lemma HourlyFromSecond(turns: seq<Turn>, base: int)
    requires HourlyTurns(turns, base) && turns != []
    ensures HourlyTurns(turns[1..], base + Scheduler.HOUR)
  {
    forall k | 0 <= k < |turns[1..]|
      ensures InOrder(turns[1..][k].env)
      ensures base + Scheduler.HOUR + Scheduler.HOUR * k <= turns[1..][k].env.satcatCheck
      ensures turns[1..][k].env.gpStamp <= base + Scheduler.HOUR + Scheduler.HOUR * k + TOLERANCE
    {
      assert InOrder(turns[k + 1].env);
    }
  }

  // ----- the request gap is exact -----

  lemma CompletingSends(t: Tables, env: Env)
    requires Completes(t, env)
    ensures SentUrl(t, env).Some?
  {
    hide HotOf, BatchOf, BeforeGp, GpDue, GpAuthenticated, QueryUrl;
  }

  /** A process that is answered at once, except that its GP request waits for `delay`. */
  function QuickTurn(now: int, delay: nat): Turn {
    Turn([], Env(now, now, now, now, now + delay, now + delay, Scheduler.Never,
                 true, FetchFailed, None, true, Records([]), [], false))
  }

  /** A turn of an answered process that finds GP due and an object live sends a request. */
  lemma TurnSends(t: Tables, turn: Turn, base: int, x: int)
    requires WellFormedTurn(turn) && Answered(turn.env) && InOrder(turn.env) && TurnAsQueried(turn)
    requires base <= turn.env.satcatCheck && turn.env.gpStamp <= base + TOLERANCE
    requires GpDueBy(t, base) && x in Live(t.objects)
    ensures SentUrl(TurnStart(t, turn), turn.env).Some?
    ensures GpDueBy(AfterTurn(t, turn), base + Scheduler.HOUR) && x in Live(AfterTurn(t, turn).objects)
  {
    hide AfterTurn, TurnStart, Completes, GpDueBy, GpDue, Live, BeforeGp, TurnAsQueried, SentUrl;
    DueEveryHour(t, turn, base);
    LiveAtTargets(t, turn, x);
    AnsweredCompletes(TurnStart(t, turn), turn.env, x);
    CompletingSends(TurnStart(t, turn), turn.env);
  }

  lemma QuickTurnFacts(now: int, delay: nat)
    ensures var turn := QuickTurn(now, delay);
            && WellFormedTurn(turn) && Answered(turn.env) && InOrder(turn.env) && TurnAsQueried(turn)
            && turn.env.satcatCheck == turn.env.gpStamp == now && turn.env.gpRequest == turn.env.now == now + delay
  {
  }

  lemma QuickPair(last: int, wait: nat)
    requires wait <= last
    ensures var turns := [QuickTurn(0, wait), QuickTurn(last, 0)];
            WellFormedTurns(turns) && SequentialTurns(turns) && RequestsWithin(turns, wait)
  {
    hide WellFormedTurn, InOrder;
    QuickTurnFacts(0, wait);
    QuickTurnFacts(last, 0);
  }

  lemma FirstSends(t: Tables, turns: seq<Turn>)
    requires WellFormedTurns(turns) && turns != []
    requires SentUrl(TurnStart(t, turns[0]), turns[0].env).Some?
    ensures turns[0] in turns
    ensures SentTimes(t, turns) == [turns[0].env.gpRequest] + SentTimes(AfterTurn(t, turns[0]), turns[1..])
  {
    hide WellFormedTurn, AfterTurn, TurnStart, SentUrl;
    assert turns[0] in turns;
  }

  lemma NoTurnNoRequest(t: Tables)
    ensures SentTimes(t, []) == []
  {
  }

  lemma SingleTurn(turn: Turn)
    requires WellFormedTurn(turn)
    ensures WellFormedTurns([turn])
  {
    hide WellFormedTurn;
  }

  lemma BothSend(t: Tables, first: Turn, second: Turn)
    requires WellFormedTurn(first) && WellFormedTurn(second)
    requires SentUrl(TurnStart(t, first), first.env).Some?
    requires var between := AfterTurn(t, first); SentUrl(TurnStart(between, second), second.env).Some?
    ensures WellFormedTurns([first, second])
    ensures SentTimes(t, [first, second]) == [first.env.gpRequest, second.env.gpRequest]
  {
    hide WellFormedTurn, AfterTurn, TurnStart, SentUrl, SentTimes;
    var between := AfterTurn(t, first);
    assert [first, second][1..] == [second] && [second][1..] == [];
    SingleTurn(second);
    FirstSends(t, [first, second]);
    FirstSends(between, [second]);
    NoTurnNoRequest(AfterTurn(between, second));
  }

  /** Two processes, in any catalog that was never polled, whose requests are as close as their delay allows. */
  lemma ClosestRequests(t: Tables, x: int, wait: nat)
    requires t.pollers == map[] && x in Live(t.objects) && wait <= Scheduler.Poller.Gp.MinGap()
    ensures var turns := [QuickTurn(0, wait), QuickTurn(Scheduler.Poller.Gp.MinGap(), 0)];
            && WellFormedTurns(turns) && SequentialTurns(turns) && RequestsWithin(turns, wait)
            && SentTimes(t, turns) == [wait as int, Scheduler.Poller.Gp.MinGap()]
  {
    var last := Scheduler.Poller.Gp.MinGap();
    var (first, second) := (QuickTurn(0, wait), QuickTurn(last, 0));
    assert GpDueBy(t, -TOLERANCE);
    assert -TOLERANCE + Scheduler.HOUR == last && TOLERANCE >= 0;
    hide *;
    QuickPair(last, wait);
    QuickTurnFacts(0, wait);
    QuickTurnFacts(last, 0);
    TurnSends(t, first, -TOLERANCE, x);
    TurnSends(AfterTurn(t, first), second, last, x);
    BothSend(t, first, second);
  }

  ghost predicate ProcessesAlwaysSpaced(delay: nat, gap: int) {
    forall t, turns :: WellFormedTurns(turns) && SequentialTurns(turns) && RequestsWithin(turns, delay) ==>
      Scheduler.Spaced(SentTimes(t, turns), gap)
  }

  /**
   * What Space-Track can count on, exactly: processes whose requests wait up
   * to `delay` keep a gap if and only if it is at most 55 minutes less that.
   */
  lemma ProcessGapExact(delay: nat, gap: int)
    ensures ProcessesAlwaysSpaced(delay, gap) <==> gap <= Scheduler.RequestGap(delay)
  {
    hide WellFormedTurns, SequentialTurns, SentTimes;
    if gap <= Scheduler.RequestGap(delay) {
      forall t, turns | WellFormedTurns(turns) && SequentialTurns(turns) && RequestsWithin(turns, delay)
        ensures Scheduler.Spaced(SentTimes(t, turns), gap)
      {
        ProcessRequestRate(t, turns, delay, 0, 0);
      }
    } else {
      var last := Scheduler.Poller.Gp.MinGap();
      var wait := last - Scheduler.RequestGap(delay);
      var t := EMPTY_TABLES.(objects := map[1 := ObjectRow(None, None, None, None, None, None, None, None, 0, false)]);
      var turns := [QuickTurn(0, wait), QuickTurn(last, 0)];
      ClosestRequests(t, 1, wait);
      assert RequestsWithin(turns, delay);
      assert SentTimes(t, turns)[1] - SentTimes(t, turns)[1 - 1] < gap;
      assert !Scheduler.Spaced(SentTimes(t, turns), gap);
    }
  }

  // ----- the deadline -----

  /** Some process asks for `x`, and does so by the deadline. */
  ghost predicate PolledBy(t: Tables, turns: seq<Turn>, x: int, deadline: int)
    requires WellFormedTurns(turns)
    decreases |turns|
  {
    turns != [] &&
    assert turns[0] in turns;
    var turn := turns[0];
    ((x in AskedFor(TurnStart(t, turn), turn.env) && turn.env.gpRequest <= deadline)
     || PolledBy(AfterTurn(t, turns[0]), turns[1..], x, deadline))
  }

  lemma {:induction false} PolledInTime(t: Tables, turns: seq<Turn>, x: int, deadline: int)
    requires WellFormedTurns(turns) && PolledIn(t, turns, x)
    requires forall turn :: turn in turns ==> turn.env.gpRequest <= deadline
    ensures PolledBy(t, turns, x, deadline)
    decreases |turns|
  {
    hide WellFormedTurn, AfterTurn, TurnStart, Completes, AskedFor;
    assert turns[0] in turns;
    if !(Completes(TurnStart(t, turns[0]), turns[0].env) && x in AskedFor(TurnStart(t, turns[0]), turns[0].env)) {
      PolledInTime(AfterTurn(t, turns[0]), turns[1..], x, deadline);
    }
  }

  lemma AskedByDeadline(turns: seq<Turn>, base: int, delay: nat)
    requires HourlyTurns(turns, base) && RequestsWithin(turns, delay)
    ensures forall turn :: turn in turns ==>
              turn.env.gpRequest <= base + Scheduler.HOUR * (|turns| - 1) + TOLERANCE + delay
  {
    forall turn | turn in turns
      ensures turn.env.gpRequest <= base + Scheduler.HOUR * (|turns| - 1) + TOLERANCE + delay
    {
      var k :| 0 <= k < |turns| && turns[k] == turn;
      assert InOrder(turns[k].env);
    }
  }

  /**
   * The two cores together. Cron fires hourly, processes decide and stamp
   * within five minutes of their tick, requests follow their stamp within
   * `delay`, Space-Track answers, and visitors look up what they like. Then an object in the catalog is asked
   * for within ceil(n / 300) hours and that delay, `n` being the number of
   * live objects at the end.
   */
  lemma EveryObjectIsPolledInTime(t: Tables, turns: seq<Turn>, base: int, delay: nat, x: int)
    requires WellFormedTurns(turns) && TurnsAsQueried(turns) && AllAnswered(turns)
    requires HourlyTurns(turns, base) && RequestsWithin(turns, delay)
    requires GpDueBy(t, base) && x in Live(t.objects)
    requires |turns| >= (|Live(AfterProcesses(t, turns).objects)| + 299) / 300
    ensures PolledBy(t, turns, x, base + Scheduler.HOUR * (|turns| - 1) + TOLERANCE + delay)
  {
    hide *;
    AllComplete(t, turns, base, x);
    EveryObjectIsPolled(t, turns, x);
    AskedByDeadline(turns, base, delay);
    PolledInTime(t, turns, x, base + Scheduler.HOUR * (|turns| - 1) + TOLERANCE + delay);
  }
}
