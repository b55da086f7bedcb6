/**
 * Which pollers run in which cron invocation. Times are microseconds; invocations
 * do not overlap (no lock in the code enforces this), but within one the
 * checks, the stamps, the SATCAT import and the GP request each take time.
 */
module Scheduler {
  import opened Prelude
  import opened Tables

  const HOUR := 3600 * SECOND

  datatype Poller = Satcat | Gp {
    function Name(): string {
      match this
      case Satcat => "satcat"
      case Gp => "gp"
    }

    function Interval(): int {
      match this
      case Satcat => 24 * HOUR
      case Gp => HOUR
    }

    /** The interval in cron ticks. */
    function Period(): nat {
      match this
      case Satcat => 24
      case Gp => 1
    }

    /** The least distance the due check leaves between two stamps. */
    function MinGap(): int {
      Interval() - TOLERANCE
    }
  }

  type PollerTable = map<string, PollerRow>

  /** How far a process gets: a thrown exception ends it before the named step. */
  datatype Fatal = Never | BeforeSatcatStamp | BeforeGpStamp | BeforeGpTargets {
    /** Both stamps are reached. */
    predicate Stamps() {
      Never? || BeforeGpTargets?
    }
  }

  /**
   * One process: `now()` at each of its four scheduling statements, when its
   * GP run gets to the request and whether it sends one, when it ends, and the
   * cursor value the GP run stores, if any.
   */
  datatype Invocation = Invocation(
    satcatCheck: int, gpCheck: int, satcatStamp: int, gpStamp: int, gpRequest: int, end: int,
    fatal: Fatal, sends: bool, cursor: Option<int>)
  {
    predicate WellTimed() {
      satcatCheck <= gpCheck <= satcatStamp <= gpStamp <= gpRequest <= end
    }

    function Check(p: Poller): int {
      if p.Satcat? then satcatCheck else gpCheck
    }

    function StampTime(p: Poller): int {
      if p.Satcat? then satcatStamp else gpStamp
    }

    predicate Reaches(p: Poller) {
      if p.Satcat? then fatal != BeforeSatcatStamp else fatal.Stamps()
    }
  }

  /** Both decisions are taken on the table as the process found it, before either stamp. */
  predicate Stamped(table: PollerTable, inv: Invocation, p: Poller) {
    inv.Reaches(p) && IsDue(table, p.Name(), p.Interval(), inv.Check(p))
  }

  function AfterStamp(table: PollerTable, inv: Invocation, p: Poller, stamped: bool): PollerTable {
    if stamped then Marked(table, p.Name(), inv.StampTime(p)) else table
  }

  /** The poller table a process leaves. */
  function After(table: PollerTable, inv: Invocation): PollerTable {
    var t1 := AfterStamp(table, inv, Satcat, Stamped(table, inv, Satcat));
    var t2 := AfterStamp(t1, inv, Gp, Stamped(table, inv, Gp));
    if Stamped(table, inv, Gp) && inv.cursor.Some? then WithCursor(t2, inv.cursor.value, inv.end) else t2
  }

  function AfterAll(table: PollerTable, invs: seq<Invocation>): PollerTable {
    if invs == [] then table else After(AfterAll(table, invs[..|invs| - 1]), invs[|invs| - 1])
  }

  /** The times at which a poller was stamped over a run of processes. */
  function StampsOf(table: PollerTable, invs: seq<Invocation>, p: Poller): seq<int> {
    if invs == [] then []
    else
      var k := |invs| - 1;
      var earlier := StampsOf(table, invs[..k], p);
      if Stamped(AfterAll(table, invs[..k]), invs[k], p) then earlier + [invs[k].StampTime(p)] else earlier
  }

  /** The times of the GP requests. */
  function RequestsOf(table: PollerTable, invs: seq<Invocation>): seq<int> {
    if invs == [] then []
    else
      var k := |invs| - 1;
      var earlier := RequestsOf(table, invs[..k]);
      if Stamped(AfterAll(table, invs[..k]), invs[k], Gp) && invs[k].sends then earlier + [invs[k].gpRequest] else earlier
  }

  ghost predicate Sequential(invs: seq<Invocation>) {
    && (forall i :: 0 <= i < |invs| ==> invs[i].WellTimed())
    && (forall i, j :: 0 <= i < j < |invs| ==> invs[i].end <= invs[j].satcatCheck)
  }

  function LastRun(table: PollerTable, p: Poller): Option<int> {
    if p.Name() in table then Some(table[p.Name()].lastRunAt) else None
  }

  /** A process moves a poller's `last_run_at` to its own stamp, or not at all. */
  lemma LastRunAfter(table: PollerTable, inv: Invocation, p: Poller)
    ensures LastRun(After(table, inv), p)
            == if Stamped(table, inv, p) then Some(inv.StampTime(p)) else LastRun(table, p)
  {
  }

  lemma DueByLastRun(table: PollerTable, p: Poller, now: int)
    ensures IsDue(table, p.Name(), p.Interval(), now)
            <==> LastRun(table, p).None? || LastRun(table, p).value + p.MinGap() <= now
  {
  }

  // ----- safety -----

  ghost predicate Spaced(s: seq<int>, gap: int) {
    forall i :: 0 < i < |s| ==> s[i] - s[i - 1] >= gap
  }

  lemma {:induction false} LastRunIsLastStamp(table: PollerTable, invs: seq<Invocation>, p: Poller)
    ensures var stamps := StampsOf(table, invs, p);
            LastRun(AfterAll(table, invs), p)
            == if stamps == [] then LastRun(table, p) else Some(stamps[|stamps| - 1])
  {
    if invs != [] {
      var k := |invs| - 1;
      LastRunIsLastStamp(table, invs[..k], p);
      LastRunAfter(AfterAll(table, invs[..k]), invs[k], p);
    }
  }

  /**
   * Whatever happens in between, consecutive stamps of a poller are at least
   * its interval minus five minutes apart.
   */
  lemma {:induction false} StampsAreSpaced(table: PollerTable, invs: seq<Invocation>, p: Poller)
    requires Sequential(invs)
    ensures Spaced(StampsOf(table, invs, p), p.MinGap())
  {
    if invs != [] {
      var k := |invs| - 1;
      StampsAreSpaced(table, invs[..k], p);
      LastRunIsLastStamp(table, invs[..k], p);
    }
  }

  function CountIn(s: seq<int>, lo: int, hi: int): nat {
    if s == [] then 0
    else CountIn(s[..|s| - 1], lo, hi) + if lo <= s[|s| - 1] <= hi then 1 else 0
  }

  lemma {:induction false} SpacedIsIncreasing(s: seq<int>, gap: int, i: nat)
    requires Spaced(s, gap) && gap > 0 && i < |s| - 1
    ensures s[i] + gap <= s[|s| - 1]
    decreases |s| - i
  {
    assert s[i + 1] - s[i + 1 - 1] >= gap;
    if i + 1 < |s| - 1 {
      SpacedIsIncreasing(s, gap, i + 1);
    }
  }

  /** Counting up to `hi` or up to a later bound is the same when nothing lies in between. */
  lemma {:induction false} CountUpTo(s: seq<int>, lo: int, hi: int, bound: int)
    requires forall i :: 0 <= i < |s| ==> s[i] <= bound
    requires bound <= hi
    ensures CountIn(s, lo, hi) == CountIn(s, lo, bound)
    ensures bound < lo ==> CountIn(s, lo, bound) == 0
  {
    if s != [] {
      CountUpTo(s[..|s| - 1], lo, hi, bound);
    }
  }

  lemma {:induction false} WindowBound(s: seq<int>, gap: int, lo: int, hi: int)
    requires Spaced(s, gap) && gap > 0
    ensures CountIn(s, lo, hi) > 0 ==> (CountIn(s, lo, hi) - 1) * gap <= hi - lo
  {
    if s != [] {
      var init, last := s[..|s| - 1], s[|s| - 1];
      WindowBound(init, gap, lo, hi);
      if lo <= last <= hi {
        forall i | 0 <= i < |init|
          ensures init[i] <= last - gap
        {
          SpacedIsIncreasing(s, gap, i);
        }
        CountUpTo(init, lo, hi, last - gap);
        WindowBound(init, gap, lo, last - gap);
        OneMore(CountIn(init, lo, last - gap), gap, last - gap - lo, hi - lo);
      }
    }
  }

  lemma OneMore(count: nat, gap: int, room: int, total: int)
    requires count > 0 ==> (count - 1) * gap <= room
    requires gap > 0 && room + gap <= total && 0 <= total
    ensures (count + 1 - 1) * gap <= total
  {
    assert count > 0 ==> count * gap == (count - 1) * gap + gap;
  }

  /** Any window holds at most its length over the least gap, plus one. */
  lemma SpacedInWindow(s: seq<int>, gap: int, start: int, length: nat)
    requires Spaced(s, gap) && gap > 0
    ensures CountIn(s, start, start + length) <= length / gap + 1
  {
    var count := CountIn(s, start, start + length);
    WindowBound(s, gap, start, start + length);
    if count > 0 {
      MultipleFits(count - 1, gap, length);
    }
  }

  lemma MultipleFits(k: nat, gap: int, length: nat)
    requires gap > 0 && k * gap <= length
    ensures k <= length / gap
  {
    var excess := k - (length / gap + 1);
    assert excess * gap == k * gap - (length / gap + 1) * gap < 0;
    assert excess >= 0 ==> excess * gap >= 0;
  }

  /** Any window of a given length holds at most length / (interval - 5 min) + 1 stamps. */
  lemma StampsInWindow(table: PollerTable, invs: seq<Invocation>, p: Poller, start: int, length: nat)
    requires Sequential(invs)
    ensures CountIn(StampsOf(table, invs, p), start, start + length) <= length / p.MinGap() + 1
  {
    hide StampsOf, CountIn, Spaced;
    StampsAreSpaced(table, invs, p);
    SpacedInWindow(StampsOf(table, invs, p), p.MinGap(), start, length);
  }

  // ----- the exact gaps -----

  /** Between two runs of a poller nothing matters but the time from the stamp to the next check. */
  lemma DueAgainIff(table: PollerTable, invs: seq<Invocation>, p: Poller, i: nat, j: nat)
    requires i < j < |invs| && invs[j].Reaches(p)
    requires Stamped(AfterAll(table, invs[..i]), invs[i], p)
    requires forall k :: i < k < j ==> !Stamped(AfterAll(table, invs[..k]), invs[k], p)
    ensures Stamped(AfterAll(table, invs[..j]), invs[j], p)
            <==> invs[j].Check(p) - invs[i].StampTime(p) >= p.MinGap()
  {
    StillLastStamped(table, invs, p, i, j);
  }

  lemma {:induction false} StillLastStamped(table: PollerTable, invs: seq<Invocation>, p: Poller, i: nat, j: nat)
    requires i < j < |invs| && Stamped(AfterAll(table, invs[..i]), invs[i], p)
    requires forall k :: i < k < j ==> !Stamped(AfterAll(table, invs[..k]), invs[k], p)
    ensures LastRun(AfterAll(table, invs[..j]), p) == Some(invs[i].StampTime(p))
    decreases j
  {
    hide After, Stamped, LastRun;
    assert invs[..j][..j - 1] == invs[..j - 1] && invs[..j][j - 1] == invs[j - 1];
    LastRunAfter(AfterAll(table, invs[..j - 1]), invs[j - 1], p);
    assert AfterAll(table, invs[..j]) == After(AfterAll(table, invs[..j - 1]), invs[j - 1]);
    if j > i + 1 {
      StillLastStamped(table, invs, p, i, j - 1);
    }
  }

  /** A process all of whose statements run at once, except that its request waits for `delay`. */
  function Quick(now: int, delay: nat): Invocation {
    Invocation(now, now, now, now, now + delay, now + delay, Never, true, None)
  }

  lemma QuickPair(p: Poller, delay: nat)
    requires delay <= p.MinGap()
    ensures var invs := [Quick(0, delay), Quick(p.MinGap(), 0)];
            && Sequential(invs)
            && StampsOf(map[], invs, p) == [0, p.MinGap()]
            && (p.Gp? ==> RequestsOf(map[], invs) == [delay as int, p.MinGap()])
  {
    var a, b := Quick(0, delay), Quick(p.MinGap(), 0);
    assert [a, b][..1] == [a] && [a][..0] == [];
    assert AfterAll(map[], [a]) == After(map[], a);
    LastRunAfter(map[], a, p);
    assert Stamped(map[], a, p) && Stamped(After(map[], a), b, p);
    assert StampsOf(map[], [a], p) == [0];
    assert p.Gp? ==> RequestsOf(map[], [a]) == [delay as int];
  }

  ghost predicate StampsAlwaysSpaced(p: Poller, gap: int) {
    forall table, invs :: Sequential(invs) ==> Spaced(StampsOf(table, invs, p), gap)
  }

  /** No larger gap between stamps is guaranteed: 55 minutes for GP, not an hour. */
  lemma StampGapExact(p: Poller, gap: int)
    ensures StampsAlwaysSpaced(p, gap) <==> gap <= p.MinGap()
  {
    if gap <= p.MinGap() {
      forall table, invs | Sequential(invs)
        ensures Spaced(StampsOf(table, invs, p), gap)
      {
        StampsAreSpaced(table, invs, p);
      }
    } else {
      QuickPair(p, 0);
      assert [0, p.MinGap()][1] - [0, p.MinGap()][1 - 1] < gap;
      assert !Spaced(StampsOf(map[], [Quick(0, 0), Quick(p.MinGap(), 0)], p), gap);
    }
  }

  /** The SATCAT import and the login between a GP stamp and its request take at most `delay`. */
  ghost predicate DelayedAtMost(invs: seq<Invocation>, delay: nat) {
    forall i :: 0 <= i < |invs| ==> invs[i].gpRequest <= invs[i].gpStamp + delay
  }

  /** The last request went out no later than `delay` after the last stamp, and before its process ended. */
  lemma {:induction false} LastRequest(table: PollerTable, invs: seq<Invocation>, delay: nat)
    requires Sequential(invs) && DelayedAtMost(invs, delay)
    ensures var (requests, last) := (RequestsOf(table, invs), LastRun(AfterAll(table, invs), Gp));
            requests != [] ==>
              && last.Some? && invs != []
              && requests[|requests| - 1] <= last.value + delay
              && requests[|requests| - 1] <= invs[|invs| - 1].end
  {
    hide After;
    if invs != [] {
      var k := |invs| - 1;
      LastRequest(table, invs[..k], delay);
      LastRunAfter(AfterAll(table, invs[..k]), invs[k], Gp);
      if k > 0 {
        assert invs[k - 1].end <= invs[k].satcatCheck;
      }
    }
  }

  function RequestGap(delay: nat): nat {
    if delay <= Gp.MinGap() then Gp.MinGap() - delay else 0
  }

  lemma SpacedOneMore(s: seq<int>, x: int, gap: int)
    requires Spaced(s, gap) && (s != [] ==> x - s[|s| - 1] >= gap)
    ensures Spaced(s + [x], gap)
  {
    forall i | 0 < i < |s + [x]|
      ensures (s + [x])[i] - (s + [x])[i - 1] >= gap
    {
      if i < |s| {
        assert s[i] - s[i - 1] >= gap;
      }
    }
  }

  lemma {:induction false} RequestsAreSpaced(table: PollerTable, invs: seq<Invocation>, delay: nat)
    requires Sequential(invs) && DelayedAtMost(invs, delay)
    ensures Spaced(RequestsOf(table, invs), RequestGap(delay))
  {
    hide After, Spaced;
    if invs == [] {
      NothingSpaced(RequestGap(delay));
    } else {
      var k := |invs| - 1;
      RequestsAreSpaced(table, invs[..k], delay);
      LastRequest(table, invs[..k], delay);
      if k > 0 {
        assert invs[k - 1].end <= invs[k].satcatCheck;
      }
      if Stamped(AfterAll(table, invs[..k]), invs[k], Gp) && invs[k].sends {
        DueByLastRun(AfterAll(table, invs[..k]), Gp, invs[k].gpCheck);
        SpacedOneMore(RequestsOf(table, invs[..k]), invs[k].gpRequest, RequestGap(delay));
      }
    }
  }

  lemma NothingSpaced(gap: int)
    ensures Spaced([], gap)
  {
  }

  ghost predicate RequestsAlwaysSpaced(delay: nat, gap: int) {
    forall table, invs :: Sequential(invs) && DelayedAtMost(invs, delay) ==> Spaced(RequestsOf(table, invs), gap)
  }

  /**
   * GP requests follow their stamp only after the SATCAT import. When that
   * takes up to `delay`, the guaranteed gap between requests is 55 minutes
   * less the delay, and none at all from 55 minutes on.
   */
  lemma RequestGapExact(delay: nat, gap: int)
    ensures RequestsAlwaysSpaced(delay, gap) <==> gap <= RequestGap(delay)
  {
    if gap <= RequestGap(delay) {
      forall table, invs | Sequential(invs) && DelayedAtMost(invs, delay)
        ensures Spaced(RequestsOf(table, invs), gap)
      {
        RequestsAreSpaced(table, invs, delay);
      }
    } else {
      var wait := Gp.MinGap() - RequestGap(delay);
      var invs := [Quick(0, wait), Quick(Gp.MinGap(), 0)];
      QuickPair(Gp, wait);
      assert [wait, Gp.MinGap()][1] - [wait, Gp.MinGap()][1 - 1] < gap;
      assert !Spaced(RequestsOf(map[], invs), gap);
      assert DelayedAtMost(invs, delay);
    }
  }

  lemma CountOneMore(s: seq<int>, x: int, lo: int, hi: int)
    ensures CountIn(s + [x], lo, hi) == CountIn(s, lo, hi) + if lo <= x <= hi then 1 else 0
  {
    assert (s + [x])[..|s|] == s;
  }

  lemma {:induction false} RequestsWithinStamps(table: PollerTable, invs: seq<Invocation>, delay: nat, lo: int, hi: int)
    requires Sequential(invs) && DelayedAtMost(invs, delay)
    ensures CountIn(RequestsOf(table, invs), lo, hi) <= CountIn(StampsOf(table, invs, Gp), lo - delay, hi)
  {
    hide AfterAll, Stamped, CountIn, Sequential, DelayedAtMost;
    if invs == [] {
      assert RequestsOf(table, invs) == StampsOf(table, invs, Gp) == [];
      NothingCounted(lo, hi);
    } else {
      var init, inv := invs[..|invs| - 1], invs[|invs| - 1];
      DelayedPrefix(invs, delay);
      RequestsWithinStamps(table, init, delay, lo, hi);
      CountOneMore(RequestsOf(table, init), inv.gpRequest, lo, hi);
      CountOneMore(StampsOf(table, init, Gp), inv.gpStamp, lo - delay, hi);
    }
  }

  lemma NothingCounted(lo: int, hi: int)
    ensures CountIn([], lo, hi) == 0
  {
  }

  lemma DelayedPrefix(invs: seq<Invocation>, delay: nat)
    requires Sequential(invs) && DelayedAtMost(invs, delay) && invs != []
    ensures Sequential(invs[..|invs| - 1]) && DelayedAtMost(invs[..|invs| - 1], delay)
    ensures var inv := invs[|invs| - 1]; inv.gpStamp <= inv.gpRequest <= inv.gpStamp + delay
  {
    assert invs[|invs| - 1].WellTimed();
  }

  /** What the rate limit sees: requests in a window of a given length. */
  lemma RequestsInWindow(table: PollerTable, invs: seq<Invocation>, delay: nat, start: int, length: nat)
    requires Sequential(invs) && DelayedAtMost(invs, delay)
    ensures CountIn(RequestsOf(table, invs), start, start + length) <= (length + delay) / Gp.MinGap() + 1
  {
    RequestsWithinStamps(table, invs, delay, start, start + length);
    StampsInWindow(table, invs, Gp, start - delay, length + delay);
  }

  // ----- no tick is skipped -----

  /** Cron fires every hour from `base`; each process decides and stamps both pollers within five minutes of its tick. */
  ghost predicate Hourly(invs: seq<Invocation>, base: int) {
    forall k :: 0 <= k < |invs| ==>
      invs[k].WellTimed() && invs[k].fatal.Stamps()
      && base + HOUR * k <= invs[k].satcatCheck && invs[k].gpStamp <= base + HOUR * k + TOLERANCE
  }

  /** The first process that finds the poller due by the stamp in the table it starts from. */
  function FirstDue(table: PollerTable, invs: seq<Invocation>, p: Poller): (first: nat)
    ensures first <= |invs|
    ensures forall k :: 0 <= k < first ==> !IsDue(table, p.Name(), p.Interval(), invs[k].Check(p))
    ensures first < |invs| ==> IsDue(table, p.Name(), p.Interval(), invs[first].Check(p))
  {
    if invs == [] then 0
    else
      var k := |invs| - 1;
      var first := FirstDue(table, invs[..k], p);
      if first < k || IsDue(table, p.Name(), p.Interval(), invs[k].Check(p)) then first else |invs|
  }

  /** The tick at which process `k` finds the poller last stamped, or stamps it. */
  function LastTick(first: nat, p: Poller, k: nat): nat
    requires first <= k
  {
    first + (k - first) / p.Period() * p.Period()
  }

  lemma FirstTick(first: nat, p: Poller)
    ensures LastTick(first, p, first) == first
  {
  }

  lemma NextTick(first: nat, p: Poller, k: nat)
    requires first < k
    ensures k - LastTick(first, p, k - 1) >= p.Period() <==> (k - first) % p.Period() == 0
    ensures LastTick(first, p, k) == if (k - first) % p.Period() == 0 then k else LastTick(first, p, k - 1)
  {
  }

  /** A stamp and a check that each follow their tick by at most five minutes are a period apart when their ticks are. */
  lemma PeriodMargin(p: Poller, base: int, tick: int, last: int, k: int, check: int)
    requires 0 <= last - (base + HOUR * tick) <= TOLERANCE
    requires 0 <= check - (base + HOUR * k) <= TOLERANCE
    ensures last + p.MinGap() <= check <==> k - tick >= p.Period()
  {
  }

  lemma HourlyTimes(invs: seq<Invocation>, base: int, p: Poller, k: nat)
    requires Hourly(invs, base) && k < |invs|
    ensures 0 <= invs[k].Check(p) - (base + HOUR * k) <= TOLERANCE
    ensures 0 <= invs[k].StampTime(p) - (base + HOUR * k) <= TOLERANCE
    ensures invs[k].Reaches(p)
  {
    assert invs[k].WellTimed();
  }

  /** Before its first due tick a poller keeps its old stamp; from then on it has that of its last scheduled tick. */
  lemma {:induction false} LastStampedTick(table: PollerTable, invs: seq<Invocation>, base: int, p: Poller, first: nat)
    requires Hourly(invs, base) && invs != [] && first <= |invs|
    requires forall k :: 0 <= k < first ==> !IsDue(table, p.Name(), p.Interval(), invs[k].Check(p))
    requires first < |invs| ==> IsDue(table, p.Name(), p.Interval(), invs[first].Check(p))
    ensures var (k, last) := (|invs| - 1, LastRun(AfterAll(table, invs), p));
            if k < first then last == LastRun(table, p)
            else last.Some? && 0 <= last.value - (base + HOUR * LastTick(first, p, k)) <= TOLERANCE
    ensures var k := |invs| - 1;
            Stamped(AfterAll(table, invs[..k]), invs[k], p) <==> k >= first && (k - first) % p.Period() == 0
  {
    hide AfterAll, Stamped, Hourly, IsDue, LastRun, LastTick;
    var k := |invs| - 1;
    StampDecision(table, invs, base, p);
    DueByLastRun(table, p, invs[k].Check(p));
    if k == 0 {
      NoProcessYet(table, invs[..k]);
    } else {
      HourlyPrefix(invs, base);
      LastStampedTick(table, invs[..k], base, p, if first < k then first else k);
    }
    if k == first {
      FirstTick(first, p);
    } else if k > first {
      NextTick(first, p, k);
      PeriodMargin(p, base, LastTick(first, p, k - 1), LastRun(AfterAll(table, invs[..k]), p).value, k, invs[k].Check(p));
    }
  }

  lemma NoProcessYet(table: PollerTable, invs: seq<Invocation>)
    requires invs == []
    ensures AfterAll(table, invs) == table
  {
  }

  /** What the last of the hourly processes does, by the stamp it finds. */
  lemma StampDecision(table: PollerTable, invs: seq<Invocation>, base: int, p: Poller)
    requires Hourly(invs, base) && invs != []
    ensures var k := |invs| - 1;
            var (before, last) := (LastRun(AfterAll(table, invs[..k]), p), LastRun(AfterAll(table, invs), p));
            && (Stamped(AfterAll(table, invs[..k]), invs[k], p)
                <==> before.None? || before.value + p.MinGap() <= invs[k].Check(p))
            && 0 <= invs[k].Check(p) - (base + HOUR * k) <= TOLERANCE
            && (if Stamped(AfterAll(table, invs[..k]), invs[k], p)
                then last.Some? && 0 <= last.value - (base + HOUR * k) <= TOLERANCE
                else last == before)
  {
    hide After, Hourly, IsDue, LastRun;
    var k := |invs| - 1;
    var before := AfterAll(table, invs[..k]);
    HourlyTimes(invs, base, p, k);
    LastRunAfter(before, invs[k], p);
    DueByLastRun(before, p, invs[k].Check(p));
  }

  lemma HourlyPrefix(invs: seq<Invocation>, base: int)
    requires Hourly(invs, base) && invs != []
    ensures Hourly(invs[..|invs| - 1], base)
  {
  }

  /**
   * With hourly ticks and lags of at most five minutes each poller runs at
   * every `Period()`-th tick from the first one at which it is due, GP thus at
   * every tick, however long the work after the stamps takes.
   */
  lemma NoTickIsSkipped(table: PollerTable, invs: seq<Invocation>, base: int, p: Poller, k: nat)
    requires Hourly(invs, base) && k < |invs|
    ensures var first := FirstDue(table, invs, p);
            Stamped(AfterAll(table, invs[..k]), invs[k], p) <==> k >= first && (k - first) % p.Period() == 0
  {
    hide AfterAll, Stamped;
    var upTo, first := invs[..k + 1], FirstDue(table, invs, p);
    assert upTo[..k] == invs[..k];
    LastStampedTick(table, upTo, base, p, if first < k + 1 then first else k + 1);
  }

  /**
   * When a poller is first due: at once without a record, and otherwise one
   * period after the tick it was last stamped at, `ago` ticks before `base`.
   */
  lemma FirstDueTick(table: PollerTable, invs: seq<Invocation>, base: int, p: Poller, ago: nat)
    requires Hourly(invs, base)
    requires LastRun(table, p).Some? ==> 0 <= LastRun(table, p).value - (base - HOUR * ago) <= TOLERANCE
    ensures var wait := if LastRun(table, p).None? || ago >= p.Period() then 0 else p.Period() - ago;
            FirstDue(table, invs, p) == if wait <= |invs| then wait else |invs|
  {
    hide FirstDue, IsDue, LastRun, Hourly;
    forall k | 0 <= k < |invs|
      ensures IsDue(table, p.Name(), p.Interval(), invs[k].Check(p)) <==> LastRun(table, p).None? || k + ago >= p.Period()
    {
      HourlyTimes(invs, base, p, k);
      DueByLastRun(table, p, invs[k].Check(p));
      if LastRun(table, p).Some? {
        assert base + HOUR * -(ago as int) == base - HOUR * ago;
        PeriodMargin(p, base, -(ago as int), LastRun(table, p).value, k, invs[k].Check(p));
      }
    }
    var first := FirstDue(table, invs, p);
    var wait := if LastRun(table, p).None? || ago >= p.Period() then 0 else p.Period() - ago;
    if first < |invs| {
      assert IsDue(table, p.Name(), p.Interval(), invs[first].Check(p));
    }
    if wait < |invs| {
      assert IsDue(table, p.Name(), p.Interval(), invs[wait].Check(p));
    }
  }
}
