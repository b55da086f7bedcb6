/** The SATCAT events of one object over a whole run of the system. */
module SatcatLog {
  import opened Prelude
  import opened Rules
  import opened Tables
  import opened History
  import opened Satcat
  import opened System

  /** The states of object `n` in committed batches. */
  function IncomingStates(actions: seq<Action>, n: int): seq<ObjectState> {
    if actions == [] then []
    else
      var a := actions[|actions| - 1];
      IncomingStates(actions[..|actions| - 1], n)
      + if a.SatcatBatch? && a.committed then StatesFor(a.recs, n) else []
  }

  lemma StepKeepsSatcatLog(t: Tables, a: Action, n: int)
    requires !a.SatcatBatch?
    ensures StoredState(Step(t, a).objects, n) == StoredState(t.objects, n)
    ensures ObjectEventsOf(Step(t, a).events, n) == ObjectEventsOf(t.events, n)
  {
    if a.GpRecord? {
      hide ProcessRecord, ObjectEventsOf;
      GpRecordKeepsSatcatLog(t, a.rec, a.oracle, n);
    }
  }

  lemma GpRecordKeepsSatcatLog(t: Tables, rec: Snapshot, o: Oracle, n: int)
    ensures ProcessRecord(t, rec, o).0.objects == t.objects
    ensures ObjectEventsOf(ProcessRecord(t, rec, o).0.events, n) == ObjectEventsOf(t.events, n)
  {
    hide GpEvents, Latest, Stored, ObjectEventsOf;
    var prev := Latest(t.snapshots, rec.noradCatId, o.ties);
    if prev.Some? && Keeps(ProcessRecord(t, rec, o).1) {
      var added := WrittenEvents(prev.value, rec, NewRow(t, rec, o).id, o.fault);
      ObjectEventsOfAppend(t.events, added, n);
      TaggedAreNotSatcat(added, n);
    }
  }

  lemma {:induction false} TaggedAreNotSatcat(rows: seq<EventRow>, n: int)
    requires forall e :: e in rows ==> e.prevSnapshotId.Some?
    ensures ObjectEventsOf(rows, n) == []
  {
    if rows != [] {
      assert rows[|rows| - 1] in rows;
      TaggedAreNotSatcat(rows[..|rows| - 1], n);
    }
  }

  /** Over any run an object's SATCAT log is the fold of the rules over its committed states. */
  lemma {:induction false} SatcatLogOfRun(t: Tables, actions: seq<Action>, n: int)
    ensures var (start, states) := (StoredState(t.objects, n), IncomingStates(actions, n));
            && ObjectEventsOf(Run(t, actions).events, n) == ObjectEventsOf(t.events, n) + StateLog(start, states)
            && StoredState(Run(t, actions).objects, n) == Current(start, states)
  {
    hide UpsertAll, ProcessRecord, StatesFor, ObjectEventsOf;
    if actions != [] {
      var k := |actions| - 1;
      var init, a := actions[..k], actions[k];
      SatcatLogOfRun(t, init, n);
      var before := IncomingStates(init, n);
      if a.SatcatBatch? {
        if a.committed {
          BatchIsFoldPerObject(Run(t, init), a.recs, n);
          StateLogAppend(StoredState(t.objects, n), before, StatesFor(a.recs, n));
        } else {
          assert IncomingStates(actions, n) == before;
        }
      } else {
        assert IncomingStates(actions, n) == before;
        StepKeepsSatcatLog(Run(t, init), a, n);
      }
    }
  }

  /** After this run, replaying the log from the first sighted text gives the stored text. */
  predicate TextReplays(t: Tables, actions: seq<Action>, n: int, field: TextField, from: string) {
    var t' := Run(t, actions);
    n in t'.objects
    && Replays(from, ChangesIn(field, ObjectEventsOf(t'.events, n)), TextOf(field, StateOfRow(t'.objects[n])))
  }

  lemma FirstSightingIsQuiet(first: ObjectState)
    ensures StateLog(None, [first]) == []
  {
    assert [first][..0] == [];
  }

  /** The logged changes of states that start with a first sighting. */
  lemma ChangesOfSightings(field: TextField, states: seq<ObjectState>)
    requires states != []
    ensures ChangesIn(field, StateLog(None, states)) == TextChanges(TextsOf(field, states))
  {
    hide ChangesIn, Diff, TextChanges, TextOf, StateLog;
    var first, rest := states[0], states[1..];
    assert states == [first] + rest;
    FirstSightingIsQuiet(first);
    StateLogAppend(None, [first], rest);
    assert StateLog(None, states) == StateLog(Some(first), rest);
    LoggedChanges(field, first, rest);
  }

  /** What the run stored and logged, in terms of the texts alone. */
  lemma TextReplaysUnfold(t: Tables, actions: seq<Action>, n: int, field: TextField, from: string)
    requires n !in t.objects && ObjectEventsOf(t.events, n) == []
    ensures var texts := TextsOf(field, IncomingStates(actions, n));
            texts != [] ==>
              (TextReplays(t, actions, n, field, from) <==> Replays(from, TextChanges(texts), texts[|texts| - 1]))
  {
    hide Run, StateLog, ObjectEventsOf, IncomingStates, ChangesIn, Replays, TextChanges, TextOf;
    SatcatLogOfRun(t, actions, n);
    var states := IncomingStates(actions, n);
    if states != [] {
      assert [] + StateLog(None, states) == StateLog(None, states);
      ChangesOfSightings(field, states);
    }
  }

  /**
   * Replay: once `n` has been sighted in this run and its text (name, type or
   * size) was never missing, the logged changes chain, and replaying them from
   * the first sighted text gives the stored one.
   */
  lemma TextReplaysOverRun(t: Tables, actions: seq<Action>, n: int, field: TextField)
    requires n !in t.objects && ObjectEventsOf(t.events, n) == []
    requires IncomingStates(actions, n) != []
    requires forall s :: s in IncomingStates(actions, n) ==> TextOf(field, s) != ""
    ensures TextReplays(t, actions, n, field, TextOf(field, IncomingStates(actions, n)[0]))
  {
    hide TextReplays, IncomingStates, Replays, TextChanges, TextOf;
    TextReplaysUnfold(t, actions, n, field, TextOf(field, IncomingStates(actions, n)[0]));
    PresentTextsReplay(TextsOf(field, IncomingStates(actions, n)));
  }

  /** Every committed import has at most one record of object `n`. */
  ghost predicate OneRecordEach(actions: seq<Action>, n: int) {
    forall a :: a in actions && a.SatcatBatch? && a.committed ==> |StatesFor(a.recs, n)| <= 1
  }

  /** The states up to action `k` are a prefix of all states; with one record each, every prefix occurs. */
  lemma {:induction false} StatesPrefix(actions: seq<Action>, k: nat, n: int)
    requires k <= |actions|
    ensures IncomingStates(actions[..k], n) <= IncomingStates(actions, n)
    decreases |actions| - k
  {
    hide StatesFor;
    if k == |actions| {
      assert actions[..k] == actions;
    } else {
      StatesPrefix(actions, k + 1, n);
      assert actions[..k + 1][..k] == actions[..k];
    }
  }

  lemma {:induction false} EveryPrefixOccurs(actions: seq<Action>, n: int, m: nat)
    requires OneRecordEach(actions, n) && m <= |IncomingStates(actions, n)|
    ensures exists k :: 0 <= k <= |actions| && |IncomingStates(actions[..k], n)| == m
  {
    hide StatesFor;
    if |IncomingStates(actions, n)| == m {
      assert actions[..|actions|] == actions;
    } else {
      var init := actions[..|actions| - 1];
      assert actions[|actions| - 1] in actions;
      assert forall a :: a in init ==> a in actions;
      EveryPrefixOccurs(init, n, m);
      var k :| 0 <= k <= |init| && |IncomingStates(init[..k], n)| == m;
      assert init[..k] == actions[..k];
    }
  }

  /**
   * When imports list an object once, its log replays to the stored text after
   * every step of every run exactly when that text was never missing, or
   * always.
   */
  lemma ReplayOverRunIff(t: Tables, actions: seq<Action>, n: int, field: TextField)
    requires n !in t.objects && ObjectEventsOf(t.events, n) == []
    requires OneRecordEach(actions, n) && IncomingStates(actions, n) != []
    ensures var texts := TextsOf(field, IncomingStates(actions, n));
            (forall k :: 0 <= k <= |actions| && IncomingStates(actions[..k], n) != [] ==>
               TextReplays(t, actions[..k], n, field, texts[0]))
            <==> || (forall i :: 0 <= i < |texts| ==> texts[i] != "")
                 || (forall i :: 0 <= i < |texts| ==> texts[i] == "")
  {
    hide TextReplays, IncomingStates, Replays, TextChanges, TextOf;
    var texts := TextsOf(field, IncomingStates(actions, n));
    ReplayIff(texts);
    forall k | 0 <= k <= |actions| && IncomingStates(actions[..k], n) != []
      ensures var m := |IncomingStates(actions[..k], n)|;
              && 0 < m <= |texts|
              && (TextReplays(t, actions[..k], n, field, texts[0])
                  <==> Replays(texts[0], TextChanges(texts[..m]), texts[m - 1]))
    {
      StatesPrefix(actions, k, n);
      TextReplaysUnfold(t, actions[..k], n, field, texts[0]);
      var m := |IncomingStates(actions[..k], n)|;
      assert TextsOf(field, IncomingStates(actions[..k], n)) == texts[..m];
    }
    if forall k :: 0 <= k <= |actions| && IncomingStates(actions[..k], n) != [] ==>
        TextReplays(t, actions[..k], n, field, texts[0]) {
      forall m | 0 < m <= |texts|
        ensures Replays(texts[0], TextChanges(texts[..m]), texts[m - 1])
      {
        EveryPrefixOccurs(actions, n, m);
      }
    }
  }

  // ----- decay over a run -----

  lemma HasDecayAppend(a: seq<DetectedEvent>, b: seq<DetectedEvent>)
    ensures HasDecay(a + b) <==> HasDecay(a) || HasDecay(b)
  {
  }

  /**
   * Over any run a decay of `n` gets logged exactly when some committed record
   * of it carries a date and finds a stored row without one.
   */
  lemma RunDecaysIff(t: Tables, actions: seq<Action>, n: int)
    ensures var (start, states) := (StoredState(t.objects, n), IncomingStates(actions, n));
            HasDecay(ObjectEventsOf(Run(t, actions).events, n))
            <==> || HasDecay(ObjectEventsOf(t.events, n))
                 || exists i :: 0 <= i < |states| && DateOverNull(start, states, i)
  {
    hide Run, IncomingStates, StateLog, ObjectEventsOf, HasDecay, DateOverNull;
    SatcatLogOfRun(t, actions, n);
    var (start, states) := (StoredState(t.objects, n), IncomingStates(actions, n));
    HasDecayAppend(ObjectEventsOf(t.events, n), StateLog(start, states));
    LogDecaysIff(start, states);
  }

  /** Every import answered the query for entries without a decay date. */
  ghost predicate AllAsQueried(actions: seq<Action>) {
    forall a :: a in actions && a.SatcatBatch? ==> AsQueried(a.recs)
  }

  lemma StepNeverDecays(t: Tables, a: Action)
    requires a.SatcatBatch? ==> AsQueried(a.recs)
    ensures var t' := Step(t, a);
            && t.events <= t'.events && Live(t.objects) <= Live(t'.objects)
            && forall i :: |t.events| <= i < |t'.events| ==> !t'.events[i].event.DecayDetected?
  {
    match a
    case SatcatBatch(recs, _) => QueriedBatchNeverDecays(t, recs);
    case GpRecord(rec, o) => GpRecordNeverDecays(t, rec, o);
    case _ =>
  }

  lemma GpRecordNeverDecays(t: Tables, rec: Snapshot, o: Oracle)
    ensures var t' := ProcessRecord(t, rec, o).0;
            t.events <= t'.events && forall i :: |t.events| <= i < |t'.events| ==> !t'.events[i].event.DecayDetected?
  {
    hide GpEvents;
    var prev := Latest(t.snapshots, rec.noradCatId, o.ties);
    if prev.Some? {
      forall e | e in GpEvents(prev.value.snap, rec)
        ensures !e.DecayDetected?
      {
        GpEventsReportTheChange(prev.value.snap, rec, e);
      }
    }
  }

  /** So in such a run no decay event is ever written and no live object ever leaves the sweep. */
  lemma {:induction false} RunNeverDecays(t: Tables, actions: seq<Action>)
    requires AllAsQueried(actions)
    ensures var t' := Run(t, actions);
            && t.events <= t'.events && Live(t.objects) <= Live(t'.objects)
            && forall i :: |t.events| <= i < |t'.events| ==> !t'.events[i].event.DecayDetected?
  {
    hide Step;
    if actions != [] {
      var k := |actions| - 1;
      assert forall a :: a in actions[..k] ==> a in actions;
      assert actions[k] in actions;
      RunNeverDecays(t, actions[..k]);
      StepNeverDecays(Run(t, actions[..k]), actions[k]);
    }
  }
}
