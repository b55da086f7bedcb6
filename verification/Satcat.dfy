/**
 * The SATCAT import: diff against the stored row, log, upsert, one transaction
 * for the whole batch. A committed batch is `UpsertAll`; a failed one is the
 * identity on the tables.
 */
module Satcat {
  import opened Prelude
  import opened Rules
  import opened Tables

  function StoredState(objects: map<int, ObjectRow>, n: int): Option<ObjectState> {
    if n in objects then Some(StateOfRow(objects[n])) else None
  }

  type ObjectRules = seq<Rule<ObjectState>>

  /** A first sighting fires nothing. */
  function DiffBy(rules: ObjectRules, prev: Option<ObjectState>, curr: ObjectState): seq<DetectedEvent> {
    match prev
    case Some(p) => FireAll(rules, p, curr)
    case None => []
  }

  function Untagged(events: seq<DetectedEvent>, n: int): (rows: seq<EventRow>)
    ensures |rows| == |events|
  {
    seq(|events|, i requires 0 <= i < |events| => EventRow(n, events[i], None, None))
  }

  /** One record of a batch, with the rules of a given registry. */
  function UpsertOneBy(rules: ObjectRules, t: Tables, rec: ObjectRecord): Tables {
    var fired := DiffBy(rules, StoredState(t.objects, rec.noradCatId), StateOfRecord(rec));
    t.(objects := Upserted(t.objects, rec), events := t.events + Untagged(fired, rec.noradCatId))
  }

  function UpsertAllBy(rules: ObjectRules, t: Tables, recs: seq<ObjectRecord>): Tables {
    if recs == [] then t
    else UpsertOneBy(rules, UpsertAllBy(rules, t, recs[..|recs| - 1]), recs[|recs| - 1])
  }

  /** The events a batch returns to its caller for logging. */
  function FiredBy(rules: ObjectRules, t: Tables, recs: seq<ObjectRecord>): seq<DetectedEvent> {
    if recs == [] then []
    else
      var k := |recs| - 1;
      FiredBy(rules, t, recs[..k])
      + DiffBy(rules, StoredState(UpsertAllBy(rules, t, recs[..k]).objects, recs[k].noradCatId), StateOfRecord(recs[k]))
  }

  /** The rows are the events, of objects of the batch and tied to no snapshot. */
  ghost predicate LogsEvents(rows: seq<EventRow>, events: seq<DetectedEvent>, recs: seq<ObjectRecord>) {
    && |rows| == |events|
    && forall i :: 0 <= i < |rows| ==>
         && rows[i].event == events[i] && rows[i].prevSnapshotId.None? && rows[i].newSnapshotId.None?
         && exists rec :: rec in recs && rec.noradCatId == rows[i].noradCatId
  }

  /** The events a batch returns are those of the rows it appends, one for one and in order. */
  lemma {:induction false} ReturnedEventsAreLogged(rules: ObjectRules, t: Tables, recs: seq<ObjectRecord>)
    ensures var after := UpsertAllBy(rules, t, recs).events;
            t.events <= after && LogsEvents(after[|t.events|..], FiredBy(rules, t, recs), recs)
  {
    hide DiffBy, StoredState, Upserted;
    if recs != [] {
      var k := |recs| - 1;
      ReturnedEventsAreLogged(rules, t, recs[..k]);
      var before := UpsertAllBy(rules, t, recs[..k]);
      var diff := DiffBy(rules, StoredState(before.objects, recs[k].noradCatId), StateOfRecord(recs[k]));
      assert UpsertAllBy(rules, t, recs).events == before.events + Untagged(diff, recs[k].noradCatId);
      MoreLogged(before.events[|t.events|..], FiredBy(rules, t, recs[..k]), recs, diff);
      assert (before.events + Untagged(diff, recs[k].noradCatId))[|t.events|..]
             == before.events[|t.events|..] + Untagged(diff, recs[k].noradCatId);
    }
  }

  lemma MoreLogged(rows: seq<EventRow>, events: seq<DetectedEvent>, recs: seq<ObjectRecord>, diff: seq<DetectedEvent>)
    requires recs != [] && LogsEvents(rows, events, recs[..|recs| - 1])
    ensures LogsEvents(rows + Untagged(diff, recs[|recs| - 1].noradCatId), events + diff, recs)
  {
    var rec := recs[|recs| - 1];
    assert rec in recs;
    forall i | 0 <= i < |rows|
      ensures exists r :: r in recs && r.noradCatId == rows[i].noradCatId
    {
      var r :| r in recs[..|recs| - 1] && r.noradCatId == rows[i].noradCatId;
      assert r in recs;
    }
  }

  // ----- with the default registry -----

  function Diff(prev: Option<ObjectState>, curr: ObjectState): seq<DetectedEvent> {
    DiffBy(OBJECT_RULES, prev, curr)
  }

  function UpsertOne(t: Tables, rec: ObjectRecord): Tables {
    UpsertOneBy(OBJECT_RULES, t, rec)
  }

  function UpsertAll(t: Tables, recs: seq<ObjectRecord>): Tables {
    UpsertAllBy(OBJECT_RULES, t, recs)
  }

  lemma UpsertAllUnfold(t: Tables, recs: seq<ObjectRecord>)
    ensures recs == [] ==> UpsertAll(t, recs) == t
    ensures recs != [] ==> UpsertAll(t, recs) == UpsertOne(UpsertAll(t, recs[..|recs| - 1]), recs[|recs| - 1])
  {
    hide UpsertOneBy;
  }

  /**
   * What one SATCAT record fires, from the columns of the row it finds and the
   * record's own fields; nothing if it finds none.
   */
  lemma RecordEventMeaning(objects: map<int, ObjectRow>, rec: ObjectRecord, e: DetectedEvent)
    ensures e in Diff(StoredState(objects, rec.noradCatId), StateOfRecord(rec))
            <==> && rec.noradCatId in objects
                 && var row := objects[rec.noradCatId];
                    || (row.decayDate == None && rec.decayDate.Some? && e == DecayDetected(rec.decayDate.value))
                    || (row.objectName.Some? && row.objectName.value != "" && rec.objectName != ""
                        && row.objectName.value != rec.objectName
                        && e == ObjectRenamed(row.objectName.value, rec.objectName))
                    || (row.objectType.Some? && row.objectType.value != "" && rec.objectType != ""
                        && row.objectType.value != rec.objectType
                        && e == ObjectTypeChanged(row.objectType.value, rec.objectType))
                    || (row.rcsSize.Some? && row.rcsSize.value != "" && rec.rcsSize != ""
                        && row.rcsSize.value != rec.rcsSize
                        && e == RcsSizeChanged(row.rcsSize.value, rec.rcsSize))
  {
    hide FireAll;
    if rec.noradCatId in objects {
      ObjectEventMeaning(StateOfRow(objects[rec.noradCatId]), StateOfRecord(rec), e);
    }
  }

  /** The columns a record writes; the others keep their value, or get the record's at first sighting. */
  lemma UpsertedColumns(t: Tables, rec: ObjectRecord)
    ensures var (before, after) := (t.objects, UpsertOne(t, rec).objects);
            && rec.noradCatId in after && after == before[rec.noradCatId := after[rec.noradCatId]]
            && var row := after[rec.noradCatId];
               && row.objectName == Some(rec.objectName) && row.objectType == Some(rec.objectType)
               && row.rcsSize == Some(rec.rcsSize) && row.decayDate == rec.decayDate
               && if rec.noradCatId in before then
                    var prior := before[rec.noradCatId];
                    && row.objectId == prior.objectId && row.countryCode == prior.countryCode
                    && row.launchDate == prior.launchDate && row.site == prior.site
                    && row.hitCount == prior.hitCount && row.featured == prior.featured
                  else
                    && row.objectId == None && row.countryCode == Some(rec.countryCode)
                    && row.launchDate == rec.launchDate && row.site == Some(rec.site)
                    && row.hitCount == 0 && !row.featured
  {
    hide FireAll, DiffBy, Untagged;
  }

  // ----- per-object log -----

  /** Object `n`'s SATCAT events, in insertion order. */
  function ObjectEventsOf(events: seq<EventRow>, n: int): seq<DetectedEvent> {
    if events == [] then []
    else
      var e := events[|events| - 1];
      ObjectEventsOf(events[..|events| - 1], n) + if e.noradCatId == n && e.prevSnapshotId.None? then [e.event] else []
  }

  lemma {:induction false} ObjectEventsOfAppend(a: seq<EventRow>, b: seq<EventRow>, n: int)
    ensures ObjectEventsOf(a + b, n) == ObjectEventsOf(a, n) + ObjectEventsOf(b, n)
  {
    if b == [] {
      assert a + b == a;
    } else {
      var k := |b| - 1;
      ObjectEventsOfAppend(a, b[..k], n);
      assert (a + b)[..|a + b| - 1] == a + b[..k];
    }
  }

  lemma {:induction false} ObjectEventsOfUntagged(events: seq<DetectedEvent>, m: int, n: int)
    ensures ObjectEventsOf(Untagged(events, m), n) == if m == n then events else []
  {
    if events != [] {
      var k := |events| - 1;
      ObjectEventsOfUntagged(events[..k], m, n);
      assert Untagged(events, m)[..k] == Untagged(events[..k], m);
      assert events == events[..k] + [events[k]];
    }
  }

  /** The incoming states of object `n`. */
  function StatesFor(recs: seq<ObjectRecord>, n: int): seq<ObjectState> {
    if recs == [] then []
    else
      var rec := recs[|recs| - 1];
      StatesFor(recs[..|recs| - 1], n) + if rec.noradCatId == n then [StateOfRecord(rec)] else []
  }

  /** What is stored after `states` arrived on top of `start`. */
  function Current(start: Option<ObjectState>, states: seq<ObjectState>): Option<ObjectState> {
    if states == [] then start else Some(states[|states| - 1])
  }

  /** The reference log: each state diffed against the one before it. */
  function StateLog(start: Option<ObjectState>, states: seq<ObjectState>): seq<DetectedEvent> {
    if states == [] then []
    else
      var k := |states| - 1;
      StateLog(start, states[..k]) + Diff(Current(start, states[..k]), states[k])
  }

  lemma {:induction false} StateLogAppend(start: Option<ObjectState>, a: seq<ObjectState>, b: seq<ObjectState>)
    ensures StateLog(start, a + b) == StateLog(start, a) + StateLog(Current(start, a), b)
    ensures Current(start, a + b) == Current(Current(start, a), b)
  {
    hide Diff;
    if b == [] {
      assert a + b == a;
    } else {
      var k := |b| - 1;
      StateLogAppend(start, a, b[..k]);
      assert (a + b)[..|a + b| - 1] == a + b[..k];
    }
  }

  lemma UpsertOneOnObject(t: Tables, rec: ObjectRecord, n: int)
    ensures var t' := UpsertOne(t, rec);
            var prev := StoredState(t.objects, n);
            && StoredState(t'.objects, n) == (if rec.noradCatId == n then Some(StateOfRecord(rec)) else prev)
            && ObjectEventsOf(t'.events, n)
               == ObjectEventsOf(t.events, n) + (if rec.noradCatId == n then Diff(prev, StateOfRecord(rec)) else [])
  {
    hide FireAll;
    var fired := Diff(StoredState(t.objects, rec.noradCatId), StateOfRecord(rec));
    ObjectEventsOfAppend(t.events, Untagged(fired, rec.noradCatId), n);
    ObjectEventsOfUntagged(fired, rec.noradCatId, n);
  }

  lemma NoStates(start: Option<ObjectState>, n: int)
    ensures StateLog(start, StatesFor([], n)) == [] && Current(start, StatesFor([], n)) == start
  {
  }

  lemma OneMoreState(start: Option<ObjectState>, recs: seq<ObjectRecord>, n: int)
    requires recs != []
    ensures var (rec, states) := (recs[|recs| - 1], StatesFor(recs[..|recs| - 1], n));
            && StateLog(start, StatesFor(recs, n))
               == StateLog(start, states)
                  + (if rec.noradCatId == n then Diff(Current(start, states), StateOfRecord(rec)) else [])
            && Current(start, StatesFor(recs, n))
               == if rec.noradCatId == n then Some(StateOfRecord(rec)) else Current(start, states)
  {
    hide Diff, StateOfRecord;
    var k := |recs| - 1;
    if recs[k].noradCatId == n {
      assert StatesFor(recs, n)[..|StatesFor(recs, n)| - 1] == StatesFor(recs[..k], n);
    } else {
      assert StatesFor(recs, n) == StatesFor(recs[..k], n);
    }
  }

  /**
   * For each object a committed batch logs exactly the fold of the rules over
   * its stored state and its incoming states, and stores the last of them.
   */
  lemma {:induction false} BatchIsFoldPerObject(t: Tables, recs: seq<ObjectRecord>, n: int)
    ensures var t' := UpsertAll(t, recs);
            var (start, states) := (StoredState(t.objects, n), StatesFor(recs, n));
            && ObjectEventsOf(t'.events, n) == ObjectEventsOf(t.events, n) + StateLog(start, states)
            && StoredState(t'.objects, n) == Current(start, states)
  {
    hide *;
    UpsertAllUnfold(t, recs);
    if recs == [] {
      NoStates(StoredState(t.objects, n), n);
    } else {
      BatchIsFoldPerObject(t, recs[..|recs| - 1], n);
      UpsertOneOnObject(UpsertAll(t, recs[..|recs| - 1]), recs[|recs| - 1], n);
      OneMoreState(StoredState(t.objects, n), recs, n);
    }
  }

  /** Position of object `n`'s first record in a batch, or the batch length. */
  function FirstFor(recs: seq<ObjectRecord>, n: int): (i: nat)
    ensures i <= |recs| && (i < |recs| ==> recs[i].noradCatId == n)
  {
    if recs == [] || recs[0].noradCatId == n then 0 else 1 + FirstFor(recs[1..], n)
  }

  /**
   * A new object takes its fixed facts from its first record, and starts
   * unviewed, not featured, and without the record's object id.
   */
  lemma {:induction false} FirstSightingSetsFacts(t: Tables, recs: seq<ObjectRecord>, n: int)
    requires n !in t.objects
    ensures var (objects, i) := (UpsertAll(t, recs).objects, FirstFor(recs, n));
            && (n in objects <==> i < |recs|)
            && (i < |recs| ==>
                  && objects[n].countryCode == Some(recs[i].countryCode)
                  && objects[n].launchDate == recs[i].launchDate
                  && objects[n].site == Some(recs[i].site)
                  && objects[n].objectId == None && objects[n].hitCount == 0 && !objects[n].featured)
  {
    hide Diff, Untagged, StoredState, FirstFor;
    FirstForNothing(n);
    if recs != [] {
      var k := |recs| - 1;
      FirstSightingSetsFacts(t, recs[..k], n);
      FirstForPrefix(recs, n);
    }
  }

  lemma FirstForNothing(n: int)
    ensures FirstFor([], n) == 0
  {
  }

  lemma {:induction false} FirstForPrefix(recs: seq<ObjectRecord>, n: int)
    requires recs != []
    ensures var (i, j) := (FirstFor(recs[..|recs| - 1], n), FirstFor(recs, n));
            j == if i < |recs| - 1 || recs[|recs| - 1].noradCatId == n then i else |recs|
  {
    if |recs| > 1 && recs[0].noradCatId != n {
      assert recs[..|recs| - 1][1..] == recs[1..][..|recs| - 2];
      FirstForPrefix(recs[1..], n);
    }
  }

  // ----- replaying text changes -----

  datatype TextField = Name | Type | Rcs

  function TextOf(field: TextField, state: ObjectState): string {
    match field
    case Name => state.objectName
    case Type => state.objectType
    case Rcs => state.rcsSize
  }

  /** The (old, new) pair an event records for the field. */
  function ChangeIn(field: TextField, e: DetectedEvent): Option<(string, string)> {
    match (field, e)
    case (Name, ObjectRenamed(a, b)) => Some((a, b))
    case (Type, ObjectTypeChanged(a, b)) => Some((a, b))
    case (Rcs, RcsSizeChanged(a, b)) => Some((a, b))
    case _ => None
  }

  function ChangesIn(field: TextField, events: seq<DetectedEvent>): seq<(string, string)> {
    if events == [] then []
    else
      var change := ChangeIn(field, events[|events| - 1]);
      ChangesIn(field, events[..|events| - 1]) + if change.Some? then [change.value] else []
  }

  function TextsOf(field: TextField, states: seq<ObjectState>): (texts: seq<string>)
    ensures |texts| == |states|
  {
    seq(|states|, i requires 0 <= i < |states| => TextOf(field, states[i]))
  }

  /** Adjacent texts that differ with neither missing. */
  function TextChanges(texts: seq<string>): seq<(string, string)> {
    if |texts| <= 1 then []
    else
      var k := |texts| - 1;
      TextChanges(texts[..k]) + if TextChanged(texts[k - 1], texts[k]) then [(texts[k - 1], texts[k])] else []
  }

  /** Each change starts where the previous one ended; replaying them leads from `from` to `to`. */
  predicate Replays(from: string, changes: seq<(string, string)>, to: string) {
    if changes == [] then from == to
    else
      var k := |changes| - 1;
      changes[k].1 == to && Replays(from, changes[..k], changes[k].0)
  }

  lemma {:induction false} ChangesInAppend(field: TextField, a: seq<DetectedEvent>, b: seq<DetectedEvent>)
    ensures ChangesIn(field, a + b) == ChangesIn(field, a) + ChangesIn(field, b)
  {
    if b == [] {
      assert a + b == a;
    } else {
      ChangesInAppend(field, a, b[..|b| - 1]);
      assert (a + b)[..|a + b| - 1] == a + b[..|b| - 1];
    }
  }

  lemma ChangesInFired(field: TextField, result: Option<DetectedEvent>)
    ensures ChangesIn(field, Fired(result))
            == if result.Some? && ChangeIn(field, result.value).Some? then [ChangeIn(field, result.value).value] else []
  {
  }

  lemma ChangesInDiff(field: TextField, p: ObjectState, c: ObjectState)
    ensures ChangesIn(field, ObjectEvents(p, c))
            == if TextChanged(TextOf(field, p), TextOf(field, c)) then [(TextOf(field, p), TextOf(field, c))] else []
  {
    hide ChangesIn;
    ObjectEventsUnfold(p, c);
    var d, n, y, r := DecayDetectedRule(p, c), ObjectRenamedRule(p, c), ObjectTypeChangedRule(p, c), RcsSizeChangedRule(p, c);
    ChangesInAppend(field, Fired(d) + Fired(n) + Fired(y), Fired(r));
    ChangesInAppend(field, Fired(d) + Fired(n), Fired(y));
    ChangesInAppend(field, Fired(d), Fired(n));
    ChangesInFired(field, d);
    ChangesInFired(field, n);
    ChangesInFired(field, y);
    ChangesInFired(field, r);
  }

  /** The diff of one more state adds its change of the field, if there is one. */
  lemma OneMoreChange(field: TextField, first: ObjectState, states: seq<ObjectState>)
    requires states != []
    ensures var k := |states| - 1;
            var (p, c) := (TextOf(field, Current(Some(first), states[..k]).value), TextOf(field, states[k]));
            ChangesIn(field, StateLog(Some(first), states))
            == ChangesIn(field, StateLog(Some(first), states[..k])) + if TextChanged(p, c) then [(p, c)] else []
  {
    hide ChangesIn, FireAll, TextOf, TextChanged;
    var k := |states| - 1;
    var p := Current(Some(first), states[..k]).value;
    assert Diff(Some(p), states[k]) == ObjectEvents(p, states[k]);
    ChangesInAppend(field, StateLog(Some(first), states[..k]), ObjectEvents(p, states[k]));
    ChangesInDiff(field, p, states[k]);
  }

  /** The logged changes of a field are the adjacent changes of its texts. */
  lemma {:induction false} LoggedChanges(field: TextField, first: ObjectState, states: seq<ObjectState>)
    ensures ChangesIn(field, StateLog(Some(first), states)) == TextChanges(TextsOf(field, [first] + states))
  {
    if states != [] {
      hide *;
      LoggedChanges(field, first, states[..|states| - 1]);
      OneMoreChange(field, first, states);
      OneMoreText(field, first, states);
    }
  }

  lemma OneMoreText(field: TextField, first: ObjectState, states: seq<ObjectState>)
    requires states != []
    ensures var k := |states| - 1;
            var (p, c) := (TextOf(field, Current(Some(first), states[..k]).value), TextOf(field, states[k]));
            TextChanges(TextsOf(field, [first] + states))
            == TextChanges(TextsOf(field, [first] + states[..k])) + if TextChanged(p, c) then [(p, c)] else []
  {
    hide TextOf, TextChanged;
    var k := |states| - 1;
    var texts := TextsOf(field, [first] + states);
    assert texts[..k + 1] == TextsOf(field, [first] + states[..k]);
  }

  lemma {:induction false} PresentTextsReplay(texts: seq<string>)
    requires texts != [] && forall i :: 0 <= i < |texts| ==> texts[i] != ""
    ensures Replays(texts[0], TextChanges(texts), texts[|texts| - 1])
  {
    if |texts| > 1 {
      var k := |texts| - 1;
      PresentTextsReplay(texts[..k]);
      var before := TextChanges(texts[..k]);
      if texts[k - 1] != texts[k] {
        assert TextChanges(texts)[..|before|] == before;
      } else {
        assert TextChanges(texts) == before;
      }
    }
  }

  lemma {:induction false} MissingTextsAreQuiet(texts: seq<string>)
    requires forall i :: 0 <= i < |texts| ==> texts[i] == ""
    ensures TextChanges(texts) == []
  {
    if |texts| > 1 {
      MissingTextsAreQuiet(texts[..|texts| - 1]);
    }
  }

  /** Every logged change is between present texts. */
  lemma {:induction false} ChangesArePresent(texts: seq<string>)
    ensures forall c :: c in TextChanges(texts) ==> c.0 != "" && c.1 != ""
  {
    if |texts| > 1 {
      ChangesArePresent(texts[..|texts| - 1]);
    }
  }

  /** A chain of present texts neither starts nor ends at a missing one unless it is empty. */
  lemma {:induction false} ReplayStartsPresent(from: string, changes: seq<(string, string)>, to: string)
    requires Replays(from, changes, to) && changes != []
    requires forall c :: c in changes ==> c.0 != "" && c.1 != ""
    ensures from != "" && to != ""
  {
    var k := |changes| - 1;
    assert changes[k] in changes;
    if k > 0 {
      ReplayStartsPresent(from, changes[..k], changes[k].0);
    }
  }

  /** After every single write, replaying the log from the first text gives the stored text. */
  ghost predicate AlwaysReplays(texts: seq<string>) {
    forall k :: 0 < k <= |texts| ==> Replays(texts[0], TextChanges(texts[..k]), texts[k - 1])
  }

  /**
   * The event log tracks the stored text at every moment exactly when the text
   * is never missing, or always missing.
   */
  lemma ReplayIff(texts: seq<string>)
    requires texts != []
    ensures AlwaysReplays(texts)
            <==> || (forall i :: 0 <= i < |texts| ==> texts[i] != "")
                 || (forall i :: 0 <= i < |texts| ==> texts[i] == "")
  {
    if forall i :: 0 <= i < |texts| ==> texts[i] != "" {
      forall k | 0 < k <= |texts|
        ensures Replays(texts[0], TextChanges(texts[..k]), texts[k - 1])
      {
        PresentTextsReplay(texts[..k]);
      }
    } else if forall i :: 0 <= i < |texts| ==> texts[i] == "" {
      forall k | 0 < k <= |texts|
        ensures Replays(texts[0], TextChanges(texts[..k]), texts[k - 1])
      {
        MissingTextsAreQuiet(texts[..k]);
      }
    } else {
      var i :| 0 <= i < |texts| && (texts[i] == "") != (texts[0] == "");
      ChangesArePresent(texts[..i + 1]);
      if Replays(texts[0], TextChanges(texts[..i + 1]), texts[i]) && TextChanges(texts[..i + 1]) != [] {
        ReplayStartsPresent(texts[0], TextChanges(texts[..i + 1]), texts[i]);
      }
      assert !Replays(texts[0], TextChanges(texts[..i + 1]), texts[i + 1 - 1]);
    }
  }

  lemma UpsertSingle(t: Tables, rec: ObjectRecord)
    ensures UpsertAll(t, [rec]) == UpsertOne(t, rec)
  {
    hide UpsertAll, UpsertOne;
    UpsertAllUnfold(t, [rec]);
    UpsertAllUnfold(t, []);
    assert [rec][..0] == [];
  }

  /**
   * A name that goes missing for one import hides a rename: three imports of
   * one object store the new name and log nothing, whereas without the middle
   * one the rename is logged.
   */
  lemma MissingNameHidesRename(rec: ObjectRecord, from: string, to: string)
    requires from != "" && to != "" && from != to
    ensures var (first, gap, last) := ([rec.(objectName := from)], [rec.(objectName := "")], [rec.(objectName := to)]);
            var once := UpsertAll(EMPTY_TABLES, first);
            var (hidden, seen) := (UpsertAll(UpsertAll(once, gap), last), UpsertAll(once, last));
            && hidden.objects == seen.objects && rec.noradCatId in seen.objects
            && seen.objects[rec.noradCatId].objectName == Some(to)
            && hidden.events == []
            && seen.events == [EventRow(rec.noradCatId, ObjectRenamed(from, to), None, None)]
  {
    hide FireAll;
    var (a, g, b) := (rec.(objectName := from), rec.(objectName := ""), rec.(objectName := to));
    var once := UpsertAll(EMPTY_TABLES, [a]);
    UpsertSingle(EMPTY_TABLES, a);
    UpsertSingle(once, g);
    UpsertSingle(once, b);
    UpsertSingle(UpsertAll(once, [g]), b);
    ObjectEventsUnfold(StateOfRecord(a), StateOfRecord(g));
    ObjectEventsUnfold(StateOfRecord(g), StateOfRecord(b));
    ObjectEventsUnfold(StateOfRecord(a), StateOfRecord(b));
    assert ObjectEvents(StateOfRecord(a), StateOfRecord(g)) == ObjectEvents(StateOfRecord(g), StateOfRecord(b)) == [];
    assert ObjectEvents(StateOfRecord(a), StateOfRecord(b)) == [ObjectRenamed(from, to)];
    var (n, twice) := (rec.noradCatId, UpsertAll(once, [g]));
    hide UpsertAll;
    assert once.events == [] && StoredState(once.objects, n) == Some(StateOfRecord(a));
    assert twice.events == [] && StoredState(twice.objects, n) == Some(StateOfRecord(g));
    var (seen, unseen) := (UpsertAll(once, [b]), UpsertAll(twice, [b]));
    assert unseen.events == [];
    assert seen.events == Untagged([ObjectRenamed(from, to)], n);
    assert unseen.objects[n] == seen.objects[n];
    assert unseen.objects == seen.objects;
  }

  // ----- applying a batch twice -----

  /** The stored row already says what the record says. */
  predicate Reflects(objects: map<int, ObjectRow>, rec: ObjectRecord) {
    && rec.noradCatId in objects
    && var row := objects[rec.noradCatId];
       row.objectName == Some(rec.objectName) && row.objectType == Some(rec.objectType)
       && row.rcsSize == Some(rec.rcsSize) && row.decayDate == rec.decayDate
  }

  /** Records of the same object agree; batches with distinct ids are the usual case. */
  ghost predicate Consistent(recs: seq<ObjectRecord>) {
    forall i, j :: 0 <= i < j < |recs| && recs[i].noradCatId == recs[j].noradCatId
                   ==> StateOfRecord(recs[i]) == StateOfRecord(recs[j])
  }

  lemma SameStateIsQuiet(s: ObjectState)
    ensures ObjectEvents(s, s) == []
  {
    ObjectEventsUnfold(s, s);
  }

  lemma ReflectedRecordChangesNothing(t: Tables, rec: ObjectRecord)
    requires Reflects(t.objects, rec)
    ensures UpsertOne(t, rec) == t
  {
    hide FireAll;
    SameStateIsQuiet(StateOfRecord(rec));
    assert DiffBy(OBJECT_RULES, StoredState(t.objects, rec.noradCatId), StateOfRecord(rec)) == [];
    assert Upserted(t.objects, rec) == t.objects;
  }

  lemma {:induction false} ReflectedBatchChangesNothing(t: Tables, recs: seq<ObjectRecord>)
    requires forall i :: 0 <= i < |recs| ==> Reflects(t.objects, recs[i])
    ensures UpsertAll(t, recs) == t
  {
    if recs != [] {
      var k := |recs| - 1;
      ReflectedBatchChangesNothing(t, recs[..k]);
      ReflectedRecordChangesNothing(t, recs[k]);
    }
  }

  lemma {:induction false} BatchIsReflected(t: Tables, recs: seq<ObjectRecord>)
    requires Consistent(recs)
    ensures forall i :: 0 <= i < |recs| ==> Reflects(UpsertAll(t, recs).objects, recs[i])
  {
    if recs != [] {
      var k := |recs| - 1;
      BatchIsReflected(t, recs[..k]);
      forall i | 0 <= i < k
        ensures Reflects(UpsertAll(t, recs).objects, recs[i])
      {
        assert recs[..k][i] == recs[i];
        assert recs[i].noradCatId == recs[k].noradCatId ==> StateOfRecord(recs[i]) == StateOfRecord(recs[k]);
      }
    }
  }

  /** Importing the same catalog again fires nothing and changes nothing. */
  lemma ReimportChangesNothing(t: Tables, recs: seq<ObjectRecord>)
    requires Consistent(recs)
    ensures UpsertAll(UpsertAll(t, recs), recs) == UpsertAll(t, recs)
  {
    BatchIsReflected(t, recs);
    ReflectedBatchChangesNothing(UpsertAll(t, recs), recs);
  }

  // ----- decay -----

  predicate HasDecay(events: seq<DetectedEvent>) {
    exists e :: e in events && e.DecayDetected?
  }

  predicate DecayFires(start: Option<ObjectState>, states: seq<ObjectState>, i: nat)
    requires i < |states|
  {
    HasDecay(Diff(Current(start, states[..i]), states[i]))
  }

  /** Write `i` puts a date where the stored row has none. */
  predicate DateOverNull(start: Option<ObjectState>, states: seq<ObjectState>, i: nat)
    requires i < |states|
  {
    var prev := Current(start, states[..i]);
    prev.Some? && prev.value.decayDate == None && states[i].decayDate.Some?
  }

  lemma DecayFiresIff(start: Option<ObjectState>, states: seq<ObjectState>, i: nat)
    requires i < |states|
    ensures DecayFires(start, states, i) <==> DateOverNull(start, states, i)
  {
    hide FireAll;
    var prev := Current(start, states[..i]);
    if prev.Some? {
      var events := ObjectEvents(prev.value, states[i]);
      forall e | e in events && e.DecayDetected?
        ensures DateOverNull(start, states, i)
      {
        ObjectEventMeaning(prev.value, states[i], e);
      }
      if DateOverNull(start, states, i) {
        ObjectEventMeaning(prev.value, states[i], DecayDetected(states[i].decayDate.value));
        assert DecayDetected(states[i].decayDate.value) in events;
      }
    }
  }

  /** A decay event is logged exactly when some write put a date over a null. */
  lemma {:induction false} LogDecaysIff(start: Option<ObjectState>, states: seq<ObjectState>)
    ensures HasDecay(StateLog(start, states)) <==> exists i :: 0 <= i < |states| && DateOverNull(start, states, i)
  {
    hide Diff;
    if states != [] {
      var k := |states| - 1;
      LogDecaysIff(start, states[..k]);
      DecayFiresIff(start, states, k);
      assert HasDecay(StateLog(start, states)) <==> HasDecay(StateLog(start, states[..k])) || DecayFires(start, states, k);
      EarlierDates(start, states);
    }
  }

  lemma EarlierDates(start: Option<ObjectState>, states: seq<ObjectState>)
    requires states != []
    ensures var k := |states| - 1;
            (exists i :: 0 <= i < |states| && DateOverNull(start, states, i))
            <==> (exists i :: 0 <= i < k && DateOverNull(start, states[..k], i)) || DateOverNull(start, states, k)
  {
    var k := |states| - 1;
    forall i | 0 <= i < k
      ensures DateOverNull(start, states, i) <==> DateOverNull(start, states[..k], i)
    {
      assert states[..k][..i] == states[..i] && states[..k][i] == states[i];
    }
  }

  lemma {:induction false} ClearedBetween(states: seq<ObjectState>, i: nat, j: nat)
    requires i < j < |states| && states[i].decayDate.Some? && states[j].decayDate.None?
    ensures exists k :: i < k <= j && states[k - 1].decayDate.Some? && states[k].decayDate.None?
    decreases j - i
  {
    if states[j - 1].decayDate.None? {
      ClearedBetween(states, i, j - 1);
    }
  }

  /** Strictly between two decay events of one object a write replaced a decay date by null. */
  lemma DecaysAreSeparated(start: Option<ObjectState>, states: seq<ObjectState>, i: nat, j: nat)
    requires i < j < |states| && DecayFires(start, states, i) && DecayFires(start, states, j)
    ensures exists k :: i < k < j && states[k - 1].decayDate.Some? && states[k].decayDate.None?
  {
    hide DecayFires;
    DecayFiresIff(start, states, i);
    DecayFiresIff(start, states, j);
    ClearedBetween(states, i, j - 1);
  }

  /** The import's query asks for entries without a decay date. */
  ghost predicate AsQueried(recs: seq<ObjectRecord>) {
    forall rec :: rec in recs ==> rec.decayDate == None
  }

  lemma QueriedRecordNeverDecays(t: Tables, rec: ObjectRecord)
    requires rec.decayDate == None
    ensures var t' := UpsertOne(t, rec);
            && t.events <= t'.events
            && (forall i :: |t.events| <= i < |t'.events| ==> !t'.events[i].event.DecayDetected?)
            && Live(t.objects) <= Live(t'.objects) && rec.noradCatId in Live(t'.objects)
  {
    hide FireAll;
    var prev := StoredState(t.objects, rec.noradCatId);
    forall e | e in Diff(prev, StateOfRecord(rec))
      ensures !e.DecayDetected?
    {
      ObjectEventMeaning(prev.value, StateOfRecord(rec), e);
    }
  }

  /**
   * With responses to that query no decay is ever detected: a batch logs no
   * decay event, and every object that was live, or is in the batch, is live.
   */
  lemma {:induction false} QueriedBatchNeverDecays(t: Tables, recs: seq<ObjectRecord>)
    requires AsQueried(recs)
    ensures var t' := UpsertAll(t, recs);
            && t.events <= t'.events
            && (forall i :: |t.events| <= i < |t'.events| ==> !t'.events[i].event.DecayDetected?)
            && Live(t.objects) <= Live(t'.objects)
            && (forall rec :: rec in recs ==> rec.noradCatId in Live(t'.objects))
  {
    hide UpsertAll, UpsertOne, Live;
    UpsertAllUnfold(t, recs);
    if recs != [] {
      var (init, rec) := (recs[..|recs| - 1], recs[|recs| - 1]);
      assert rec in recs && forall r :: r in recs <==> r in init || r == rec;
      QueriedBatchNeverDecays(t, init);
      QueriedRecordNeverDecays(UpsertAll(t, init), rec);
    }
  }
}
