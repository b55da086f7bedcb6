# Verification of the Vitale poller and its catalog API

A Dafny model of the orbital-event backend, with proofs about whole runs of it:
the hourly poller process whose state lives in Postgres tables, the rule engine
it calls, and the conditional-GET layer of the catalog endpoint.

The tables are a value (`Tables.Tables`) and, for the imperative code, the
fields of a `DbWriter.Database` object. Each database method is one transaction,
proved against a function on table values; the theorems are about those
functions and about runs of them. Whatever the code does not decide itself (the
clock, faults, ids burnt by the sequence, how a query breaks ties, what a
request brings back) is a parameter, and every theorem is for all its values.

| file | content |
|---|---|
| `Prelude`, `Ordering` | results, `LIMIT`, `ORDER BY` |
| `Rules` | GP and SATCAT rules, registries |
| `Tables` | rows, statements, NUMERIC rounding |
| `Rotation` | the rotating batch, its cyclic order, bounded fairness |
| `History` | the GP record loop, idempotence, one object's history |
| `Satcat` | the import as a fold, replay of text changes, decay |
| `System` | any interleaving of all writers: integrity, fixed facts, hit counts |
| `GpLog`, `SatcatLog` | one object's snapshots and events over such a run |
| `Drift` | how far an object can move without an event |
| `Scheduler` | due checks and stamps over sequences of processes |
| `Sweep`, `ProcessRuns` | the sweep inside the running system, end to end |
| `Cadence` | processes in time: request rate, hours until an object is asked for |
| `DbWriter`, `Pollers`, `Api` | the imperative code |
| `Text`, `HeaderLists` | id lists, URL, exclusion clause, header lists |
| `CivilTime`, `HttpDate`, `DateSyntax`, `ConditionalGet` | dates, the date parser's language, validators, the 304 decision |
| `Validators` | what the validators track over a run |

`dafny verify dfyconfig.toml` checks everything.

## What the code does that its documentation does not say

The model follows the code. Where a promise is false, the exact condition under
which it holds is proved next to a concrete counterexample.

- `services/poller/db_writer.hpp:128-133` promises that every requested id is
  unique. The wraparound query does not stop at the cursor, so this holds
  exactly when enough ids are eligible or none lies past the cursor
  (`Rotation.BatchDistinctIff`, `Rotation.TinyCatalogRepeats`).
- The SATCAT query asks only for entries without a decay date
  (`services/poller/satcat_poller.cpp:10-11`). A decay is logged exactly when a
  committed record carries a date and finds a stored row without one
  (`SatcatLog.RunDecaysIff`), so with responses that honour the query
  `decay_detected` never fires and no object leaves the sweep
  (`SatcatLog.RunNeverDecays`).
- The rate limit is one GP request per hour. Stamps are only kept 55 minutes
  apart (`Scheduler.StampGapExact`), and a request waits for the SATCAT import
  after its stamp: when that wait can be `d`, the gap between requests that
  always holds is 55 minutes less `d`, and nothing at all from 55 minutes on
  (`Scheduler.RequestGapExact`, and of processes with all they read and write
  `Cadence.ProcessGapExact` with the close pair `Cadence.ClosestRequests`).
  `Scheduler.RequestsInWindow` and `Cadence.ProcessRequestRate` bound the requests
  in any window.
- A name that is missing in one import hides a rename, because the rule treats
  missing text as no change (`Satcat.MissingNameHidesRename`). The log replays to
  the stored text at every moment exactly when that text is never missing, or
  always (`SatcatLog.ReplayOverRunIff`).
- `libs/rule_engine/include/rule.hpp:8-9` says the earlier snapshot comes first.
  The code compares with the newest stored one, so a late record fires an event
  whose previous epoch is the later one (`GpLog.LateRecordComparedBackwards`).
  For a stream without faults and with gp_ids of its own the promise holds
  exactly when the stream, deduplicated, is in epoch order
  (`GpLog.InputComparesForwardIff`); over any other run, exactly when what was
  stored is (`GpLog.RunComparesForwardIff`).
- `services/poller/db_writer.hpp:52-58` counts `object_id` among the facts set at
  first sighting. The INSERT has no such column, so it stays NULL
  (`System.ObjectIdIsNeverStored`).
- A listed entity tag that contains `*` is taken for the wildcard
  (`HeaderLists.TagListMatchesIff`, `HeaderLists.StarInsideTagMatchesAnything`).
- Dates round-trip exactly for the years -999 to 9999 (`HttpDate.HttpDateRoundTrip`).
- `services/api/routes.cpp:430-432` ties the validators to the import run. The
  stamp precedes the import, so a copy taken in between keeps its Last-Modified
  while an object is added (`Validators.DateMissesCountChange`) and both its
  validators while rows are updated (`Validators.ValidatorsMissUpdate`); a lookup
  changes the payload under unchanged validators (`Api.LookupKeepsValidators`).
  Over any run the ETag changes exactly with the second of the stamp or a
  committed new id (`Validators.ValidatorsTrack`).

## Model

| member | source | states |
|---|---|---|
| Rules.RuleRegistry.RegisterRule | libs/rule_engine/include/rule_base.hpp:33-33 | registering appends to the rule list |
| Rules.RuleRegistry.EvaluateAll | libs/rule_engine/include/rule_base.hpp:38-46 | the events of all firing rules, in registration order |
| Rules.FireAllMember | libs/rule_engine/include/rule_base.hpp:35-46 | an event is reported iff some registered rule produced it |
| Rules.FireAllInOrder | libs/rule_engine/include/rule_base.hpp:38-46 | the events of earlier registered rules come first |
| Rules.MakeDefaultRuleRegistry | libs/rule_engine/src/rule_registry.cpp:5-12 | the four GP rules in their fixed order |
| Rules.MakeDefaultObjectRuleRegistry | libs/rule_engine/src/object_rule_registry.cpp:5-12 | the four SATCAT rules in their fixed order |
| Rules.GpSilentIff | libs/rule_engine/src/drag_change_rule.cpp:22-37 | no GP event iff all five changes are within their thresholds, the drag test stated without division |
| Rules.GpEventsReportTheChange | libs/rule_engine/src/maneuver_detected_rule.cpp:18-40 | events carry the pair's epochs; each of the four kinds is over its threshold and its numbers tie the two states |
| Rules.GpEventMeaning | libs/rule_engine/include/rule_base.hpp:35-46 | an event is reported iff it is one of the four given by their own thresholds and payloads on the two snapshots, whatever the other rules say |
| Rules.GpEventsInOrder | libs/rule_engine/src/rule_registry.cpp:5-12 | maneuver, RAAN, eccentricity, drag: in that order and each at most once |
| Rules.ObjectEventMeaning | libs/rule_engine/src/object_renamed_rule.cpp:14-30 | a SATCAT event is reported iff it is a first decay date or a changed, present name, type or size |
| Rules.ObjectEventsInOrder | libs/rule_engine/src/object_rule_registry.cpp:5-12 | decay, name, type, size: in that order and each at most once |
| Tables.HotTargetsRanked | services/poller/db_writer.cpp:253-269 | on the columns: listed rows are not decayed and featured or viewed, ranked by featured, hits and id; a qualifying row is left out only by a full list of rows that outrank it |
| Tables.HotWhenTheyFit | services/poller/db_writer.cpp:255-259 | when they fit, an id is hot iff its row has no decay date and is featured or viewed |
| Tables.BatchIsRotationRows | services/poller/db_writer.cpp:227-247 | on the columns: only rows without decay date outside the exclusions, all of them when few, else exactly the first k met going up from the cursor and around, in that order |
| Tables.CursorColumn | services/poller/db_writer.cpp:215-222 | a missing row or a null cursor reads as -1 |
| Tables.DueInSeconds | services/poller/db_writer.cpp:182-200 | GP is due 3300 s and SATCAT 86100 s after the last run, both at once without one |
| Tables.LatestIsNewest | services/poller/db_writer.cpp:98-109 | whatever the tie-break, a newest row of the object, and none iff it has none |
| Rotation.BatchIsCyclicPrefix | services/poller/db_writer.cpp:227-247 | with enough eligible ids the two selects are the first k ids in cyclic order after the cursor |
| Rotation.ShortBatchIsEverything | services/poller/db_writer.cpp:235-247 | with too few, the batch holds every eligible id and nothing else |
| Rotation.BatchIsEligible | services/poller/db_writer.hpp:128-133 | only live ids outside the exclusions are in a batch |
| Rotation.BatchLength | services/poller/db_writer.cpp:211-251 | at most k ids, exactly k when enough are eligible |
| Rotation.BatchDistinctIff | services/poller/db_writer.cpp:238-247 | duplicate-free iff enough ids are eligible or none lies past the cursor |
| Rotation.TinyCatalogRepeats | services/poller/db_writer.cpp:238-247 | a catalog of one id is requested twice |
| Rotation.FullBatchIsArc | services/poller/db_writer.cpp:227-247 | a full batch is the eligible ids of the arc from the cursor to its last id |
| Rotation.FullBatchOrder | services/poller/db_writer.cpp:227-247 | a full batch is in cyclic order and what it leaves out comes after all of it |
| Rotation.NoLiveIdPassedOver | services/poller/gp_poller.cpp:112-129 | every live id the cursor moves past is in the hot list or the batch |
| Rotation.RankDrops | services/poller/gp_poller.cpp:120-129 | an id not requested moves at least a whole batch closer to the cursor |
| Rotation.BoundedFairness | services/poller/main.cpp:192-198 | an id live throughout is requested within ceil(n/300) completed runs, n counting all ids ever live |
| History.CountersAddUp | services/poller/gp_poller.cpp:78-110 | inserted + unchanged + errors = records + records that failed after their snapshot was stored |
| History.CountersMean | services/poller/gp_poller.cpp:78-110 | what each printed counter counts |
| History.InsertedCountsRows | services/poller/gp_poller.cpp:82-107 | the inserted counter is the growth of the snapshot table, and the loop only appends |
| History.ReprocessingIsIdempotent | services/poller/gp_poller.cpp:82-107 | processing a body twice changes no table the second time, any order, repetition and event fault allowed |
| History.OtherRecordKeepsHistory | services/poller/gp_poller.cpp:82-101 | another object's record leaves an object's snapshots and events alone |
| History.OwnRecordExtendsHistory | services/poller/gp_poller.cpp:91-101 | an object's stored record appends itself and its diff against the newest row |
| History.RecordWritesItsDiff | services/poller/gp_poller.cpp:91-101 | field by field: a stored record appends its row and the events of its diff against a newest row, in order, under its id and the two row ids, up to a failed write |
| History.LogIsDiffs | services/poller/gp_poller.cpp:94-101 | an object's log is its arrivals' diffs one after the other |
| History.InOrderLogIsAdjacent | libs/rule_engine/include/rule.hpp:8-10 | in epoch order the diffs are those of adjacent pairs |
| Satcat.BatchIsFoldPerObject | services/poller/db_writer.cpp:36-96 | per object a batch logs the fold of the rules over stored then incoming states and stores the last |
| Satcat.RecordEventMeaning | services/poller/db_writer.cpp:45-77 | what a record fires, from the columns of the row it finds and its own fields; nothing at first sighting |
| Satcat.UpsertedColumns | services/poller/db_writer.cpp:80-91 | the columns a record writes and those it leaves, on insert and on conflict |
| Satcat.ReturnedEventsAreLogged | services/poller/db_writer.cpp:69-96 | the events a batch returns are those of the rows it appends, one for one and in order, tied to no snapshot |
| Satcat.FirstSightingSetsFacts | services/poller/db_writer.cpp:80-91 | a new object takes country, launch date and site from its first record, with no object id, no hits and not featured |
| Satcat.LoggedChanges | libs/rule_engine/src/object_renamed_rule.cpp:14-30 | the logged changes of name, type or size are the adjacent changes of present text |
| Satcat.ReplayIff | libs/rule_engine/src/object_renamed_rule.cpp:15-23 | the log tracks the stored text at every moment iff the text is never or always missing |
| Satcat.MissingNameHidesRename | libs/rule_engine/src/object_renamed_rule.cpp:15-20 | three imports whose middle one lacks the name log nothing; the same without it log the rename; both store the new name |
| Satcat.ReimportChangesNothing | services/poller/db_writer.cpp:45-92 | applying a batch again fires nothing and changes nothing, unless it contradicts itself |
| Satcat.DecaysAreSeparated | libs/rule_engine/src/decay_detected_rule.cpp:18-28 | strictly between two decay events of an object a write replaced its date by null |
| Satcat.DecayFiresIff | libs/rule_engine/src/decay_detected_rule.cpp:18-28 | a write fires a decay iff it puts a date over a stored row without one |
| Satcat.QueriedBatchNeverDecays | services/poller/satcat_poller.cpp:10-21 | a response to the actual query logs no decay and keeps every live object live |
| System.ResponseIsRun | services/poller/gp_poller.cpp:82-107 | the record loop is a run of single records |
| System.RunKeepsIntegrity | db/migrations/001_init.sql:14-59 | every run keeps these: gp_ids are unique, snapshots have objects, GP events link an earlier and a later snapshot of their own object; no object, snapshot or event is deleted |
| System.ReachableStates | db/migrations/004_add_hit_count.sql:1-6 | every state reachable from the empty database has integrity, and hit_count is the number of successful lookups since insertion |
| System.FactsFixedAndHitsCounted | services/poller/db_writer.hpp:52-58 | object id, country, launch date, site and the featured mark never change, and hit_count counts exactly the successful lookups |
| System.LookupCommutesIff | services/api/routes.cpp:481-510 | a committed lookup can be moved across a step of any other writer iff the step is not the import that brings its object |
| System.ObjectIdIsNeverStored | services/poller/db_writer.cpp:80-91 | in every reachable state every object id is null |
| GpLog.GpLogOfRun | services/poller/gp_poller.cpp:82-101 | over any interleaving an object's GP events are its records diffed against the newest before each, naming those rows |
| GpLog.GpLogOfEveryRun | services/poller/gp_poller.cpp:82-107 | with no hypothesis on faults, epochs or ties: the stored rows are the arrivals and the GP events are each arrival's diff against the newest row its query preferred, cut at the failed write |
| GpLog.RunWritesItsDiffs | services/poller/gp_poller.cpp:82-107 | the same field by field: each stored row's events follow those of the rows before it and are its diff against a newest earlier row, up to a failed write |
| GpLog.RunComparesForwardIff | libs/rule_engine/include/rule.hpp:8-10 | over any run every comparison has the earlier epoch first iff the stored records arrived in epoch order |
| GpLog.InputComparesForwardIff | libs/rule_engine/include/rule.hpp:8-10 | on faultless input under gp_ids of its own every comparison has the earlier epoch first iff the deduplicated record stream is in epoch order |
| GpLog.LateRecordComparedBackwards | services/poller/gp_poller.cpp:84-101 | a run from the empty database in which a late record logs an event from a later to an earlier epoch |
| GpLog.StoredStreamIsDeduped | services/poller/gp_poller.cpp:84-92 | in epoch order what is stored is the record stream deduplicated on gp_id |
| GpLog.GpLogIsAdjacentPairs | services/poller/gp_poller.cpp:82-101 | in epoch order and with no failed write the GP events are the rules on adjacent pairs of the deduplicated stream |
| GpLog.CleanInputIsWritten | services/poller/gp_poller.cpp:82-107 | a known object's records all get stored or dropped as duplicates when they come in epoch order, without faults and under gp_ids nothing else has |
| GpLog.GpLogOfCleanInput | services/poller/gp_poller.cpp:82-101 | the adjacent-pair result with hypotheses on the input alone |
| SatcatLog.SatcatLogOfRun | services/poller/db_writer.cpp:45-92 | over any run the SATCAT events of an object are the fold over its committed states |
| SatcatLog.TextReplaysOverRun | services/poller/db_writer.cpp:45-92 | with text never missing, replaying the logged changes from the first sighting gives the stored text |
| SatcatLog.ReplayOverRunIff | libs/rule_engine/src/object_renamed_rule.cpp:15-23 | with each import listing an object once, the log replays to the stored text after every step iff the text is never or always missing |
| SatcatLog.RunDecaysIff | libs/rule_engine/src/decay_detected_rule.cpp:18-28 | over any run a decay is logged iff some committed record puts a date over a stored row without one |
| SatcatLog.RunNeverDecays | services/poller/satcat_poller.cpp:10-21 | with responses to the actual query no decay is ever logged and live objects stay live |
| Drift.RoundKeepsGridBound | db/migrations/001_init.sql:20-32 | column rounding cannot carry a value past a bound that is a whole number of column units away |
| Drift.RoundWithinHalf | db/migrations/001_init.sql:20-32 | a stored value is within half a unit of the last decimal |
| Drift.RoundingMeaning | db/migrations/001_init.sql:20-32 | NUMERIC rounding determined: whole column units, at most half a unit away, away from zero from exactly half |
| Drift.StoredColumns | db/migrations/001_init.sql:20-32 | angles read back to four decimals, eccentricity to eight, bstar to fourteen, the axis as it was |
| Drift.FittingValueIsKept | db/migrations/001_init.sql:20-32 | a value with no more decimals than its column is stored unchanged |
| Drift.SilentStep | libs/rule_engine/src/maneuver_detected_rule.cpp:18-27 | a silent diff bounds the change between stored rows, rounding included |
| Drift.SmallStepsBoundDrift | libs/rule_engine/src/raan_shift_rule.cpp:19-23 | with every row compared to some earlier one, row k has moved at most 0.01k in inclination and RAAN, k in the axis, 0.001k in eccentricity, and bstar by a factor 1.5 per step |
| Drift.SignKept | libs/rule_engine/src/drag_change_rule.cpp:22-37 | bstar changes sign unnoticed only through a near-zero row |
| Drift.SilentObjectBarelyMoves | services/poller/gp_poller.cpp:94-101 | the same bounds for every stored row of an object without GP events, in any order of arrival, with any ties and failed reads or inserts, provided no event write failed |
| Scheduler.StampsAreSpaced | services/poller/db_writer.cpp:182-209 | consecutive stamps of a poller are at least its interval minus five minutes apart |
| Scheduler.StampsInWindow | services/poller/db_writer.cpp:182-209 | a window of length W holds at most W/(interval - 5 min) + 1 stamps |
| Scheduler.StampGapExact | services/poller/db_writer.cpp:182-209 | all runs keep stamps g apart iff g is at most the interval minus five minutes |
| Scheduler.RequestGapExact | services/poller/main.cpp:170-211 | with requests at most d after their stamp, all runs keep requests g apart iff g is at most 55 minutes less d, or 0 |
| Scheduler.RequestsInWindow | services/poller/main.cpp:170-211 | a window of length W holds at most (W + d)/(55 min) + 1 GP requests |
| Scheduler.DueAgainIff | services/poller/db_writer.cpp:184-199 | after a stamp, the next process to stamp is the first whose check comes the interval minus five minutes later |
| Scheduler.NoTickIsSkipped | services/poller/main.cpp:156-182 | with hourly ticks and lags up to five minutes each poller runs at exactly every Period()-th tick from its first due one, whatever the table |
| Scheduler.FirstDueTick | services/poller/db_writer.cpp:182-200 | the first due tick is the first one without a record, else one period after the tick of the last stamp |
| Sweep.CursorFollowsRotation | services/poller/gp_poller.cpp:127-129 | across imports, lookups and failures the stored cursor follows the rotation's own advance |
| Sweep.SweepReachesEveryLiveId | services/poller/main.cpp:191-211 | bounded fairness with the actual hot list, in the running system |
| Sweep.EveryImportedObjectIsPolled | services/poller/main.cpp:191-211 | with imports as queried, every object is requested within ceil(n/300) completed hours of a growing catalog |
| DbWriter.Writer.UpsertObjectsFromSatcat | services/poller/db_writer.cpp:36-96 | a committed batch is the whole fold of the given registry's rules and returns its events; a throwing one changes nothing |
| DbWriter.Writer.GetLastSnapshot | services/poller/db_writer.cpp:98-147 | the loop over the rows finds the newest row of the object |
| DbWriter.Writer.InsertSnapshot | services/poller/db_writer.cpp:149-166 | appends the stored form under a fresh id, or refuses an unknown object or a taken gp_id |
| DbWriter.Writer.InsertEvent | services/poller/db_writer.cpp:168-180 | appends one event row, or nothing |
| DbWriter.Writer.MarkPollerRun | services/poller/db_writer.cpp:202-209 | sets last_run_at of that poller, keeps its cursor, or inserts a row without one; no other row changes |
| DbWriter.Writer.NextGpRotationBatch | services/poller/db_writer.cpp:211-251 | returns, on the columns, the rotation rows from the stored cursor (-1 for none); the exclusion goes through the clause text |
| DbWriter.Writer.TopGpHotTargets | services/poller/db_writer.cpp:253-269 | returns undecayed, featured or viewed ids ranked by featured, hits and id, cut only when full and only below the rest |
| DbWriter.Writer.AdvanceGpRotationCursor | services/poller/db_writer.cpp:271-284 | sets the gp cursor and keeps last_run_at, or inserts a row with the current time; no other row changes |
| Text.BuildExclusionClause | services/poller/db_writer.cpp:17-31 | no text for no ids, else a condition that reads as norad_cat_id NOT IN exactly the given ids |
| Text.BuildQueryUrl | services/poller/gp_poller.cpp:16-58 | throws iff there is no target; otherwise the URL's id list reads back as hot then rotation |
| Text.QueryTexts | services/poller/gp_poller.cpp:54-57 | both query texts in full for two ids |
| Pollers.GpPoller.ProcessOne | services/poller/gp_poller.cpp:83-106 | one record with its catch clause |
| Pollers.GpPoller.ProcessResponse | services/poller/gp_poller.cpp:60-134 | an unparsable body changes nothing; otherwise the record loop, its counters, then the cursor from the rotation part only |
| Pollers.GpPoller.Run | services/poller/poller_base.cpp:7-35 | fetches one URL that asks for hot then rotation ids, or none without a login or targets; failures change nothing; only an empty target list lets an exception out |
| Pollers.SatcatPoller.Run | services/poller/satcat_poller.cpp:23-36 | all or nothing, exceptions swallowed |
| Pollers.RunProcess | services/poller/main.cpp:149-221 | decide both, stamp both, SATCAT, then the split and GP; the URL sent reads back as the targets chosen after the import, and when the process ends with an exception |
| Pollers.FailuresKeepCursor | services/poller/poller_base.cpp:7-35 | login, fetch, empty-target, parse and cursor-write failures leave the cursor |
| Pollers.ProcessedResponseMovesCursor | services/poller/gp_poller.cpp:112-134 | record failures do not: a processed response moves the cursor to the last rotation id |
| Pollers.ResponseIsIdempotent | services/poller/gp_poller.cpp:82-129 | reprocessing a body leaves every table, cursor included |
| ProcessRuns.RequestAssembly | services/poller/main.cpp:196-198 | at most 200 hot and 500 ids in all, of rows without decay date, in one request; 500 when enough rows are left, and distinct iff they fill the quota or none of them lies past the cursor |
| ProcessRuns.TargetRows | services/poller/main.cpp:191-198 | on the columns: the best 200 hot rows and the rotation's share of the other rows, none of them decayed |
| ProcessRuns.TargetsExistIff | services/poller/gp_poller.cpp:17-19 | there is a target iff some row is not decayed |
| ProcessRuns.SendsIff | services/poller/main.cpp:170-211 | a process sends a GP request iff it gets that far, GP is due in seconds, either poller logged in, and some row is not decayed after the import |
| ProcessRuns.CrashesIff | services/poller/main.cpp:153-221 | when a process ends with an exception |
| ProcessRuns.ProcessPassesNoLiveId | services/poller/gp_poller.cpp:127-129 | every live id between a process's old and new cursor is in the URL it sent |
| ProcessRuns.ProcessIsHour | services/poller/main.cpp:170-211 | each process is one step of the sweep, so the sweep's results hold of it |
| ProcessRuns.ProcessIsInvocation | services/poller/main.cpp:170-182 | poller_state evolves as the scheduler's table does |
| ProcessRuns.ProcessesAreRun | services/poller/main.cpp:149-221 | processes, with anything others do in between, are a run of the system, so results about runs hold of them |
| ProcessRuns.ProcessKeepsIntegrity | db/migrations/001_init.sql:14-59 | every process keeps the tables' integrity |
| ProcessRuns.EveryObjectIsPolled | services/poller/main.cpp:170-211 | end to end, with lookups and imports between processes reshuffling the hot list, every catalog object is in a URL sent by the time ceil(n/300) GP runs have completed |
| ProcessRuns.AskedForTargets | services/poller/gp_poller.cpp:16-58 | the URL a process sends reads back as the targets |
| Cadence.ProcessesAreInvocations | services/poller/main.cpp:149-221 | over a sequence of processes poller_state evolves as the scheduler's table |
| Cadence.ProcessRequestRate | services/poller/main.cpp:170-211 | of processes that do not overlap, whatever fails and whatever is looked up in between: GP requests are 55 minutes less the delay apart, and a window holds no more than that allows |
| Cadence.ProcessGapExact | services/poller/main.cpp:170-211 | processes with requests at most d after their stamp always keep requests g apart iff g is at most 55 minutes less d, or 0 |
| Cadence.ClosestRequests | services/poller/main.cpp:170-211 | in any catalog with a live object that was never polled, two answered processes send requests exactly 55 minutes less the delay apart |
| Cadence.ProcessStampRate | services/poller/main.cpp:170-182 | the same for the stamps of either poller |
| Cadence.ProcessTicks | services/poller/main.cpp:156-182 | hourly processes run GP at every tick and SATCAT at exactly every 24th from one day after its last one |
| Cadence.AllComplete | services/poller/main.cpp:156-211 | hourly processes that are answered all complete their GP run |
| Cadence.EveryObjectIsPolledInTime | services/poller/main.cpp:170-211 | hourly cron, lags up to five minutes, answered requests and any lookups in between: every catalog object is asked for within ceil(n/300) hours plus the request delay |
| Api.GetObject | services/api/routes.cpp:481-510 | a committed lookup adds one hit and returns the updated row, a missing object is reported |
| Api.GetCatalog | services/api/routes.cpp:424-472 | 304 exactly by the decision function on the current metadata, and the current ETag and Last-Modified on both answers |
| Api.MetaColumns | services/api/routes.cpp:416-421 | the version is dated by the SATCAT stamp, or now before any, and counts the rows |
| Api.LookupKeepsValidators | services/api/routes.cpp:424-449 | a lookup adds a hit to the row and changes neither validator |
| CivilTime.DateOfCorrect | services/api/routes.cpp:40-47 | every day number is the number of the valid date computed for it, over all leap cycles |
| CivilTime.DateOfDayNumber | services/api/routes.cpp:71-73 | every valid date is recovered from its day number |
| CivilTime.TimeGmOfGmTime | services/api/routes.cpp:40-74 | timegm undoes gmtime_r for every time |
| CivilTime.PosixSecondsOfGmTime | services/api/routes.cpp:71-73 | the whole POSIX seconds-since-the-Epoch expression on the broken-down time gives the time back |
| CivilTime.WeekdayIsRight | services/api/routes.cpp:36-45 | the weekday agrees with an independent day-of-week congruence |
| HttpDate.HttpDateRoundTrip | services/api/routes.cpp:40-74 | parsing a printed date gives the time back iff its year is -999 to 9999, and nothing otherwise |
| HttpDate.HttpDateLength | services/api/routes.cpp:43-46 | 29 characters for readable years, and within the 40-byte buffer for every 32-bit year |
| HttpDate.PrintedWeekdayIsRight | services/api/routes.cpp:36-46 | the printed weekday and month names are those of the printed date |
| HttpDate.PrintedExample | services/api/routes.cpp:40-47 | the example of section 7.1.1.1 of RFC 7231 |
| DateSyntax.ParseHttpDateIff | services/api/routes.cpp:55-74 | the parser's language in full: which texts read as a time, with any white space, signs, short numbers, weekday and trailing text, and as which time |
| HeaderLists.IfNoneMatchMatches | services/api/routes.cpp:79-104 | the loop computes the token comparison |
| HeaderLists.HeaderMatchesIff | services/api/routes.cpp:76-104 | on any header text: matches iff it contains a star or some piece between commas is the etag, possibly weak, between blanks |
| HeaderLists.WildcardMatches | services/api/routes.cpp:83-85 | the bare wildcard, padded or not, matches every etag |
| HeaderLists.TagListMatchesIff | services/api/routes.cpp:76-104 | on every well-formed tag list, padded, weak, with empty elements or commas inside tags: matches iff the etag is listed or some tag contains a star |
| HeaderLists.StarInsideTagMatchesAnything | services/api/routes.cpp:83-85 | a well-formed tag list with a star inside some tag matches every etag |
| HeaderLists.ParseOriginList | services/api/cors_middleware.cpp:22-33 | the loop collects the trimmed non-blank tokens |
| HeaderLists.OriginReadIff | services/api/cors_middleware.cpp:13-33 | an origin is read iff some item between commas is it between blanks |
| HeaderLists.OriginListRoundTrip | services/api/cors_middleware.cpp:11-33 | a padded list of origins reads back as its origins in order |
| ConditionalGet.EtagInjective | services/api/routes.cpp:430-435 | the printed ETag determines the import second and the row count |
| ConditionalGet.EtagExample | services/api/routes.cpp:416-435 | an ETag in full, fractions of the second dropped |
| ConditionalGet.NearestSecondMeaning | services/api/routes.cpp:416-420 | the date is within half a second of the stamp, ties away from 1970 |
| ConditionalGet.EchoedEtagsDecide | services/api/routes.cpp:438-443 | a client listing the ETags of its copies gets 304 iff one is current, whatever date it sends |
| ConditionalGet.EchoedEtagDecides | services/api/routes.cpp:438-443 | the same for a single echoed ETag |
| ConditionalGet.EchoedDateDecides | services/api/routes.cpp:444-449 | a client with only the echoed date gets 304 iff the stamp has not moved past it and the year is readable |
| ConditionalGet.WildcardIsNotModified | services/api/routes.cpp:438-443 | If-None-Match: * gives 304 for every version, whatever the date |
| ConditionalGet.UnconditionalIsSent | services/api/routes.cpp:437-449 | without a condition, or with an unreadable date, the catalog is sent |
| ConditionalGet.NewImportInvalidates | services/api/routes.cpp:410-449 | after a later SATCAT stamp no validator of an earlier copy yields 304 |
| Validators.ValidatorsTrack | services/api/routes.cpp:410-449 | after any run the echoed ETag gives 304 iff the stamp's second is the same and no committed batch listed a new id, the echoed date iff the stamp rounds to no later a second and is readable |
| Validators.DateMissesCountChange | services/api/routes.cpp:416-449 | stamp, copy, import of a new object: the date still gives 304, the ETag does not |
| Validators.ValidatorsMissUpdate | services/api/routes.cpp:430-449 | stamp, copy, import that updates a row: both validators still give 304 |

## Left out

- Space-Track HTTP, session and cookies, JSON parsing and serialisation: a login, a fetch and parsed records are parameters.
- Postgres itself: each statement has its meaning as a function on the tables; the JOIN with `objects` in the last-snapshot query always finds its row, by the integrity proved here.
- Snapshot fields that no rule and no dedup reads (mean motion, TLE lines and so on), column overflow and text length limits: a refused value is an insert fault.
- IEEE rounding in the rules: doubles are reals. The rounding of the NUMERIC columns is modelled; `semimajor_axis` is stored exactly.
- Epoch text formats: an epoch is an instant.
- Overlapping poller processes: no lock prevents them; `Scheduler.Sequential` states that they do not overlap. Single records, imports, lookups and cursor writes do interleave freely in `System`.
- API requests during a process: `ProcessRuns.Turn` places lookups between processes, and `System.LookupCommutesIff` moves any lookup there except one of an object the process itself has just imported. `Sweep.Hour` has them inside as well.
- Idempotence of a record whose read or insert failed only the first time: the second pass may then store it, as it should.
- gmtime_r's failure for years beyond 32 bits, and `to_char`'s different text for years before 1.
- The payload of the catalog response and the read-only list, search, popular, top-events, stats, snapshot and event handlers.
- Log text and `TimestampedStreambuf`, `quick_exit`, CORS headers beyond the origin list: they neither read nor write modelled state.
- DbWriter.Writer.InsertSnapshot: a commit whose outcome the client cannot learn counts as not committed.
