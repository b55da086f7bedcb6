/**
 * The Postgres tables as values, and the meaning of the statements the poller
 * and the API run on them.
 */
module Tables {
  import opened Prelude
  import opened Ordering
  import opened Rules
  import Rotation

  datatype ObjectRow = ObjectRow(
    objectName: Option<string>, objectId: Option<string>, objectType: Option<string>, countryCode: Option<string>,
    launchDate: Option<string>, site: Option<string>, rcsSize: Option<string>, decayDate: Option<string>,
    hitCount: nat, featured: bool)

  /** One parsed SATCAT entry. */
  datatype ObjectRecord = ObjectRecord(
    noradCatId: int, objectName: string, objectId: string, objectType: string, countryCode: string,
    launchDate: Option<string>, site: string, rcsSize: string, decayDate: Option<string>)

  /** `snap` holds the column values, that is, after rounding to the column's scale. */
  datatype SnapshotRow = SnapshotRow(id: int, snap: Snapshot)

  /** Both snapshot ids are NULL on SATCAT events. */
  datatype EventRow = EventRow(
    noradCatId: int, event: DetectedEvent, prevSnapshotId: Option<int>, newSnapshotId: Option<int>)

  datatype PollerRow = PollerRow(lastRunAt: int, rotationCursor: Option<int>)

  /** `nextSnapshotId` is the least value the snapshots' id sequence can still hand out. */
  datatype Tables = Tables(
    objects: map<int, ObjectRow>, snapshots: seq<SnapshotRow>, nextSnapshotId: int,
    events: seq<EventRow>, pollers: map<string, PollerRow>)

  /** The database right after its migrations. */
  const EMPTY_TABLES := Tables(map[], [], 1, [], map[])

  // ----- NUMERIC columns -----

  /** NUMERIC rounding to 1/scale: to nearest, halves away from zero. */
  function RoundNumeric(x: real, scale: real): real
    requires scale > 0.0
  {
    if x >= 0.0 then (x * scale + 0.5).Floor as real / scale
    else -((-x * scale + 0.5).Floor as real / scale)
  }

  const SCALE_4 := 10000.0
  const SCALE_8 := 100000000.0
  const SCALE_14 := 100000000000000.0

  /** What reading a snapshot back returns: angles have 4 decimals, eccentricity 8, bstar 14. */
  function Stored(s: Snapshot): (r: Snapshot)
    ensures r.noradCatId == s.noradCatId && r.gpId == s.gpId && r.epoch == s.epoch
  {
    s.(inclination := RoundNumeric(s.inclination, SCALE_4),
       raOfAscNode := RoundNumeric(s.raOfAscNode, SCALE_4),
       eccentricity := RoundNumeric(s.eccentricity, SCALE_8),
       bstar := RoundNumeric(s.bstar, SCALE_14))
  }

  // ----- objects -----

  function StateOfRow(row: ObjectRow): ObjectState {
    ObjectState(row.objectName.GetOr(""), row.objectType.GetOr(""), row.rcsSize.GetOr(""), row.decayDate)
  }

  function StateOfRecord(rec: ObjectRecord): ObjectState {
    ObjectState(rec.objectName, rec.objectType, rec.rcsSize, rec.decayDate)
  }

  /**
   * INSERT ... ON CONFLICT DO UPDATE: only four columns follow later sightings.
   * The column list has no `object_id`, so that column is never filled.
   */
  function Upserted(objects: map<int, ObjectRow>, rec: ObjectRecord): map<int, ObjectRow> {
    var row :=
      if rec.noradCatId in objects then
        objects[rec.noradCatId].(
          objectName := Some(rec.objectName), objectType := Some(rec.objectType),
          rcsSize := Some(rec.rcsSize), decayDate := rec.decayDate)
      else
        ObjectRow(Some(rec.objectName), None, Some(rec.objectType), Some(rec.countryCode), rec.launchDate,
                  Some(rec.site), Some(rec.rcsSize), rec.decayDate, 0, false);
    objects[rec.noradCatId := row]
  }

  function Live(objects: map<int, ObjectRow>): set<int> {
    set id | id in objects && objects[id].decayDate.None?
  }

  function HotCandidates(objects: map<int, ObjectRow>): set<int> {
    set id | id in objects && objects[id].decayDate.None? && (objects[id].featured || objects[id].hitCount > 0)
  }

  /** `featured DESC, hit_count DESC`. */
  function HotKey(objects: map<int, ObjectRow>): SortKey {
    (id: int) =>
      if id in objects then
        var hits: int := objects[id].hitCount;
        (if objects[id].featured then 0 else 1, -hits)
      else
        (2, 0)
  }

  function HotTargets(objects: map<int, ObjectRow>, limit: nat): seq<int> {
    Limit(OrderBy(HotCandidates(objects), HotKey(objects)), limit)
  }

  /** Featured objects first, then the more viewed, then the lower id. */
  predicate Outranks(objects: map<int, ObjectRow>, x: int, y: int)
    requires x in objects && y in objects
  {
    var (a, b) := (objects[x], objects[y]);
    if a.featured != b.featured then a.featured
    else if a.hitCount != b.hitCount then a.hitCount > b.hitCount
    else x < y
  }

  lemma KeyRanks(objects: map<int, ObjectRow>, x: int, y: int)
    requires x in objects && y in objects
    ensures Before(HotKey(objects), x, y) <==> Outranks(objects, x, y)
  {
  }

  /** Cutting a sorted listing keeps the best: prefix elements precede the rest. */
  lemma CutKeepsBest(all: seq<int>, k: nat, key: SortKey, x: int, i: nat)
    requires SortedBy(all, key) && k <= |all| && i < k
    requires x in all && x !in all[..k]
    ensures Before(key, all[i], x)
  {
    var j :| 0 <= j < |all| && all[j] == x;
    assert forall m :: 0 <= m < k ==> all[m] == all[..k][m];
  }

  /**
   * What the query asks for, on the columns: every listed row is not decayed
   * and featured or viewed; ids are listed once and in rank order; a row that
   * qualifies is left out only by a full list whose rows all outrank it.
   */
  ghost predicate RankedCut(objects: map<int, ObjectRow>, limit: nat, hot: seq<int>) {
    && |hot| <= limit && Distinct(hot)
    && (forall i :: 0 <= i < |hot| ==>
          && hot[i] in objects && objects[hot[i]].decayDate == None
          && (objects[hot[i]].featured || objects[hot[i]].hitCount > 0))
    && (forall i, j :: 0 <= i < j < |hot| ==> Outranks(objects, hot[i], hot[j]))
    && (forall id :: id in objects && objects[id].decayDate == None && (objects[id].featured || objects[id].hitCount > 0)
                     && id !in hot ==>
          |hot| == limit && forall i :: 0 <= i < |hot| ==> Outranks(objects, hot[i], id))
  }

  lemma HotTargetsRanked(objects: map<int, ObjectRow>, limit: nat)
    ensures RankedCut(objects, limit, HotTargets(objects, limit))
  {
    hide OrderBy, HotKey, Before, Outranks;
    var (key, wanted) := (HotKey(objects), HotCandidates(objects));
    var all := OrderBy(wanted, key);
    var hot := HotTargets(objects, limit);
    assert hot == all[..|hot|];
    forall i | 0 <= i < |hot|
      ensures hot[i] in wanted
    {
      assert all[i] in Elements(all);
    }
    forall id, i | id in wanted && id !in hot && 0 <= i < |hot|
      ensures Outranks(objects, hot[i], id)
    {
      assert id in Elements(all);
      CutKeepsBest(all, |hot|, key, id, i);
      KeyRanks(objects, hot[i], id);
    }
    forall id | id in wanted && id !in hot
      ensures |hot| == limit
    {
      assert id in Elements(all);
      assert |hot| < limit ==> hot == all;
    }
    forall i, j | 0 <= i < j < |hot|
      ensures Outranks(objects, hot[i], hot[j])
    {
      KeyRanks(objects, hot[i], hot[j]);
    }
  }

  /** Whether a row is hot, read off the columns: all that qualify, when they fit. */
  lemma HotWhenTheyFit(objects: map<int, ObjectRow>, limit: nat, id: int)
    requires var wanted := set x | x in objects && objects[x].decayDate == None && (objects[x].featured || objects[x].hitCount > 0);
             |wanted| <= limit
    ensures id in HotTargets(objects, limit)
            <==> && id in objects && objects[id].decayDate == None
                 && (objects[id].featured || objects[id].hitCount > 0)
  {
    hide HotTargets, Outranks;
    HotTargetsRanked(objects, limit);
    var wanted := set x | x in objects && objects[x].decayDate == None && (objects[x].featured || objects[x].hitCount > 0);
    var hot := HotTargets(objects, limit);
    if id in wanted && id !in hot {
      DistinctCount(hot);
      assert Elements(hot) <= wanted - {id};
      SubsetCount(Elements(hot), wanted - {id});
    }
  }

  // ----- the rotation query on the rows -----

  /** What the two queries return, on the columns: a rotation over the rows that are neither decayed nor excluded. */
  ghost predicate RotationRows(objects: map<int, ObjectRow>, cursor: int, batchSize: nat, excluded: seq<int>, batch: seq<int>) {
    var all := set id | id in objects && objects[id].decayDate == None && id !in excluded;
    Rotation.FirstAround(all, cursor, batchSize, batch)
  }

  lemma BatchIsRotationRows(objects: map<int, ObjectRow>, cursor: int, batchSize: nat, excluded: seq<int>)
    ensures RotationRows(objects, cursor, batchSize, excluded,
                         Rotation.NextBatch(Live(objects), cursor, batchSize, Elements(excluded)))
  {
    hide Rotation.BatchFrom, Rotation.FirstAround;
    var all := set id | id in objects && objects[id].decayDate == None && id !in excluded;
    assert all == Rotation.Eligible(Live(objects), Elements(excluded));
    Rotation.BatchIsFirstAround(all, cursor, batchSize);
  }

  // ----- snapshots -----

  /** `ties(a, b)`: the query prefers row `b` to the equally recent, earlier row `a`. */
  type TieBreak = (int, int) -> bool

  predicate Supersedes(candidate: SnapshotRow, best: SnapshotRow, ties: TieBreak) {
    candidate.snap.epoch > best.snap.epoch
    || (candidate.snap.epoch == best.snap.epoch && ties(best.id, candidate.id))
  }

  /** `WHERE norad_cat_id = n ORDER BY epoch DESC LIMIT 1`. */
  function Latest(rows: seq<SnapshotRow>, n: int, ties: TieBreak): Option<SnapshotRow> {
    if rows == [] then None
    else
      var best := Latest(rows[..|rows| - 1], n, ties);
      var row := rows[|rows| - 1];
      if row.snap.noradCatId == n && (best.None? || Supersedes(row, best.value, ties)) then Some(row) else best
  }

  /** Whatever the tie-break, the query returns a newest row of the object, and none only if it has none. */
  lemma {:induction false} LatestIsNewest(rows: seq<SnapshotRow>, n: int, ties: TieBreak)
    ensures var r := Latest(rows, n, ties);
            && (r.None? <==> forall row :: row in rows ==> row.snap.noradCatId != n)
            && (r.Some? ==>
                  && r.value in rows && r.value.snap.noradCatId == n
                  && forall row :: row in rows && row.snap.noradCatId == n ==> row.snap.epoch <= r.value.snap.epoch)
  {
    if rows != [] {
      var init := rows[..|rows| - 1];
      LatestIsNewest(init, n, ties);
      assert rows == init + [rows[|rows| - 1]];
    }
  }

  predicate GpIdTaken(rows: seq<SnapshotRow>, gpId: int) {
    exists i :: 0 <= i < |rows| && rows[i].snap.gpId == gpId
  }

  // ----- poller_state -----

  /** Times are microseconds since the epoch, the resolution of a timestamp column. */
  const SECOND := 1000000

  const TOLERANCE := 300 * SECOND

  function IsDue(pollers: map<string, PollerRow>, name: string, interval: int, now: int): bool {
    name !in pollers || pollers[name].lastRunAt <= now - interval + TOLERANCE
  }

  /** In seconds: GP is due 55 minutes after its last run, SATCAT a day less five minutes, and both at once without one. */
  lemma DueInSeconds(pollers: map<string, PollerRow>, name: string, now: int)
    ensures name !in pollers ==> IsDue(pollers, name, 3600_000_000, now) && IsDue(pollers, name, 86400_000_000, now)
    ensures name in pollers ==>
              && (IsDue(pollers, name, 3600_000_000, now) <==> now - pollers[name].lastRunAt >= 3300_000_000)
              && (IsDue(pollers, name, 86400_000_000, now) <==> now - pollers[name].lastRunAt >= 86100_000_000)
  {
  }

  function Marked(pollers: map<string, PollerRow>, name: string, now: int): map<string, PollerRow> {
    pollers[name := if name in pollers then pollers[name].(lastRunAt := now) else PollerRow(now, None)]
  }

  function StoredCursor(pollers: map<string, PollerRow>): int {
    if "gp" in pollers then pollers["gp"].rotationCursor.GetOr(Rotation.NO_CURSOR) else Rotation.NO_CURSOR
  }

  function WithCursor(pollers: map<string, PollerRow>, cursor: int, now: int): map<string, PollerRow> {
    pollers["gp" := if "gp" in pollers then pollers["gp"].(rotationCursor := Some(cursor))
                    else PollerRow(now, Some(cursor))]
  }

  /** A sweep starts below every id: the cursor column is read as -1 while it is null or its row missing. */
  lemma CursorColumn(pollers: map<string, PollerRow>)
    ensures "gp" !in pollers ==> StoredCursor(pollers) == -1
    ensures "gp" in pollers ==>
              StoredCursor(pollers)
              == match pollers["gp"].rotationCursor
                 case Some(c) => c
                 case None => -1
  {
  }
}
