/** The two API handlers that touch modelled state: the object lookup and the catalog request. */
module Api {
  import opened Tables
  import opened DbWriter
  import opened System
  import opened ConditionalGet
  import HeaderLists
  import HttpDate

  datatype Lookup = Found(row: ObjectRow) | NotFound | ServerError

  /** `/objects/<int>`: counting the hit and reading the row are one statement. */
  method GetObject(db: Database, id: int, commits: bool) returns (r: Lookup)
    modifies db
    ensures db.View() == Step(old(db.View()), Action.Lookup(id, commits))
    ensures r == if !commits then ServerError
                 else if id in old(db.objects) then Found(db.objects[id])
                 else NotFound
  {
    var objects := WithHit(db.objects, id);
    if !commits {
      return ServerError;
    }
    db.objects := objects;
    r := if id in db.objects then Found(db.objects[id]) else NotFound;
  }

  /** The last SATCAT stamp, or the current time before any. */
  function ImportStamp(t: Tables, now: int): int {
    if "satcat" in t.pollers then t.pollers["satcat"].lastRunAt else now
  }

  /** The cheap query: import stamp and number of rows. */
  function MetaOf(t: Tables, now: int): Meta {
    Meta(ImportStamp(t, now), |t.objects|)
  }

  /** Before any import the version is dated now; after one, by its stamp. Either way it counts the rows. */
  lemma MetaColumns(t: Tables, now: int)
    ensures var m := MetaOf(t, now);
            && ("satcat" !in t.pollers ==> m.generatedAt == now)
            && ("satcat" in t.pollers ==> m.generatedAt == t.pollers["satcat"].lastRunAt)
            && m.objectCount == |t.objects.Keys|
  {
    assert |t.objects| == |t.objects.Keys|;
  }

  /** A lookup changes a hit count, which is in the payload, but neither validator. */
  lemma LookupKeepsValidators(t: Tables, id: int, committed: bool, now: int)
    ensures var t' := Step(t, Action.Lookup(id, committed));
            && MetaOf(t', now) == MetaOf(t, now)
            && (committed && id in t.objects ==>
                  id in t'.objects && t'.objects[id] == t.objects[id].(hitCount := t.objects[id].hitCount + 1)
                  && t'.objects != t.objects)
  {
    assert WithHit(t.objects, id).Keys == t.objects.Keys;
    assert |WithHit(t.objects, id)| == |WithHit(t.objects, id).Keys| && |t.objects| == |t.objects.Keys|;
  }

  /** What every answer to a catalog request carries. */
  datatype CatalogAnswer = CatalogAnswer(status: int, etag: string, lastModified: string)

  /** `/objects/catalog` without the payload of a 200: both answers carry the validators of the current version. */
  method GetCatalog(db: Database, ifNoneMatch: string, ifModifiedSince: string, now: int) returns (answer: CatalogAnswer)
    ensures var meta := MetaOf(db.View(), now);
            && answer.status == (if NotModified(meta, ifNoneMatch, ifModifiedSince) then 304 else 200)
            && answer.etag == EtagOf(meta) && answer.lastModified == LastModifiedOf(meta)
  {
    hide MetaOf, EtagOf, EpochOf, HttpDate.FormatHttpDate, HttpDate.ParseHttpDate, HeaderLists.Matches;
    var meta := MetaOf(db.View(), now);
    var etag := EtagOf(meta);
    var lastModified := HttpDate.FormatHttpDate(EpochOf(meta));
    var notModified := false;
    if ifNoneMatch != "" {
      notModified := HeaderLists.IfNoneMatchMatches(ifNoneMatch, etag);
    } else if ifModifiedSince != "" {
      var since := HttpDate.ParseHttpDate(ifModifiedSince);
      if since.Some? {
        notModified := EpochOf(meta) <= since.value;
      }
    }
    answer := CatalogAnswer(if notModified then 304 else 200, etag, lastModified);
  }
}
