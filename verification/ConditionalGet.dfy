/** The validators of `/objects/catalog` and the 304 decision. */
module ConditionalGet {
  import opened Prelude
  import opened Tables
  import opened Text
  import opened CivilTime
  import opened HttpDate
  import opened HeaderLists
  import Scheduler

  /** The cheap metadata query: import stamp in microseconds since the epoch, and row count. */
  datatype Meta = Meta(generatedAt: int, objectCount: nat)

  /** What `to_char` prints: fractions of a second are dropped. */
  function WholeSecond(m: Meta): int {
    m.generatedAt / SECOND
  }

  /** What `EXTRACT(EPOCH ...)::bigint` yields: rounded to the nearest second. */
  function NearestSecond(time: int): int {
    if time >= 0 then (time + SECOND / 2) / SECOND else -((-time + SECOND / 2) / SECOND)
  }

  /** Within half a second, the later second from exactly half, before 1970 the earlier one. */
  lemma NearestSecondMeaning(time: int)
    ensures -500_000 <= NearestSecond(time) * 1_000_000 - time <= 500_000
    ensures NearestSecond(time) * 1_000_000 - time == 500_000 ==> time >= 0
    ensures NearestSecond(time) * 1_000_000 - time == -500_000 ==> time < 0
  {
  }

  function EpochOf(m: Meta): int {
    NearestSecond(m.generatedAt)
  }

  /** `YYYY-MM-DD"T"HH24:MI:SS"Z"` after the year. */
  function IsoTail(b: BrokenDown): string {
    "-" + Padded(b.date.month + 1, 2) + "-" + Padded(b.date.day, 2)
    + "T" + Padded(b.hour, 2) + ":" + Padded(b.minute, 2) + ":" + Padded(b.second, 2)
  }

  function IsoText(t: int): string {
    Padded(GmTime(t).date.year, 4) + IsoTail(GmTime(t))
  }

  function EtagContent(m: Meta): string {
    IsoText(WholeSecond(m)) + "Z-" + Decimal(m.objectCount)
  }

  function EtagOf(m: Meta): string {
    Quoted(EtagContent(m))
  }

  function LastModifiedOf(m: Meta): string {
    FormatHttpDate(EpochOf(m))
  }

  /** The handler's decision; an absent header is "". */
  function NotModified(m: Meta, ifNoneMatch: string, ifModifiedSince: string): bool {
    if ifNoneMatch != "" then
      Matches(ifNoneMatch, EtagOf(m))
    else if ifModifiedSince != "" then
      match ParseHttpDate(ifModifiedSince)
      case Some(since) => EpochOf(m) <= since
      case None => false
    else
      false
  }

  // ----- what an ETag determines -----

  predicate PlainChar(c: char) {
    IsDigit(c) || c == '-' || c == ':' || c == 'T'
  }

  predicate Plain(s: string) {
    forall i :: 0 <= i < |s| ==> PlainChar(s[i])
  }

  lemma PaddedIsPlain(n: int, width: nat)
    requires width > 1
    ensures Plain(Padded(n, width))
  {
    hide ZeroPad, Decimal, Padded;
    var digits := if n < 0 then ZeroPad(Decimal(-n), width - 1) else ZeroPad(Decimal(n), width);
    PaddedParts(n, width, digits);
  }

  lemma PaddedInjective(a: int, b: int, width: nat)
    requires width > 1 && Padded(a, width) == Padded(b, width)
    ensures a == b
  {
    hide ZeroPad, Decimal, Padded, Value;
    var da := if a < 0 then ZeroPad(Decimal(-a), width - 1) else ZeroPad(Decimal(a), width);
    var db := if b < 0 then ZeroPad(Decimal(-b), width - 1) else ZeroPad(Decimal(b), width);
    PaddedParts(a, width, da);
    PaddedParts(b, width, db);
    assert a < 0 ==> Padded(a, width)[0] == '-' && Padded(a, width)[1..] == da;
    assert b < 0 ==> Padded(b, width)[0] == '-' && Padded(b, width)[1..] == db;
    assert a >= 0 ==> Padded(a, width) == da && IsDigit(da[0]);
    assert b >= 0 ==> Padded(b, width) == db && IsDigit(db[0]);
  }

  lemma IsoTailShape(t: int)
    ensures |IsoTail(GmTime(t))| == 15 && Plain(IsoTail(GmTime(t)))
  {
    hide GmTime, Padded;
    var b := GmTime(t);
    GmTimeFits(t);
    TwoDigits(b.date.month + 1);
    TwoDigits(b.date.day);
    PaddedIsPlain(b.date.month + 1, 2);
    PaddedIsPlain(b.date.day, 2);
    PaddedIsPlain(b.hour, 2);
    PaddedIsPlain(b.minute, 2);
    PaddedIsPlain(b.second, 2);
  }

  lemma IsoTailFields(a: BrokenDown, b: BrokenDown)
    requires ClockFits(a) && ClockFits(b)
    requires 0 <= a.date.month < 12 && 0 <= b.date.month < 12
    requires 1 <= a.date.day <= 31 && 1 <= b.date.day <= 31
    requires IsoTail(a) == IsoTail(b)
    ensures a.date.month == b.date.month && a.date.day == b.date.day
    ensures a.hour == b.hour && a.minute == b.minute && a.second == b.second
  {
    hide Padded;
    TwoDigits(a.date.month + 1);
    TwoDigits(b.date.month + 1);
    TwoDigits(a.date.day);
    TwoDigits(b.date.day);
    var s, r := IsoTail(a), IsoTail(b);
    assert s[1..3] == Padded(a.date.month + 1, 2) && r[1..3] == Padded(b.date.month + 1, 2);
    assert s[4..6] == Padded(a.date.day, 2) && r[4..6] == Padded(b.date.day, 2);
    assert s[7..9] == Padded(a.hour, 2) && r[7..9] == Padded(b.hour, 2);
    assert s[10..12] == Padded(a.minute, 2) && r[10..12] == Padded(b.minute, 2);
    assert s[13..15] == Padded(a.second, 2) && r[13..15] == Padded(b.second, 2);
    PaddedInjective(a.date.month + 1, b.date.month + 1, 2);
    PaddedInjective(a.date.day, b.date.day, 2);
    PaddedInjective(a.hour, b.hour, 2);
    PaddedInjective(a.minute, b.minute, 2);
    PaddedInjective(a.second, b.second, 2);
  }

  lemma IsoTextInjective(t: int, u: int)
    requires IsoText(t) == IsoText(u)
    ensures t == u
  {
    hide GmTime, Padded, IsoTail, TimeGm;
    var a, b := GmTime(t), GmTime(u);
    IsoTailShape(t);
    IsoTailShape(u);
    var s := IsoText(t);
    assert s[..|s| - 15] == Padded(a.date.year, 4) == Padded(b.date.year, 4);
    assert s[|s| - 15..] == IsoTail(a) == IsoTail(b);
    PaddedInjective(a.date.year, b.date.year, 4);
    GmTimeFits(t);
    GmTimeFits(u);
    IsoTailFields(a, b);
    TimeGmOfGmTime(t);
    TimeGmOfGmTime(u);
  }

  lemma IsoTextIsPlain(t: int)
    ensures Plain(IsoText(t))
  {
    hide GmTime, Padded, IsoTail;
    IsoTailShape(t);
    PaddedIsPlain(GmTime(t).date.year, 4);
  }

  /** The printed ETag determines the import second and the row count. */
  lemma EtagInjective(m: Meta, n: Meta)
    requires EtagOf(m) == EtagOf(n)
    ensures WholeSecond(m) == WholeSecond(n) && m.objectCount == n.objectCount
  {
    hide IsoText, Decimal, Quoted, WholeSecond;
    QuotedInjective(EtagContent(m), EtagContent(n));
    var (a, b) := (IsoText(WholeSecond(m)), IsoText(WholeSecond(n)));
    IsoTextIsPlain(WholeSecond(m));
    IsoTextIsPlain(WholeSecond(n));
    var s := EtagContent(m);
    assert s == a + ("Z-" + Decimal(m.objectCount)) == b + ("Z-" + Decimal(n.objectCount));
    IndexOfUnique(s, 'Z', |a|);
    IndexOfUnique(s, 'Z', |b|);
    assert s[..|a|] == a == b;
    assert s[|a| + 2..] == Decimal(m.objectCount) == Decimal(n.objectCount);
    IsoTextInjective(WholeSecond(m), WholeSecond(n));
    DecimalInjective(m.objectCount, n.objectCount);
  }

  /** An ETag in full: the second of the import, fractions dropped, and the row count. */
  lemma EtagExample()
    ensures EtagOf(Meta(784111777_999999, 37))
            == "\"" + ("1994" + ("-" + "11" + "-" + "06" + "T" + "08" + ":" + "49" + ":" + "37") + ("Z-" + "37")) + "\""
  {
    ExampleTime();
    hide GmTime;
    PaddedExamples();
    EtagDigits();
    hide Padded, Decimal;
    assert WholeSecond(Meta(784111777_999999, 37)) == 784111777;
  }

  lemma EtagDigits()
    ensures Padded(11, 2) == "11" && Decimal(37) == "37"
  {
    assert Decimal(1) == "1" && Decimal(3) == "3";
    assert Decimal(11) == "11" && Decimal(37) == "37";
  }

  lemma EtagContentChars(m: Meta)
    ensures ',' !in EtagContent(m) && '*' !in EtagContent(m) && '"' !in EtagContent(m)
  {
    hide IsoText, Decimal;
    IsoTextIsPlain(WholeSecond(m));
  }

  // ----- the decision -----

  /** The tags of the list are all ETags this handler printed earlier. */
  ghost predicate OwnTags(es: seq<Element>, cached: seq<Meta>) {
    && ValidList(es)
    && (forall e :: e in es && e.Tag? ==> exists i :: 0 <= i < |cached| && e.content == EtagContent(cached[i]))
    && (forall i :: 0 <= i < |cached| ==> exists e :: e in es && e.Tag? && e.content == EtagContent(cached[i]))
  }

  predicate SameVersion(m: Meta, n: Meta) {
    WholeSecond(m) == WholeSecond(n) && m.objectCount == n.objectCount
  }

  /**
   * A client that lists the ETags of its cached copies, weak or strong, padded
   * in any way, gets a 304 exactly when one of them has the current import
   * second and row count, whatever its If-Modified-Since says.
   */
  lemma EchoedEtagsDecide(m: Meta, cached: seq<Meta>, es: seq<Element>, ifModifiedSince: string)
    requires OwnTags(es, cached) && Render(es) != ""
    ensures NotModified(m, Render(es), ifModifiedSince)
            <==> exists i :: 0 <= i < |cached| && SameVersion(m, cached[i])
  {
    hide Render, Matches, NotModified, EtagContent, SameVersion, Quoted;
    IfNoneMatchDecides(m, Render(es), ifModifiedSince);
    EtagContentChars(m);
    TagListMatchesIff(es, EtagContent(m));
    ListedIff(m, cached, es);
  }

  lemma ListedIff(m: Meta, cached: seq<Meta>, es: seq<Element>)
    requires OwnTags(es, cached)
    ensures (exists e :: e in es && e.Tag? && (e.content == EtagContent(m) || '*' in e.content))
            <==> exists i :: 0 <= i < |cached| && SameVersion(m, cached[i])
  {
    hide EtagContent, SameVersion, OwnTags;
    if e :| e in es && e.Tag? && (e.content == EtagContent(m) || '*' in e.content) {
      ListedVersion(m, cached, es, e);
    }
    if i :| 0 <= i < |cached| && SameVersion(m, cached[i]) {
      VersionListed(m, cached, es, i);
    }
  }

  /** If-None-Match takes precedence over If-Modified-Since. */
  lemma IfNoneMatchDecides(m: Meta, ifNoneMatch: string, ifModifiedSince: string)
    requires ifNoneMatch != ""
    ensures NotModified(m, ifNoneMatch, ifModifiedSince) <==> Matches(ifNoneMatch, EtagOf(m))
  {
  }

  lemma VersionListed(m: Meta, cached: seq<Meta>, es: seq<Element>, i: nat)
    requires OwnTags(es, cached) && i < |cached| && SameVersion(m, cached[i])
    ensures exists e :: e in es && e.Tag? && e.content == EtagContent(m)
  {
    hide EtagContent, SameVersion;
    SameVersionSameEtag(m, cached[i]);
  }

  lemma ListedVersion(m: Meta, cached: seq<Meta>, es: seq<Element>, e: Element)
    requires OwnTags(es, cached) && e in es && e.Tag?
    requires e.content == EtagContent(m) || '*' in e.content
    ensures exists i :: 0 <= i < |cached| && SameVersion(m, cached[i])
  {
    hide EtagContent, SameVersion;
    var i :| 0 <= i < |cached| && e.content == EtagContent(cached[i]);
    EtagContentChars(cached[i]);
    SameEtagSameVersion(m, cached[i]);
  }

  lemma SameEtagSameVersion(m: Meta, n: Meta)
    requires EtagContent(m) == EtagContent(n)
    ensures SameVersion(m, n)
  {
    EtagInjective(m, n);
  }

  lemma SameVersionSameEtag(m: Meta, n: Meta)
    requires SameVersion(m, n)
    ensures EtagContent(m) == EtagContent(n)
  {
  }

  /** A client that holds any version at all gets a 304, whatever date it adds. */
  lemma WildcardIsNotModified(m: Meta, lead: string, trail: string, ifModifiedSince: string)
    requires Blanks(lead) && Blanks(trail)
    ensures NotModified(m, lead + "*" + trail, ifModifiedSince)
  {
    hide EtagOf, Matches;
    WildcardMatches(lead, trail, EtagOf(m));
  }

  /** Without a condition, or with a date that cannot be read, the catalog is sent. */
  lemma UnconditionalIsSent(m: Meta, ifModifiedSince: string)
    requires ifModifiedSince == "" || ParseHttpDate(ifModifiedSince) == None
    ensures !NotModified(m, "", ifModifiedSince)
  {
  }

  /** The single echoed ETag, as a browser sends it. */
  lemma EchoedEtagDecides(m: Meta, cached: Meta, ifModifiedSince: string)
    ensures NotModified(m, EtagOf(cached), ifModifiedSince) <==> SameVersion(m, cached)
  {
    hide Render, NotModified, EtagContent, EtagOf, WholeSecond;
    var e := Tag("", false, EtagContent(cached), "");
    SingleTag(e, cached);
    EchoedEtagsDecide(m, [cached], [e], ifModifiedSince);
    assert [cached][0] == cached;
  }

  lemma SingleTag(e: Element, cached: Meta)
    requires e == Tag("", false, EtagContent(cached), "")
    ensures Render([e]) == EtagOf(cached) && Render([e]) != "" && OwnTags([e], [cached])
  {
    hide EtagContent;
    EtagContentChars(cached);
    assert "" + EtagOf(cached) + "" == EtagOf(cached);
    assert e in [e] && [cached][0] == cached;
  }

  /** A client with only the echoed date gets a 304 exactly when the import stamp has not moved past it. */
  lemma EchoedDateDecides(m: Meta, cached: Meta)
    ensures NotModified(m, "", LastModifiedOf(cached))
            <==> YearReadable(GmTime(EpochOf(cached)).date.year) && EpochOf(m) <= EpochOf(cached)
  {
    hide ParseHttpDate, GmTime, EpochOf, FormatFields;
    HttpDateRoundTrip(EpochOf(cached));
    if LastModifiedOf(cached) == "" {
      EmptyDateDoesNotParse();
    }
  }

  lemma EmptyDateDoesNotParse()
    ensures ParseHttpDate("") == None
  {
  }

  /** After a later SATCAT stamp neither validator of an earlier copy yields a 304. */
  lemma NewImportInvalidates(
      table: Scheduler.PollerTable, invs: seq<Scheduler.Invocation>, i: nat, j: nat, before: Meta, after: Meta)
    requires Scheduler.Sequential(invs)
    requires var stamps := Scheduler.StampsOf(table, invs, Scheduler.Poller.Satcat);
             && i < j < |stamps|
             && before.generatedAt == stamps[i] && after.generatedAt == stamps[j]
    ensures !NotModified(after, EtagOf(before), LastModifiedOf(before))
    ensures !NotModified(after, "", LastModifiedOf(before))
  {
    hide NotModified, EtagOf, LastModifiedOf;
    var stamps := Scheduler.StampsOf(table, invs, Scheduler.Poller.Satcat);
    Scheduler.StampsAreSpaced(table, invs, Scheduler.Poller.Satcat);
    var upTo := stamps[..j + 1];
    assert Scheduler.Spaced(upTo, Scheduler.Poller.Satcat.MinGap()) by {
      forall k | 0 < k < |upTo|
        ensures upTo[k] - upTo[k - 1] >= Scheduler.Poller.Satcat.MinGap()
      {
        assert stamps[k] - stamps[k - 1] >= Scheduler.Poller.Satcat.MinGap();
      }
    }
    Scheduler.SpacedIsIncreasing(upTo, Scheduler.Poller.Satcat.MinGap(), i);
    assert WholeSecond(after) >= WholeSecond(before) + 86100;
    EchoedEtagDecides(after, before, LastModifiedOf(before));
    EchoedDateDecides(after, before);
    EpochNearSecond(before);
    EpochNearSecond(after);
  }

  lemma EpochNearSecond(m: Meta)
    ensures WholeSecond(m) <= EpochOf(m) <= WholeSecond(m) + 1
  {
  }
}
