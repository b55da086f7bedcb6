/** Decimal numbers and comma-separated text, with the readings that invert them. */
module Text {
  import opened Prelude

  // ----- decimal numbers -----

  function Digit(d: int): char
    requires 0 <= d < 10
  {
    ('0' as int + d) as char
  }

  predicate IsDigit(c: char) {
    '0' <= c <= '9'
  }

  function DigitValue(c: char): int {
    c as int - '0' as int
  }

  predicate AllDigits(s: string) {
    forall i :: 0 <= i < |s| ==> IsDigit(s[i])
  }

  function Decimal(n: nat): (s: string)
    ensures |s| > 0 && AllDigits(s)
  {
    if n < 10 then [Digit(n)] else Decimal(n / 10) + [Digit(n % 10)]
  }

  /** `operator<<` on an integer. */
  function DecimalInt(n: int): string {
    if n < 0 then "-" + Decimal(-n) else Decimal(n)
  }

  function Value(s: string): int {
    if s == [] then 0 else 10 * Value(s[..|s| - 1]) + DigitValue(s[|s| - 1])
  }

  function ParseInt(s: string): Option<int> {
    if |s| > 1 && s[0] == '-' && AllDigits(s[1..]) then Some(-Value(s[1..]))
    else if s != [] && AllDigits(s) then Some(Value(s))
    else None
  }

  lemma {:induction false} DecimalValue(n: nat)
    ensures Value(Decimal(n)) == n
  {
    if n < 10 {
      assert [Digit(n)][..0] == [];
    } else {
      DecimalValue(n / 10);
      assert Decimal(n)[..|Decimal(n)| - 1] == Decimal(n / 10);
    }
  }

  lemma DigitsParse(digits: string)
    requires AllDigits(digits) && digits != ""
    ensures ParseInt(digits) == Some(Value(digits))
    ensures ParseInt("-" + digits) == Some(-Value(digits))
  {
    hide Value;
    assert ("-" + digits)[1..] == digits;
    assert digits[0] != '-';
  }

  /** Printing and reading an integer. */
  lemma PrintedIntParses(n: int)
    ensures ParseInt(DecimalInt(n)) == Some(n)
    ensures forall c :: c in DecimalInt(n) ==> c == '-' || IsDigit(c)
  {
    hide Decimal, Value, ParseInt;
    var digits := Decimal(if n < 0 then -n else n);
    DecimalValue(if n < 0 then -n else n);
    DigitsParse(digits);
    assert DecimalInt(n) == if n < 0 then "-" + digits else digits;
    assert forall c :: c in digits ==> IsDigit(c);
  }

  lemma DecimalInjective(m: nat, n: nat)
    requires Decimal(m) == Decimal(n)
    ensures m == n
  {
    DecimalValue(m);
    DecimalValue(n);
  }

  // ----- commas -----

  /** Position of the first `c`, or the length if there is none. */
  function IndexOf(s: string, c: char): (i: nat)
    ensures i <= |s| && (forall k :: 0 <= k < i ==> s[k] != c) && (i < |s| ==> s[i] == c)
  {
    if s == [] || s[0] == c then 0 else 1 + IndexOf(s[1..], c)
  }

  lemma {:induction false} IndexOfUnique(s: string, c: char, i: nat)
    requires i <= |s| && (forall k :: 0 <= k < i ==> s[k] != c) && (i < |s| ==> s[i] == c)
    ensures IndexOf(s, c) == i
  {
    if i > 0 {
      assert s[0] != c;
      IndexOfUnique(s[1..], c, i - 1);
    }
  }

  lemma IndexOfPresent(s: string, c: char)
    requires c in s
    ensures IndexOf(s, c) < |s|
  {
    hide IndexOf;
    var k :| 0 <= k < |s| && s[k] == c;
    assert IndexOf(s, c) <= k;
  }

  /** Everything between commas; a trailing comma leaves a last empty piece. */
  function Pieces(s: string): seq<string>
    decreases |s|
  {
    var i := IndexOf(s, ',');
    [s[..i]] + if i < |s| then Pieces(s[i + 1..]) else []
  }

  /** What successive `std::getline(ss, token, ',')` calls deliver: no token after a trailing comma. */
  function Tokens(s: string): seq<string>
    decreases |s|
  {
    if s == [] then []
    else
      var i := IndexOf(s, ',');
      [s[..i]] + if i < |s| then Tokens(s[i + 1..]) else []
  }

  lemma CommaFreePiece(s: string)
    requires ',' !in s
    ensures Pieces(s) == [s]
  {
    assert s[..|s|] == s;
    IndexOfUnique(s, ',', |s|);
  }

  lemma DropFromJoin(a: string, b: string, i: nat)
    requires i <= |a|
    ensures (a + "," + b)[..i] == a[..i]
    ensures (a + "," + b)[i..] == a[i..] + "," + b
  {
  }

  lemma DropCommaFromJoin(a: string, b: string)
    ensures (a + "," + b)[|a| + 1..] == b && (a + "," + b)[|a|] == ','
  {
  }

  lemma FirstCommaOfJoin(a: string, b: string)
    ensures IndexOf(a + "," + b, ',') == IndexOf(a, ',')
  {
    hide IndexOf;
    var i := IndexOf(a, ',');
    DropFromJoin(a, b, |a|);
    DropCommaFromJoin(a, b);
    assert forall k :: 0 <= k < |a| ==> (a + "," + b)[k] == a[k];
    IndexOfUnique(a + "," + b, ',', i);
  }

  lemma JoinStep(first: string, rest: seq<string>, more: seq<string>)
    ensures [first] + (rest + more) == ([first] + rest) + more
  {
  }

  /** The first piece, the first token, and what is left after them. */
  lemma FirstPiece(s: string, i: nat, rest: string)
    requires i == IndexOf(s, ',') && rest == if i < |s| then s[i + 1..] else ""
    ensures Pieces(s) == [s[..i]] + if i < |s| then Pieces(rest) else []
    ensures s != "" ==> Tokens(s) == [s[..i]] + Tokens(rest)
  {
    hide IndexOf;
    assert Tokens("") == [];
  }

  /** Splitting a joined text is splitting its parts. */
  lemma {:induction false} PiecesOfJoin(a: string, b: string)
    ensures Pieces(a + "," + b) == Pieces(a) + Pieces(b)
    ensures Tokens(a + "," + b) == Pieces(a) + Tokens(b)
    decreases |a|
  {
    hide IndexOf, Pieces, Tokens;
    FirstCommaOfJoin(a, b);
    var i := IndexOf(a, ',');
    DropFromJoin(a, b, i);
    if i < |a| {
      DropFromJoin(a, b, i + 1);
      FirstPiece(a + "," + b, i, a[i + 1..] + "," + b);
      FirstPiece(a, i, a[i + 1..]);
      PiecesOfJoin(a[i + 1..], b);
      JoinStep(a[..i], Pieces(a[i + 1..]), Pieces(b));
      JoinStep(a[..i], Pieces(a[i + 1..]), Tokens(b));
    } else {
      DropCommaFromJoin(a, b);
      FirstPiece(a + "," + b, i, b);
      FirstPiece(a, i, "");
    }
  }

  // ----- lists of ids -----

  function JoinIds(ids: seq<int>): string {
    if ids == [] then ""
    else if |ids| == 1 then DecimalInt(ids[0])
    else JoinIds(ids[..|ids| - 1]) + "," + DecimalInt(ids[|ids| - 1])
  }

  function ParseInts(pieces: seq<string>): Option<seq<int>> {
    if pieces == [] then Some([])
    else
      match (ParseInts(pieces[..|pieces| - 1]), ParseInt(pieces[|pieces| - 1]))
      case (Some(init), Some(last)) => Some(init + [last])
      case _ => None
  }

  lemma JoinUnfold(ids: seq<int>, k: nat)
    requires |ids| == k + 1
    ensures k > 0 ==> JoinIds(ids) == JoinIds(ids[..k]) + "," + DecimalInt(ids[k])
    ensures k == 0 ==> JoinIds(ids) == DecimalInt(ids[0])
  {
    hide DecimalInt;
  }

  lemma ParseOneMore(pieces: seq<string>, init: seq<int>, last: string, n: int)
    requires ParseInts(pieces) == Some(init) && ParseInt(last) == Some(n)
    ensures ParseInts(pieces + [last]) == Some(init + [n])
  {
    hide ParseInt;
    assert (pieces + [last])[..|pieces|] == pieces;
  }

  lemma SingleTextParses(text: string, n: int)
    requires ',' !in text && ParseInt(text) == Some(n)
    ensures Pieces(text) == [text] && ParseInts([text]) == Some([n])
  {
    hide ParseInt, Pieces;
    CommaFreePiece(text);
    assert [text][..0] == [] && [] + [n] == [n];
  }

  lemma SingleIdParses(id: int)
    ensures ParseInts(Pieces(DecimalInt(id))) == Some([id])
    ensures Pieces(DecimalInt(id)) == [DecimalInt(id)]
  {
    PrintedIntParses(id);
    hide DecimalInt, ParseInt, Pieces, ParseInts;
    SingleTextParses(DecimalInt(id), id);
  }

  /** A printed list of ids reads back as that list. */
  lemma {:induction false} JoinedPiecesParse(ids: seq<int>)
    requires ids != []
    ensures ParseInts(Pieces(JoinIds(ids))) == Some(ids)
  {
    hide *;
    var k := |ids| - 1;
    JoinUnfold(ids, k);
    SingleIdParses(ids[k]);
    if k > 0 {
      JoinedPiecesParse(ids[..k]);
      PiecesOfJoin(JoinIds(ids[..k]), DecimalInt(ids[k]));
      PrintedIntParses(ids[k]);
      ParseOneMore(Pieces(JoinIds(ids[..k])), ids[..k], DecimalInt(ids[k]), ids[k]);
      assert ids == ids[..k] + [ids[k]];
    } else {
      assert ids == [ids[0]];
    }
  }

  lemma {:induction false} JoinedIdChars(ids: seq<int>)
    ensures forall c :: c in JoinIds(ids) ==> c == '-' || c == ',' || IsDigit(c)
    ensures ids != [] ==> JoinIds(ids) != ""
  {
    if ids != [] {
      PrintedIntParses(ids[|ids| - 1]);
      JoinedIdChars(ids[..|ids| - 1]);
    }
  }

  // ----- the exclusion clause -----

  /** A condition of a WHERE clause on a list of ids: `column IN (..)`, or `NOT IN` when `negated`. */
  datatype Condition = Condition(column: string, negated: bool, ids: seq<int>) {
    /** Whether a row with this id passes. */
    predicate Admits(id: int) {
      if negated then id !in ids else id in ids
    }
  }

  /** Reads ` AND <column> IN (<ids>)` or ` AND <column> NOT IN (<ids>)`. */
  function ReadCondition(clause: string): Option<Condition> {
    if !(" AND " <= clause) then None
    else
      var rest := clause[5..];
      var i := IndexOf(rest, ' ');
      var test := rest[i..];
      if " NOT IN (" <= test && test[|test| - 1] == ')' then ReadIds(rest[..i], true, test[9..])
      else if " IN (" <= test && test[|test| - 1] == ')' then ReadIds(rest[..i], false, test[5..])
      else None
  }

  /** The ids up to the closing parenthesis. */
  function ReadIds(column: string, negated: bool, list: string): Option<Condition> {
    if list == "" then None
    else
      match ParseInts(Pieces(list[..|list| - 1]))
      case Some(ids) => Some(Condition(column, negated, ids))
      case None => None
  }

  /** The text the query builder appends for these ids; none at all for none. */
  function ExclusionText(ids: seq<int>): string {
    if ids == [] then "" else " AND " + ("norad_cat_id" + (" NOT IN (" + (JoinIds(ids) + ")")))
  }

  lemma ReadNegated(column: string, list: string, ids: seq<int>)
    requires ' ' !in column && ParseInts(Pieces(list)) == Some(ids)
    ensures ReadCondition(" AND " + (column + (" NOT IN (" + (list + ")")))) == Some(Condition(column, true, ids))
  {
    hide ParseInts, Pieces, IndexOf;
    var test := " NOT IN (" + (list + ")");
    var rest := column + test;
    assert (" AND " + rest)[5..] == rest;
    IndexOfUnique(rest, ' ', |column|);
    assert rest[..|column|] == column && rest[|column|..] == test;
    assert test[9..] == list + ")";
    assert (list + ")")[..|list|] == list;
  }

  /** The server reads it as the condition that leaves out these ids and no others. */
  lemma ExclusionIsRead(ids: seq<int>)
    requires ids != []
    ensures ReadCondition(ExclusionText(ids)) == Some(Condition("norad_cat_id", true, ids))
  {
    hide ParseInts, Pieces, JoinIds, ReadCondition;
    JoinedPiecesParse(ids);
    ReadNegated("norad_cat_id", JoinIds(ids), ids);
  }

  /** The ids a query with this clause leaves out. */
  function ExcludedBy(clause: string): Option<seq<int>> {
    if clause == "" then Some([])
    else
      match ReadCondition(clause)
      case Some(Condition("norad_cat_id", true, ids)) => Some(ids)
      case _ => None
  }

  lemma EmptyJoin()
    ensures JoinIds([]) == ""
  {
  }

  /** Appending one more id to a joined list. */
  lemma JoinOneMore(ids: seq<int>, i: nat)
    requires i < |ids|
    ensures JoinIds(ids[..i + 1]) == JoinIds(ids[..i]) + (if i > 0 then "," else "") + DecimalInt(ids[i])
  {
    assert ids[..i + 1][..i] == ids[..i];
  }

  /** No clause for no ids; otherwise one the server reads as leaving out exactly the given ids. */
  method BuildExclusionClause(excludeIds: seq<int>) returns (clause: string)
    ensures clause == ExclusionText(excludeIds)
    ensures excludeIds == [] ==> clause == ""
    ensures excludeIds != [] ==> ReadCondition(clause) == Some(Condition("norad_cat_id", true, excludeIds))
    ensures ExcludedBy(clause) == Some(excludeIds)
  {
    hide ReadCondition;
    if excludeIds == [] {
      return "";
    }
    var ids := "";
    for i := 0 to |excludeIds|
      invariant ids == JoinIds(excludeIds[..i])
    {
      JoinOneMore(excludeIds, i);
      if i > 0 {
        ids := ids + ",";
      }
      ids := ids + DecimalInt(excludeIds[i]);
    }
    assert excludeIds[..|excludeIds|] == excludeIds;
    ExclusionIsRead(excludeIds);
    clause := " AND " + ("norad_cat_id" + (" NOT IN (" + (ids + ")")));
  }

  // ----- the GP query -----

  const URL_PREFIX := "https://www.space-track.org/basicspacedata/query/class/gp/NORAD_CAT_ID/"
  const URL_SUFFIX := "/" + "decay_date/null-val/orderby/NORAD_CAT_ID/format/json"

  /** The ids a GP query asks for: the path segment after the class filter. */
  function RequestedBy(url: string): Option<seq<int>> {
    if URL_PREFIX <= url then
      var rest := url[|URL_PREFIX|..];
      ParseInts(Pieces(rest[..IndexOf(rest, '/')]))
    else None
  }

  /** The URL of the one request for all targets. */
  function QueryUrl(ids: seq<int>): string {
    URL_PREFIX + JoinIds(ids) + URL_SUFFIX
  }

  /** The server reads the ids back from the URL, in order. */
  lemma UrlRequests(ids: seq<int>)
    requires ids != []
    ensures RequestedBy(QueryUrl(ids)) == Some(ids)
  {
    hide Pieces, ParseInts, JoinIds;
    var url := QueryUrl(ids);
    var rest := url[|URL_PREFIX|..];
    assert rest == JoinIds(ids) + URL_SUFFIX;
    JoinedIdChars(ids);
    assert rest[..|JoinIds(ids)|] == JoinIds(ids);
    assert forall k :: 0 <= k < |JoinIds(ids)| ==> rest[k] == JoinIds(ids)[k] && rest[k] in JoinIds(ids);
    assert rest[|JoinIds(ids)|] == URL_SUFFIX[0] == '/';
    IndexOfUnique(rest, '/', |JoinIds(ids)|);
    JoinedPiecesParse(ids);
  }

  /** One request for all targets; no target at all is an exception. */
  method BuildQueryUrl(hot: seq<int>, rotation: seq<int>) returns (r: Result<string>)
    ensures r == if hot + rotation == [] then Thrown else Returned(QueryUrl(hot + rotation))
    ensures r.Returned? ==> RequestedBy(r.value) == Some(hot + rotation)
  {
    hide JoinIds, DecimalInt, RequestedBy;
    if hot == [] && rotation == [] {
      return Thrown;
    }
    var ids := "";
    EmptyJoin();
    var first := true;
    for i := 0 to |hot|
      invariant ids == JoinIds(hot[..i])
      invariant first <==> i == 0
    {
      JoinOneMore(hot, i);
      if !first {
        ids := ids + ",";
      }
      ids := ids + DecimalInt(hot[i]);
      first := false;
    }
    ghost var all := hot + rotation;
    assert all[..|hot|] == hot[..|hot|];
    for i := 0 to |rotation|
      invariant ids == JoinIds(all[..|hot| + i])
      invariant first <==> |hot| + i == 0
    {
      JoinOneMore(all, |hot| + i);
      if !first {
        ids := ids + ",";
      }
      ids := ids + DecimalInt(rotation[i]);
      first := false;
    }
    assert all[..|all|] == all;
    UrlRequests(all);
    r := Returned(URL_PREFIX + ids + URL_SUFFIX);
  }

  /** The two query texts for concrete ids. */
  lemma QueryTexts()
    ensures ExclusionText([25544, -7]) == " AND " + ("norad_cat_id" + (" NOT IN (" + ("25544,-7" + ")")))
    ensures QueryUrl([25544, -7])
            == "https://www.space-track.org/basicspacedata/query/class/gp/NORAD_CAT_ID/" + "25544,-7"
               + ("/" + "decay_date/null-val/orderby/NORAD_CAT_ID/format/json")
  {
    JoinedTwo();
    hide JoinIds;
  }

  lemma JoinedTwo()
    ensures JoinIds([25544, -7]) == "25544,-7"
  {
    DecimalSteps();
    hide Decimal;
    assert [25544, -7][..1] == [25544];
    assert JoinIds([25544]) == DecimalInt(25544) == "25544";
    assert DecimalInt(-7) == "-7";
  }

  lemma DecimalSteps()
    ensures Decimal(25544) == "25544" && Decimal(7) == "7"
  {
    assert Decimal(2) == "2";
    assert Decimal(25) == "25";
    assert Decimal(255) == "255";
    assert Decimal(2554) == "2554";
  }

  /** Numbers are printed without leading zeros. */
  lemma {:induction false} NoLeadingZero(n: nat)
    ensures Decimal(n)[0] == '0' <==> n == 0
  {
    if n >= 10 {
      NoLeadingZero(n / 10);
    }
  }
}
