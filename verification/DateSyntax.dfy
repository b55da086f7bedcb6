/** Exactly which texts the HTTP date parser accepts, and what it reads them as. */
module DateSyntax {
  import opened Prelude
  import opened Text
  import opened CivilTime
  import opened HttpDate

  /** Space, tab, line feed, vertical tab, form feed or carriage return. */
  predicate WhiteSpace(c: char) {
    c as int == 32 || 9 <= c as int <= 13
  }

  predicate Spaces(s: string) {
    forall i :: 0 <= i < |s| ==> WhiteSpace(s[i])
  }

  predicate NoSpaces(s: string) {
    forall i :: 0 <= i < |s| ==> !WhiteSpace(s[i])
  }

  /** A number as `%d` takes it: white space, a sign or none, digits. */
  datatype Numeral = Numeral(gap: string, sign: string, digits: string) {
    function Text(): string {
      gap + (sign + digits)
    }

    function Number(): int {
      if sign == "-" then -Value(digits) else Value(digits)
    }

    /** At most `width` characters after the white space. */
    predicate Fits(width: nat) {
      Spaces(gap) && (sign == "" || sign == "-" || sign == "+") && AllDigits(digits) && digits != ""
      && |sign| + |digits| <= width
    }

    /** The conversion stops here: its width is used up, or no digit follows. */
    predicate Ends(rest: string, width: nat) {
      |sign| + |digits| == width || rest == "" || !IsDigit(rest[0])
    }
  }

  datatype DateText = DateText(
    lead: string, weekday: string, day: Numeral, monthGap: string, month: nat, year: Numeral,
    hour: Numeral, minute: Numeral, second: Numeral, rest: string)
  {
    function TimePart(): string
    {
      hour.Text() + (":" + (minute.Text() + (":" + (second.Text() + rest))))
    }

    function Text(): string
      requires month < 12
    {
      lead + (weekday + ("," + (day.Text() + (monthGap + (MONTH_NAMES[month] + (year.Text() + TimePart()))))))
    }

    /**
     * Any three-character weekday, a known month, numbers of at most two digits
     * (four for the year) with or without padding, and anything after them.
     */
    predicate Readable() {
      && Spaces(lead) && |weekday| == 3 && NoSpaces(weekday) && Spaces(monthGap) && month < 12
      && day.Fits(2) && year.Fits(4) && hour.Fits(2) && minute.Fits(2) && second.Fits(2)
      && year.Ends(TimePart(), 4) && second.Ends(rest, 2)
    }

    function Time(): int {
      TimeGm(Date(year.Number(), month, day.Number()), hour.Number(), minute.Number(), second.Number())
    }
  }

  // ----- white space -----

  lemma {:induction false} SkipSpaceSkips(gap: string, s: string)
    requires Spaces(gap) && (s == "" || !IsSpace(s[0]))
    ensures SkipSpace(gap + s) == s
  {
    if gap == "" {
      assert gap + s == s;
    } else {
      assert (gap + s)[1..] == gap[1..] + s;
      SkipSpaceSkips(gap[1..], s);
    }
  }

  lemma {:induction false} SkippedSpace(s: string) returns (gap: string)
    ensures Spaces(gap) && s == gap + SkipSpace(s)
    ensures SkipSpace(s) == "" || !IsSpace(SkipSpace(s)[0])
  {
    gap := "";
    if s != "" && IsSpace(s[0]) {
      var more := SkippedSpace(s[1..]);
      gap := [s[0]] + more;
      assert s == [s[0]] + s[1..];
    }
  }

  // ----- numbers -----

  lemma {:induction false} RunOfDigits(digits: string, rest: string, width: nat)
    requires AllDigits(digits) && |digits| <= width
    requires |digits| == width || rest == "" || !IsDigit(rest[0])
    ensures DigitRun(digits + rest, width) == |digits|
  {
    if digits == "" {
      assert digits + rest == rest;
    } else {
      assert (digits + rest)[1..] == digits[1..] + rest;
      RunOfDigits(digits[1..], rest, width - 1);
    }
  }

  lemma {:induction false} RunEnds(s: string, width: nat)
    ensures var n := DigitRun(s, width); n == width || n == |s| || !IsDigit(s[n])
  {
    if width > 0 && s != "" && IsDigit(s[0]) {
      RunEnds(s[1..], width - 1);
    }
  }

  function SignOf(s: string): string {
    if s != "" && (s[0] == '-' || s[0] == '+') then s[..1] else ""
  }

  function AfterSign(s: string): string {
    if s != "" && (s[0] == '-' || s[0] == '+') then s[1..] else s
  }

  /** What the conversion makes of a sign and a run of digits. */
  lemma ScanNumberParts(input: string, s: string, width: nat)
    requires width > 1 && SkipSpace(input) == s
    ensures var (sign, body) := (SignOf(s), AfterSign(s));
            var n := DigitRun(body, width - |sign|);
            ScanNumber(input, width)
            == if n == 0 then None
               else Some((if sign == "-" then -Value(body[..n]) else Value(body[..n]), body[n..]))
  {
    hide SkipSpace, DigitRun, Value, IsSpace;
  }

  lemma SignSplits(sign: string, body: string)
    requires sign == "" || sign == "-" || sign == "+"
    requires sign == "" ==> !(body != "" && (body[0] == '-' || body[0] == '+'))
    ensures SignOf(sign + body) == sign && AfterSign(sign + body) == body
  {
  }

  lemma ScanSpelledNumber(num: Numeral, rest: string, width: nat)
    requires width > 1 && num.Fits(width) && num.Ends(rest, width)
    ensures ScanNumber(num.Text() + rest, width) == Some((num.Number(), rest))
  {
    hide SkipSpace, DigitRun, Value, ScanNumber, SignOf, AfterSign;
    var body := num.digits + rest;
    assert num.Text() + rest == num.gap + (num.sign + body);
    assert (num.sign + body)[0] == if num.sign == "" then num.digits[0] else num.sign[0];
    SkipSpaceSkips(num.gap, num.sign + body);
    RunOfDigits(num.digits, rest, width - |num.sign|);
    assert body[..|num.digits|] == num.digits && body[|num.digits|..] == rest;
    SignSplits(num.sign, body);
    ScanNumberParts(num.Text() + rest, num.sign + body, width);
  }

  lemma Assembled(gap: string, s: string, n: nat)
    requires n <= |AfterSign(s)|
    ensures gap + (SignOf(s) + AfterSign(s)[..n]) + AfterSign(s)[n..] == gap + s
  {
  }

  lemma ScannedNumber(input: string, width: nat) returns (num: Numeral)
    requires width > 1 && ScanNumber(input, width).Some?
    ensures var (n, rest) := ScanNumber(input, width).value;
            num.Fits(width) && num.Ends(rest, width) && num.Number() == n && input == num.Text() + rest
  {
    hide SkipSpace, DigitRun, Value, ScanNumber, AfterSign;
    var gap := SkippedSpace(input);
    var s := SkipSpace(input);
    var sign, body := SignOf(s), AfterSign(s);
    var n := DigitRun(body, width - |sign|);
    ScanNumberParts(input, s, width);
    RunEnds(body, width - |sign|);
    num := Numeral(gap, sign, body[..n]);
    Assembled(gap, s, n);
  }

  // ----- words -----

  lemma ScanSpelledWord(gap: string, word: string, rest: string)
    requires Spaces(gap) && NoSpaces(word) && |word| == 3
    ensures ScanWord(gap + (word + rest), 3) == Some((word, rest))
  {
    SkipSpaceSkips(gap, word + rest);
    FullWord(word, rest);
    assert (word + rest)[..3] == word && (word + rest)[3..] == rest;
  }

  lemma {:induction false} WordEnds(s: string, width: nat)
    ensures var n := WordLength(s, width);
            NoSpaces(s[..n]) && (n == width || n == |s| || IsSpace(s[n]))
  {
    if width > 0 && s != "" && !IsSpace(s[0]) {
      WordEnds(s[1..], width - 1);
      assert s[..1 + WordLength(s[1..], width - 1)] == [s[0]] + s[1..][..WordLength(s[1..], width - 1)];
    }
  }

  lemma ScannedWord(input: string) returns (gap: string)
    requires ScanWord(input, 3).Some?
    ensures var (word, rest) := ScanWord(input, 3).value;
            && Spaces(gap) && NoSpaces(word) && input == gap + (word + rest)
            && (|word| == 3 || rest == "" || IsSpace(rest[0]))
  {
    hide SkipSpace, WordLength;
    gap := SkippedSpace(input);
    var s := SkipSpace(input);
    var n := WordLength(s, 3);
    WordEnds(s, 3);
    assert s == s[..n] + s[n..];
  }

  lemma {:induction false} MonthNamed(name: string, from: nat)
    requires from <= 12 && MonthIndex(name, from).Some?
    ensures var m := MonthIndex(name, from).value; m < 12 && MONTH_NAMES[m] == name
    decreases 12 - from
  {
    if MONTH_NAMES[from] != name {
      MonthNamed(name, from + 1);
    }
  }

  lemma ScannedChar(s: string, c: char)
    requires ScanChar(s, c).Some?
    ensures s == [c] + ScanChar(s, c).value
  {
  }

  // ----- the date -----

  lemma TimeSpelled(d: DateText)
    requires d.Readable()
    ensures ScanYearAndTime(d.year.Text() + d.TimePart())
            == Some((d.year.Number(), d.hour.Number(), d.minute.Number(), d.second.Number()))
  {
    hide ScanNumber, ScanChar;
    ScanSpelledNumber(d.year, d.TimePart(), 4);
    var afterHour := ":" + (d.minute.Text() + (":" + (d.second.Text() + d.rest)));
    var afterMinute := ":" + (d.second.Text() + d.rest);
    ScanSpelledNumber(d.hour, afterHour, 2);
    ScanSeparator(':', d.minute.Text() + afterMinute);
    ScanSpelledNumber(d.minute, afterMinute, 2);
    ScanSeparator(':', d.second.Text() + d.rest);
    ScanSpelledNumber(d.second, d.rest, 2);
  }

  lemma DayEnds(d: DateText)
    requires d.Readable()
    ensures d.day.Ends(d.monthGap + (MONTH_NAMES[d.month] + (d.year.Text() + d.TimePart())), 2)
  {
    NamesAreWords();
    var name := MONTH_NAMES[d.month];
    assert !IsDigit(name[0]);
    assert forall c :: IsSpace(c) ==> !IsDigit(c);
  }

  lemma SpelledDateParses(d: DateText)
    requires d.Readable()
    ensures ParseHttpDate(d.Text()) == Some(d.Time())
  {
    hide ScanNumber, ScanChar, ScanWord, ScanYearAndTime, MonthIndex, TimeGm;
    var s5 := d.year.Text() + d.TimePart();
    var s3 := d.monthGap + (MONTH_NAMES[d.month] + s5);
    var s2 := d.day.Text() + s3;
    NamesAreWords();
    ScanSpelledWord(d.lead, d.weekday, "," + s2);
    ScanSeparator(',', s2);
    DayEnds(d);
    ScanSpelledNumber(d.day, s3, 2);
    ScanSpelledWord(d.monthGap, MONTH_NAMES[d.month], s5);
    MonthFound(d.month, 0);
    TimeSpelled(d);
  }

  /** The year and the time of day of a text that has them. */
  lemma ScannedTime(s: string) returns (year: Numeral, hour: Numeral, minute: Numeral, second: Numeral, rest: string)
    requires ScanYearAndTime(s).Some?
    ensures year.Fits(4) && hour.Fits(2) && minute.Fits(2) && second.Fits(2) && second.Ends(rest, 2)
    ensures var time := hour.Text() + (":" + (minute.Text() + (":" + (second.Text() + rest))));
            s == year.Text() + time && year.Ends(time, 4)
    ensures ScanYearAndTime(s).value == (year.Number(), hour.Number(), minute.Number(), second.Number())
  {
    hide ScanNumber, ScanChar;
    var s1 := ScanNumber(s, 4).value.1;
    var s2 := ScanNumber(s1, 2).value.1;
    var s3 := ScanChar(s2, ':').value;
    var s4 := ScanNumber(s3, 2).value.1;
    var s5 := ScanChar(s4, ':').value;
    rest := ScanNumber(s5, 2).value.1;
    year := ScannedNumber(s, 4);
    hour := ScannedNumber(s1, 2);
    minute := ScannedNumber(s3, 2);
    second := ScannedNumber(s5, 2);
    ScannedChar(s2, ':');
    ScannedChar(s4, ':');
  }

  lemma ParsedDateIsSpelled(value: string) returns (d: DateText)
    requires ParseHttpDate(value).Some?
    ensures d.Readable() && d.Text() == value && ParseHttpDate(value) == Some(d.Time())
  {
    hide ScanNumber, ScanChar, ScanWord, ScanYearAndTime, MonthIndex, TimeGm;
    var (weekday, s1) := ScanWord(value, 3).value;
    var s2 := ScanChar(s1, ',').value;
    var s3 := ScanNumber(s2, 2).value.1;
    var (name, s4) := ScanWord(s3, 3).value;
    var lead := ScannedWord(value);
    ScannedChar(s1, ',');
    var day := ScannedNumber(s2, 2);
    var monthGap := ScannedWord(s3);
    var year, hour, minute, second, rest := ScannedTime(s4);
    MonthNamed(name, 0);
    d := DateText(lead, weekday, day, monthGap, MonthIndex(name, 0).value, year, hour, minute, second, rest);
  }

  /** The parser's language, in full: a text reads as a time exactly if it spells a date of that time. */
  lemma ParseHttpDateIff(value: string, t: int)
    ensures ParseHttpDate(value) == Some(t) <==> exists d: DateText :: d.Readable() && d.Text() == value && d.Time() == t
  {
    hide ParseHttpDate;
    if ParseHttpDate(value) == Some(t) {
      var d := ParsedDateIsSpelled(value);
    }
    forall d: DateText | d.Readable() && d.Text() == value && d.Time() == t
      ensures ParseHttpDate(value) == Some(t)
    {
      SpelledDateParses(d);
    }
  }
}
