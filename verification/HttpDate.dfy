/**
 * HTTP dates: printing the IMF-fixdate of section 7.1.1.1 of RFC 7231, and
 * reading it back with `sscanf` conversions.
 */
module HttpDate {
  import opened Prelude
  import opened Text
  import opened CivilTime

  const WEEKDAY_NAMES := ["Sun", "Mon", "Tue", "Wed", "Thu", "Fri", "Sat"]
  const MONTH_NAMES := ["Jan", "Feb", "Mar", "Apr", "May", "Jun", "Jul", "Aug", "Sep", "Oct", "Nov", "Dec"]

  // ----- printing -----

  function ZeroPad(s: string, width: nat): string
    decreases width - |s|
  {
    if |s| >= width then s else ZeroPad("0" + s, width)
  }

  /** `%0<width>d`: zeros go between the sign and the digits. */
  function Padded(n: int, width: nat): string
    requires width > 0
  {
    if n < 0 then "-" + ZeroPad(Decimal(-n), width - 1) else ZeroPad(Decimal(n), width)
  }

  function FormatFields(b: BrokenDown): string
    requires 0 <= b.weekday < 7 && 0 <= b.date.month < 12
  {
    WEEKDAY_NAMES[b.weekday] + (", " + (Padded(b.date.day, 2) + (" " + (MONTH_NAMES[b.date.month] + (" "
    + (Padded(b.date.year, 4) + (" " + (Padded(b.hour, 2) + (":" + (Padded(b.minute, 2) + (":"
    + (Padded(b.second, 2) + " GMT"))))))))))))
  }

  function FormatHttpDate(t: int): string {
    TimeGmOfGmTime(t);
    FormatFields(GmTime(t))
  }

  // ----- sscanf -----

  predicate IsSpace(c: char) {
    c == ' ' || c == '\t' || c == '\n' || c == '\r' || c as int == 11 || c as int == 12
  }

  /** White space in the format: any amount, including none. */
  function SkipSpace(s: string): string {
    if s != [] && IsSpace(s[0]) then SkipSpace(s[1..]) else s
  }

  function WordLength(s: string, width: nat): (n: nat)
    ensures n <= |s| && n <= width
  {
    if width == 0 || s == [] || IsSpace(s[0]) then 0 else 1 + WordLength(s[1..], width - 1)
  }

  function DigitRun(s: string, width: nat): (n: nat)
    ensures n <= |s| && n <= width && AllDigits(s[..n])
  {
    if width == 0 || s == [] || !IsDigit(s[0]) then 0
    else
      var n := DigitRun(s[1..], width - 1);
      assert s[..n + 1] == [s[0]] + s[1..][..n];
      1 + n
  }

  /** `%<width>s`: the word and what follows it. */
  function ScanWord(input: string, width: nat): Option<(string, string)> {
    var s := SkipSpace(input);
    var n := WordLength(s, width);
    if n == 0 then None else Some((s[..n], s[n..]))
  }

  /** `%<width>d`: an optional sign, which counts towards the width, then digits. */
  function ScanNumber(input: string, width: nat): Option<(int, string)>
    requires width > 0
  {
    var s := SkipSpace(input);
    var signed := s != [] && (s[0] == '-' || s[0] == '+');
    var body := if signed then s[1..] else s;
    var n := DigitRun(body, if signed then width - 1 else width);
    if n == 0 then None
    else Some((if s[0] == '-' then -Value(body[..n]) else Value(body[..n]), body[n..]))
  }

  function ScanChar(s: string, c: char): Option<string> {
    if s != [] && s[0] == c then Some(s[1..]) else None
  }

  function MonthIndex(name: string, from: nat): Option<nat>
    requires from <= 12
    decreases 12 - from
  {
    if from == 12 then None else if MONTH_NAMES[from] == name then Some(from) else MonthIndex(name, from + 1)
  }

  /** From the year on: `%4d %2d:%2d:%2d`. What follows the last conversion does not count. */
  function ScanYearAndTime(s: string): Option<(int, int, int, int)> {
    var (year, s1) :- ScanNumber(s, 4);
    var (hour, s2) :- ScanNumber(s1, 2);
    var s3 :- ScanChar(s2, ':');
    var (minute, s4) :- ScanNumber(s3, 2);
    var s5 :- ScanChar(s4, ':');
    var (second, _) :- ScanNumber(s5, 2);
    Some((year, hour, minute, second))
  }

  function ParseHttpDate(value: string): Option<int> {
    var (_, s1) :- ScanWord(value, 3);
    var s2 :- ScanChar(s1, ',');
    var (day, s3) :- ScanNumber(s2, 2);
    var (month, s4) :- ScanWord(s3, 3);
    var (year, hour, minute, second) :- ScanYearAndTime(s4);
    var m :- MonthIndex(month, 0);
    Some(TimeGm(Date(year, m, day), hour, minute, second))
  }

  // ----- printed numbers -----

  function Pow10(k: nat): nat {
    if k == 0 then 1 else 10 * Pow10(k - 1)
  }

  lemma {:induction false} DecimalLength(n: nat, k: nat)
    requires k > 0
    ensures |Decimal(n)| <= k <==> n < Pow10(k)
    decreases k
  {
    if k == 1 {
      assert Pow10(1) == 10 * Pow10(0);
    } else if n >= 10 {
      DecimalLength(n / 10, k - 1);
      assert n / 10 < Pow10(k - 1) <==> n < 10 * Pow10(k - 1);
    } else {
      TenAtLeast(k);
    }
  }

  lemma {:induction false} TenAtLeast(k: nat)
    requires k > 0
    ensures Pow10(k) >= 10
  {
    if k > 1 {
      TenAtLeast(k - 1);
    } else {
      assert Pow10(1) == 10 * Pow10(0);
    }
  }

  lemma {:induction false} LeadingZero(s: string)
    ensures Value("0" + s) == Value(s)
  {
    if s == [] {
      assert ("0" + s)[..0] == [];
      assert Value("0") == 0;
    } else {
      LeadingZero(s[..|s| - 1]);
      assert ("0" + s)[..|s|] == "0" + s[..|s| - 1];
    }
  }

  lemma {:induction false} ZeroPadded(s: string, width: nat)
    requires AllDigits(s)
    ensures AllDigits(ZeroPad(s, width)) && Value(ZeroPad(s, width)) == Value(s)
    ensures |ZeroPad(s, width)| == if |s| >= width then |s| else width
    decreases width - |s|
  {
    if |s| < width {
      LeadingZero(s);
      ZeroPadded("0" + s, width);
    }
  }

  /** The sign and the zero-padded digits of a printed number. */
  lemma PaddedParts(n: int, width: nat, digits: string)
    requires width > 1
    requires digits == if n < 0 then ZeroPad(Decimal(-n), width - 1) else ZeroPad(Decimal(n), width)
    ensures AllDigits(digits) && Padded(n, width) == (if n < 0 then "-" else "") + digits
    ensures (if n < 0 then -Value(digits) else Value(digits)) == n
    ensures |Padded(n, width)| >= width
  {
    if n < 0 {
      ZeroPadded(Decimal(-n), width - 1);
      DecimalValue(-n);
    } else {
      ZeroPadded(Decimal(n), width);
      DecimalValue(n);
    }
  }

  /** A number fills its field exactly when its digits, and sign, fit. */
  lemma PaddedFits(n: int, width: nat)
    requires width > 1
    ensures |Padded(n, width)| == width <==> n < Pow10(width) && -n < Pow10(width - 1)
  {
    if n < 0 {
      ZeroPadded(Decimal(-n), width - 1);
      DecimalLength(-n, width - 1);
    } else {
      ZeroPadded(Decimal(n), width);
      DecimalLength(n, width);
    }
  }

  // ----- scanning what was printed -----

  lemma {:induction false} FullDigitRun(digits: string, rest: string, width: nat)
    requires AllDigits(digits) && |digits| >= width
    ensures DigitRun(digits + rest, width) == width
  {
    if width > 0 {
      assert (digits + rest)[1..] == digits[1..] + rest;
      FullDigitRun(digits[1..], rest, width - 1);
    }
  }

  lemma {:induction false} ShortDigitRun(digits: string, rest: string, width: nat)
    requires AllDigits(digits) && |digits| <= width
    requires rest != "" && !IsDigit(rest[0])
    ensures DigitRun(digits + rest, width) == |digits|
  {
    if digits == [] {
      assert digits + rest == rest;
    } else {
      assert (digits + rest)[1..] == digits[1..] + rest;
      ShortDigitRun(digits[1..], rest, width - 1);
    }
  }

  lemma SkipOneSpace(s: string)
    requires s != "" && !IsSpace(s[0])
    ensures SkipSpace(" " + s) == s && SkipSpace(s) == s
  {
    assert (" " + s)[1..] == s;
  }

  lemma ScanPrinted(n: int, width: nat, rest: string)
    requires width > 1 && |Padded(n, width)| == width
    ensures ScanNumber(Padded(n, width) + rest, width) == Some((n, rest))
    ensures ScanNumber(" " + (Padded(n, width) + rest), width) == Some((n, rest))
  {
    hide ZeroPad, Decimal, Padded, Value, DigitRun, SkipSpace;
    var digits := if n < 0 then ZeroPad(Decimal(-n), width - 1) else ZeroPad(Decimal(n), width);
    PaddedParts(n, width, digits);
    var text := Padded(n, width) + rest;
    assert text != "" && !IsSpace(text[0]);
    SkipOneSpace(text);
    var w := if n < 0 then width - 1 else width;
    FullDigitRun(digits, rest, w);
    if n < 0 {
      assert text[1..] == digits + rest;
    } else {
      assert text == digits + rest;
    }
    assert (digits + rest)[..w] == digits && (digits + rest)[w..] == rest;
  }

  lemma {:induction false} FullWord(word: string, rest: string)
    requires forall i :: 0 <= i < |word| ==> !IsSpace(word[i])
    ensures WordLength(word + rest, |word|) == |word|
  {
    if word != [] {
      assert (word + rest)[1..] == word[1..] + rest;
      FullWord(word[1..], rest);
    }
  }

  lemma ScanPrintedWord(word: string, rest: string)
    requires word != "" && forall i :: 0 <= i < |word| ==> !IsSpace(word[i])
    ensures ScanWord(word + rest, |word|) == Some((word, rest))
    ensures ScanWord(" " + (word + rest), |word|) == Some((word, rest))
  {
    SkipOneSpace(word + rest);
    FullWord(word, rest);
    assert (word + rest)[..|word|] == word && (word + rest)[|word|..] == rest;
  }

  lemma ScanSeparator(c: char, rest: string)
    ensures ScanChar([c] + rest, c) == Some(rest)
  {
  }

  // ----- names -----

  predicate ThreeLetters(s: string) {
    |s| == 3 && forall j :: 0 <= j < 3 ==> !IsSpace(s[j])
  }

  lemma NamesAreWords()
    ensures forall i :: 0 <= i < 7 ==> ThreeLetters(WEEKDAY_NAMES[i])
    ensures forall i :: 0 <= i < 12 ==> ThreeLetters(MONTH_NAMES[i])
  {
  }

  lemma MonthNamesDistinct(i: nat, j: nat)
    requires i < j < 12
    ensures MONTH_NAMES[i] != MONTH_NAMES[j]
  {
    assert MONTH_NAMES[i][0] != MONTH_NAMES[j][0] || MONTH_NAMES[i][1] != MONTH_NAMES[j][1]
           || MONTH_NAMES[i][2] != MONTH_NAMES[j][2];
  }

  lemma {:induction false} MonthFound(m: nat, from: nat)
    requires from <= m < 12
    ensures MonthIndex(MONTH_NAMES[m], from) == Some(m)
    decreases m - from
  {
    if from < m {
      MonthNamesDistinct(from, m);
      MonthFound(m, from + 1);
    }
  }

  // ----- the round trip -----

  function TimeText(b: BrokenDown): string {
    Padded(b.hour, 2) + (":" + (Padded(b.minute, 2) + (":" + (Padded(b.second, 2) + " GMT"))))
  }

  ghost predicate ClockFits(b: BrokenDown) {
    |Padded(b.hour, 2)| == 2 && |Padded(b.minute, 2)| == 2 && |Padded(b.second, 2)| == 2
  }

  lemma TwoDigits(n: int)
    requires 0 <= n < 100
    ensures |Padded(n, 2)| == 2
  {
    PaddedFits(n, 2);
    assert Pow10(2) == 10 * Pow10(1) && Pow10(1) == 10 * Pow10(0);
  }

  lemma ScanFittingYear(b: BrokenDown)
    requires ClockFits(b) && |Padded(b.date.year, 4)| == 4
    ensures ScanYearAndTime(" " + (Padded(b.date.year, 4) + (" " + TimeText(b))))
            == Some((b.date.year, b.hour, b.minute, b.second))
  {
    hide Padded, ScanNumber, ScanChar;
    ScanPrinted(b.date.year, 4, " " + TimeText(b));
    var afterHour := ":" + (Padded(b.minute, 2) + (":" + (Padded(b.second, 2) + " GMT")));
    ScanPrinted(b.hour, 2, afterHour);
    ScanSeparator(':', Padded(b.minute, 2) + (":" + (Padded(b.second, 2) + " GMT")));
    ScanPrinted(b.minute, 2, ":" + (Padded(b.second, 2) + " GMT"));
    ScanSeparator(':', Padded(b.second, 2) + " GMT");
    ScanPrinted(b.second, 2, " GMT");
  }

  /** A year too long for `%4d` leaves digits behind that no separator can match. */
  lemma ScanLongYear(year: int, rest: string)
    requires |Padded(year, 4)| > 4
    ensures ScanYearAndTime(" " + (Padded(year, 4) + (" " + rest))) == None
  {
    hide ZeroPad, Decimal, Padded, Value, DigitRun, SkipSpace;
    var digits := if year < 0 then ZeroPad(Decimal(-year), 3) else ZeroPad(Decimal(year), 4);
    PaddedParts(year, 4, digits);
    var text := Padded(year, 4) + (" " + rest);
    assert text != "" && !IsSpace(text[0]);
    SkipOneSpace(text);
    var w := if year < 0 then 3 else 4;
    FullDigitRun(digits, " " + rest, w);
    if year < 0 {
      assert text[1..] == digits + (" " + rest);
    } else {
      assert text == digits + (" " + rest);
    }
    var left := digits[w..];
    assert (digits + (" " + rest))[w..] == left + (" " + rest);
    assert ScanNumber(" " + text, 4).value.1 == left + (" " + rest);
    LeftoverDigits(left, " " + rest);
  }

  lemma LeftoverDigits(left: string, rest: string)
    requires left != "" && AllDigits(left) && rest != "" && rest[0] == ' '
    ensures var r := ScanNumber(left + rest, 2); r.Some? && ScanChar(r.value.1, ':') == None
  {
    hide Value, DigitRun, SkipSpace;
    var text := left + rest;
    assert !IsSpace(text[0]) && text[0] != '-' && text[0] != '+';
    SkipOneSpace(text);
    if |left| >= 2 {
      FullDigitRun(left, rest, 2);
      assert text[2..] != "" && text[2..][0] != ':';
    } else {
      ShortDigitRun(left, rest, 2);
      assert text[1..] == rest;
    }
  }

  /** Years that `%4d` reads back. */
  predicate YearReadable(year: int) {
    -999 <= year <= 9999
  }

  lemma YearFits(year: int)
    ensures |Padded(year, 4)| >= 4
    ensures |Padded(year, 4)| == 4 <==> YearReadable(year)
  {
    PaddedFits(year, 4);
    PaddedParts(year, 4, if year < 0 then ZeroPad(Decimal(-year), 3) else ZeroPad(Decimal(year), 4));
    assert Pow10(1) == 10 && Pow10(2) == 100 && Pow10(3) == 1000 && Pow10(4) == 10000;
  }

  lemma ParseSteps(b: BrokenDown)
    requires 0 <= b.weekday < 7 && 0 <= b.date.month < 12 && 1 <= b.date.day <= 31
    ensures var tail := ScanYearAndTime(" " + (Padded(b.date.year, 4) + (" " + TimeText(b))));
            ParseHttpDate(FormatFields(b))
            == match tail
               case Some((year, hour, minute, second)) =>
                 Some(TimeGm(Date(year, b.date.month, b.date.day), hour, minute, second))
               case None => None
  {
    hide Padded, ScanNumber, ScanChar, ScanWord, ScanYearAndTime, TimeGm, MonthIndex;
    NamesAreWords();
    TwoDigits(b.date.day);
    var s4 := " " + (Padded(b.date.year, 4) + (" " + TimeText(b)));
    var s3 := " " + (MONTH_NAMES[b.date.month] + s4);
    var s2 := " " + (Padded(b.date.day, 2) + s3);
    assert ", " + (Padded(b.date.day, 2) + s3) == "," + s2;
    assert FormatFields(b) == WEEKDAY_NAMES[b.weekday] + ("," + s2);
    ScanPrintedWord(WEEKDAY_NAMES[b.weekday], "," + s2);
    ScanSeparator(',', s2);
    ScanPrinted(b.date.day, 2, s3);
    ScanPrintedWord(MONTH_NAMES[b.date.month], s4);
    MonthFound(b.date.month, 0);
  }

  lemma GmTimeFits(t: int)
    ensures var b := GmTime(t);
            ClockFits(b) && 0 <= b.weekday < 7 && 0 <= b.date.month < 12 && 1 <= b.date.day <= 31
  {
    TimeGmOfGmTime(t);
    TwoDigits(GmTime(t).hour);
    TwoDigits(GmTime(t).minute);
    TwoDigits(GmTime(t).second);
  }

  /**
   * The round trip, for every time: printing and parsing gives the time back
   * exactly when its year is between -999 and 9999, and no result otherwise.
   */
  lemma HttpDateRoundTrip(t: int)
    ensures ParseHttpDate(FormatHttpDate(t)) == if YearReadable(GmTime(t).date.year) then Some(t) else None
  {
    hide ParseHttpDate, FormatFields, GmTime, TimeGm, Padded, ScanYearAndTime;
    var b := GmTime(t);
    GmTimeFits(t);
    TimeGmOfGmTime(t);
    ParseSteps(b);
    YearFits(b.date.year);
    if YearReadable(b.date.year) {
      ScanFittingYear(b);
    } else {
      ScanLongYear(b.date.year, TimeText(b));
    }
  }

  /**
   * The text has the 29 characters of an IMF-fixdate for years up to 9999, and
   * fits the 40-byte buffer, terminator included, for every 32-bit year.
   */
  lemma HttpDateLength(t: int)
    ensures var year := GmTime(t).date.year;
            && (YearReadable(year) ==> |FormatHttpDate(t)| == 29)
            && (-0x8000_0000 <= year < 0x8000_0000 ==> |FormatHttpDate(t)| + 1 <= 40)
  {
    hide GmTime, Padded;
    var b := GmTime(t);
    GmTimeFits(t);
    NamesAreWords();
    TwoDigits(b.date.day);
    YearFits(b.date.year);
    assert |FormatHttpDate(t)| == 25 + |Padded(b.date.year, 4)|;
    if -0x8000_0000 <= b.date.year < 0x8000_0000 {
      LongestYear(b.date.year);
    }
  }

  lemma LongestYear(year: int)
    requires -0x8000_0000 <= year < 0x8000_0000
    ensures |Padded(year, 4)| <= 11
  {
    assert Pow10(4) == 10000;
    assert Pow10(7) == 1000 * Pow10(4);
    assert Pow10(10) == 1000 * Pow10(7);
    if year < 0 {
      DecimalLength(-year, 10);
      ZeroPadded(Decimal(-year), 3);
    } else {
      DecimalLength(year, 10);
      ZeroPadded(Decimal(year), 4);
    }
  }

  /** The names printed are those of the calendar's weekday and month of the date printed with them. */
  lemma PrintedWeekdayIsRight(t: int)
    ensures var d := GmTime(t).date;
            && ValidDate(d)
            && FormatHttpDate(t)[..3] == ["Sun", "Mon", "Tue", "Wed", "Thu", "Fri", "Sat"][WeekdayOf(d)]
            && FormatHttpDate(t)[8..11]
               == ["Jan", "Feb", "Mar", "Apr", "May", "Jun", "Jul", "Aug", "Sep", "Oct", "Nov", "Dec"][d.month]
  {
    hide WeekdayOf, DateOf, DayNumber, Padded;
    var b := GmTime(t);
    TimeGmOfGmTime(t);
    DateOfCorrect(t / 86400);
    WeekdayIsRight(b.date);
    NamesAreWords();
    TwoDigits(b.date.day);
    NamesInPlace(b);
  }

  lemma NamesInPlace(b: BrokenDown)
    requires 0 <= b.weekday < 7 && 0 <= b.date.month < 12 && |Padded(b.date.day, 2)| == 2
    ensures |FormatFields(b)| > 11
    ensures FormatFields(b)[..3] == WEEKDAY_NAMES[b.weekday] && FormatFields(b)[8..11] == MONTH_NAMES[b.date.month]
  {
    hide Padded;
    NamesAreWords();
    var tail := Padded(b.date.year, 4) + (" " + TimeText(b));
    var (weekday, day, month) := (WEEKDAY_NAMES[b.weekday], Padded(b.date.day, 2), MONTH_NAMES[b.date.month]);
    assert FormatFields(b) == weekday + (", " + (day + (" " + (month + (" " + tail)))));
  }

  /** The example of section 7.1.1.1 of RFC 7231. */
  lemma PrintedExample()
    ensures FormatHttpDate(784111777)
            == "Sun" + (", " + ("06" + (" " + ("Nov" + (" " + ("1994" + (" " + ("08" + (":" + ("49" + (":" + ("37" + " GMT"))))))))))))
  {
    ExampleTime();
    hide GmTime;
    PaddedExamples();
    hide Padded;
  }

  lemma ExampleTime()
    ensures GmTime(784111777) == BrokenDown(Date(1994, 10, 6), 8, 49, 37, 0)
  {
    ExampleDay();
    hide DayNumber, DateOf;
    DateOfDayNumber(Date(1994, 10, 6));
    assert 784111777 / 86400 == 9075 && 784111777 % 86400 == 31777;
  }

  lemma ExampleDay()
    ensures DayNumber(Date(1994, 10, 6)) == 9075 && ValidDate(Date(1994, 10, 6))
  {
    MonthTable(0);
    hide DaysBeforeMonth;
    assert LeapDay(1994) == 0;
    assert DaysBeforeYear(1994) == 727928;
  }

  lemma PaddedExamples()
    ensures Padded(6, 2) == "06" && Padded(1994, 4) == "1994"
    ensures Padded(8, 2) == "08" && Padded(49, 2) == "49" && Padded(37, 2) == "37"
  {
    assert Decimal(6) == "6" && Decimal(8) == "8";
    assert Decimal(4) == "4" && Decimal(49) == "49";
    assert Decimal(3) == "3" && Decimal(37) == "37";
    assert Decimal(1) == "1";
    assert Decimal(19) == "19";
    assert Decimal(199) == "199";
    assert Decimal(1994) == "1994";
    hide Decimal;
  }
}
