/**
  * `pd.to_datetime(..., format="%b %d, %Y", errors='coerce')` on one value:
  * the regular expression that Python's `strptime` builds from the format,
  * then the calendar check of `datetime` and the range of a nanosecond
  * pandas `Timestamp`. Anything that fails becomes absent (NaT).
  */
module Dates {
  import opened Wrappers
  import opened Text

  datatype Date = Date(year: int, month: int, day: int)

  /** Gregorian leap years. */
  predicate IsLeapYear(y: int) {
    y % 4 == 0 && (y % 100 != 0 || y % 400 == 0)
  }

  function DaysInMonth(y: int, m: int): (r: int)
    requires 1 <= m <= 12
  {
    if m == 2 then (if IsLeapYear(y) then 29 else 28)
    else if m == 4 || m == 6 || m == 9 || m == 11 then 30
    else 31
  }

  /** What `datetime(year, month, day)` accepts. */
  predicate IsCalendarDate(d: Date) {
    1 <= d.year <= 9999 && 1 <= d.month <= 12 && 1 <= d.day <= DaysInMonth(d.year, d.month)
  }

  predicate NotAfter(a: Date, b: Date) {
    a.year < b.year || (a.year == b.year && (a.month < b.month || (a.month == b.month && a.day <= b.day)))
  }

  /**
    * Midnight of the date lies within `Timestamp.min` (1677-09-21 00:12:43...)
    * and `Timestamp.max` (2262-04-11 23:47:16...).
    */
  predicate InTimestampRange(d: Date) {
    NotAfter(Date(1677, 9, 22), d) && NotAfter(d, Date(2262, 4, 11))
  }

  /** The C-locale abbreviated month names that `%b` matches. */
  const MonthAbbreviations: seq<string> :=
    ["Jan", "Feb", "Mar", "Apr", "May", "Jun", "Jul", "Aug", "Sep", "Oct", "Nov", "Dec"]

  /** `%b`, matched ignoring case: the month number, or 0 when the text is no month. */
  function MonthNumber(t: string): (m: nat)
    ensures m <= 12
  {
    var l := Lower(t);
    if l == "jan" then 1 else if l == "feb" then 2 else if l == "mar" then 3
    else if l == "apr" then 4 else if l == "may" then 5 else if l == "jun" then 6
    else if l == "jul" then 7 else if l == "aug" then 8 else if l == "sep" then 9
    else if l == "oct" then 10 else if l == "nov" then 11 else if l == "dec" then 12
    else 0
  }

  /** `%d`: the alternatives `3[01]|[12]\d|0[1-9]|[1-9]`. */
  predicate IsDayToken(t: string) {
    (|t| == 1 && '1' <= t[0] <= '9')
    || (|t| == 2 && ((t[0] == '3' && (t[1] == '0' || t[1] == '1'))
                     || ((t[0] == '1' || t[0] == '2') && IsDigit(t[1]))
                     || (t[0] == '0' && '1' <= t[1] <= '9')))
  }

  /** The length of the run of whitespace that starts the text (`\s+` matches it greedily). */
  function SpaceRun(s: string): (n: nat)
    ensures n <= |s|
    ensures forall i :: 0 <= i < n ==> IsSpace(s[i])
    ensures n < |s| ==> !IsSpace(s[n])
  {
    if s != [] && IsSpace(s[0]) then 1 + SpaceRun(s[1..]) else 0
  }

  /** `,\s+(\d\d\d\d)` at the end of the text: the year. */
  function ParseYear(c: string): (r: Option<nat>)
  {
    var w := SpaceRun(c);
    var y := c[w..];
    if w == 0 || |y| != 4 || !AllDigits(y) then None else Some(DigitsValue(y))
  }

  /** What follows `%b\s+`: the day, `,`, blanks, the year; then the `datetime` and `Timestamp` checks. */
  function ParseDayYear(b: string, month: nat): (r: Option<Date>)
    ensures r.Some? ==> IsCalendarDate(r.value) && InTimestampRange(r.value) && r.value.month == month
  {
    var k := IndexOf(b, ',');
    if k == |b| || !IsDayToken(b[..k]) then None else
    match ParseYear(b[k + 1..])
    case None => None
    case Some(year) =>
      var date := Date(year, month, DigitsValue(b[..k]));
      if IsCalendarDate(date) && InTimestampRange(date) then Some(date) else None
  }

  /**
    * The match of `(?i)(jan|...|dec)\s+(3[01]|[12]\d|0[1-9]|[1-9]),\s+(\d\d\d\d)`
    * against the whole text, then the `datetime` and `Timestamp` checks.
    */
  function ParseDate(s: string): (r: Option<Date>)
    ensures r.Some? ==> IsCalendarDate(r.value) && InTimestampRange(r.value)
  {
    if |s| < 3 then None else
    var month := MonthNumber(s[..3]);
    var a := s[3..];
    var w := SpaceRun(a);
    if month == 0 || w == 0 then None else ParseDayYear(a[w..], month)
  }

  /** A non-empty run of whitespace: what `\s+` matches. */
  predicate IsBlankRun(w: string) {
    w != [] && forall i :: 0 <= i < |w| ==> IsSpace(w[i])
  }

  /**
    * `s` is a month name `m`, blanks, a day `t`, a comma, blanks and a
    * four-digit year `y`: a text the regular expression matches in full.
    */
  predicate DateText(s: string, m: string, w1: string, t: string, w2: string, y: string) {
    && s == m + w1 + t + "," + w2 + y
    && |m| == 3 && MonthNumber(m) != 0
    && IsBlankRun(w1) && IsDayToken(t) && IsBlankRun(w2)
    && |y| == 4 && AllDigits(y)
  }

  /** The date the groups of a match stand for. */
  function DateOf(m: string, t: string, y: string): (d: Date)
    requires IsDayToken(t) && AllDigits(y)
  {
    DayTokenDigits(t);
    Date(DigitsValue(y), MonthNumber(m), DigitsValue(t))
  }

  /** `s` is the text of a match whose groups stand for `d`. */
  ghost predicate IsDateText(s: string, d: Date) {
    exists m, w1, t, w2, y :: DateText(s, m, w1, t, w2, y) && d == DateOf(m, t, y)
  }

  /** `strftime("%b %-d, %Y")`: the form the source data uses, such as "Nov 3, 2006". */
  function FormatDate(d: Date): (r: string)
    requires IsCalendarDate(d)
  {
    MonthAbbreviations[d.month - 1] + " " + NatText(d.day) + ", " + NatText(d.year)
  }

  lemma MonthRoundTrip(m: int)
    requires 1 <= m <= 12
    ensures |MonthAbbreviations[m - 1]| == 3 && MonthNumber(MonthAbbreviations[m - 1]) == m
  {
    var t := MonthAbbreviations[m - 1];
    LowerInitial(t);
  }

  /** A three-letter name with lower-case tail lowers to its lower-case initial and tail. */
  lemma LowerInitial(t: string)
    requires |t| == 3 && !IsUpper(t[1]) && !IsUpper(t[2])
    ensures Lower(t) == [LowerChar(t[0]), t[1], t[2]]
  {
    LowerAt(t);
  }

  lemma DayTokenOfDay(n: nat)
    requires 1 <= n <= 31
    ensures IsDayToken(NatText(n)) && DigitsValue(NatText(n)) == n
  {
    NatTextValue(n);
    if n >= 10 {
      NatTextLength(n, 1);
      var t := NatText(n);
      assert t[0] == NatText(n / 10)[0];
      assert t[1] == DigitChar(n % 10);
      assert DigitValue(t[0]) == n / 10;
    }
  }

  lemma {:induction false} SpaceRunOne(x: string)
    requires x != [] && !IsSpace(x[0])
    ensures SpaceRun(" " + x) == 1 && (" " + x)[1..] == x
  {
    assert (" " + x)[1..] == x;
  }

  lemma {:induction false} IndexOfAfterDigits(t: string, rest: string)
    requires AllDigits(t) && rest != [] && rest[0] == ','
    ensures IndexOf(t + rest, ',') == |t| && (t + rest)[..|t|] == t && (t + rest)[|t| + 1..] == rest[1..]
  {
    if t != [] {
      assert (t + rest)[1..] == t[1..] + rest;
      IndexOfAfterDigits(t[1..], rest);
    }
  }

  lemma ParseYearOf(year: nat)
    requires 1000 <= year <= 9999
    ensures ParseYear(" " + NatText(year)) == Some(year)
  {
    var yt := NatText(year);
    NatTextLength(year, 3);
    NatTextValue(year);
    SpaceRunOne(yt);
  }

  lemma ParseDayYearOf(d: Date)
    requires IsCalendarDate(d) && InTimestampRange(d)
    ensures ParseDayYear(NatText(d.day) + ", " + NatText(d.year), d.month) == Some(d)
  {
    var dt := NatText(d.day);
    DayTokenOfDay(d.day);
    var rest := ", " + NatText(d.year);
    var b := NatText(d.day) + ", " + NatText(d.year);
    assert b == dt + rest;
    IndexOfAfterDigits(dt, rest);
    assert rest[1..] == " " + NatText(d.year);
    ParseYearOf(d.year);
    assert IndexOf(b, ',') == |dt| && b[..|dt|] == dt;
    assert ParseYear(b[|dt| + 1..]) == Some(d.year);
  }

  /** Every representable date, written in the source's format, parses back to itself. */
  lemma ParseFormat(d: Date)
    requires IsCalendarDate(d) && InTimestampRange(d)
    ensures ParseDate(FormatDate(d)) == Some(d)
  {
    var mt := MonthAbbreviations[d.month - 1];
    MonthRoundTrip(d.month);
    var b := NatText(d.day) + ", " + NatText(d.year);
    var s := FormatDate(d);
    assert s == mt + (" " + b);
    assert s[..3] == mt && s[3..] == " " + b;
    SpaceRunOne(b);
    ParseDayYearOf(d);
  }

  /** Blanks followed by a text that does not start with a blank: `\s+` takes exactly the blanks. */
  lemma {:induction false} SpaceRunOf(w: string, rest: string)
    requires forall i :: 0 <= i < |w| ==> IsSpace(w[i])
    requires rest != [] && !IsSpace(rest[0])
    ensures SpaceRun(w + rest) == |w| && (w + rest)[|w|..] == rest
  {
    if w != [] {
      assert (w + rest)[0] == w[0] && (w + rest)[1..] == w[1..] + rest;
      SpaceRunOf(w[1..], rest);
    }
  }

  /** A day token is one or two digits. */
  lemma DayTokenDigits(t: string)
    requires IsDayToken(t)
    ensures t != [] && AllDigits(t) && !IsSpace(t[0])
  {
  }

  /** Blanks then four digits parse as the year the digits spell. */
  lemma ParseYearOfPieces(w2: string, y: string)
    requires IsBlankRun(w2) && |y| == 4 && AllDigits(y)
    ensures ParseYear(w2 + y) == Some(DigitsValue(y))
  {
    assert IsDigit(y[0]);
    SpaceRunOf(w2, y);
  }

  /** A day token, a comma, blanks and four digits parse as that day and year, when the date exists. */
  lemma ParseDayYearOfPieces(t: string, w2: string, y: string, month: nat)
    requires IsDayToken(t) && IsBlankRun(w2) && |y| == 4 && AllDigits(y)
    ensures AllDigits(t) && var d := Date(DigitsValue(y), month, DigitsValue(t));
      ParseDayYear(t + ("," + (w2 + y)), month) == if IsCalendarDate(d) && InTimestampRange(d) then Some(d) else None
  {
    DayTokenDigits(t);
    var tail := "," + (w2 + y);
    IndexOfAfterDigits(t, tail);
    assert tail[1..] == w2 + y;
    ParseYearOfPieces(w2, y);
  }

  /** A text of the matched form parses to its date when that date exists and is representable. */
  lemma DateTextParses(s: string, m: string, w1: string, t: string, w2: string, y: string)
    requires DateText(s, m, w1, t, w2, y)
    ensures var d := DateOf(m, t, y);
      ParseDate(s) == if IsCalendarDate(d) && InTimestampRange(d) then Some(d) else None
  {
    var b := t + ("," + (w2 + y));
    JoinPieces(m, w1, t, w2, y);
    assert s == m + (w1 + b);
    assert s[..3] == m && s[3..] == w1 + b;
    DayTokenDigits(t);
    assert b[0] == t[0];
    SpaceRunOf(w1, b);
    ParseDayYearOfPieces(t, w2, y, MonthNumber(m));
  }

  /** The six pieces of a match, joined one at a time from the right. */
  lemma JoinPieces(m: string, w1: string, t: string, w2: string, y: string)
    ensures m + (w1 + (t + ("," + (w2 + y)))) == m + w1 + t + "," + w2 + y
  {
    var c := w2 + y;
    assert "," + c == ("," + w2) + y;
    assert t + ("," + c) == (t + "," + w2) + y;
    assert w1 + (t + ("," + c)) == (w1 + t + "," + w2) + y;
    assert m + (w1 + (t + ("," + c))) == (m + w1 + t + "," + w2) + y;
  }

  /** A year that parses is blanks then four digits. */
  lemma ParseYearSound(c: string) returns (w2: string, y: string)
    requires ParseYear(c).Some?
    ensures c == w2 + y && IsBlankRun(w2) && |y| == 4 && AllDigits(y) && ParseYear(c) == Some(DigitsValue(y))
  {
    var v := SpaceRun(c);
    w2, y := c[..v], c[v..];
    assert c == w2 + y;
  }

  /** A day and year that parse are a day token, a comma and a year. */
  lemma ParseDayYearSound(b: string, month: nat) returns (t: string, w2: string, y: string)
    requires ParseDayYear(b, month).Some?
    ensures b == t + ("," + (w2 + y)) && IsDayToken(t) && IsBlankRun(w2) && |y| == 4 && AllDigits(y)
    ensures AllDigits(t) && ParseDayYear(b, month) == Some(Date(DigitsValue(y), month, DigitsValue(t)))
  {
    var k := IndexOf(b, ',');
    t := b[..k];
    DayTokenDigits(t);
    var c := b[k + 1..];
    w2, y := ParseYearSound(c);
    assert b == t + ("," + c);
  }

  /** A text that parses starts with a month name, then what follows it starts with blanks. */
  lemma ParseDateHead(s: string) returns (m: string, a: string)
    requires ParseDate(s).Some?
    ensures s == m + a && |m| == 3 && MonthNumber(m) != 0 && SpaceRun(a) != 0
    ensures ParseDate(s) == ParseDayYear(a[SpaceRun(a)..], MonthNumber(m))
  {
    m, a := s[..3], s[3..];
    assert s == m + a;
  }

  /** The blanks that `\s+` takes at the start of a text, and the rest. */
  lemma BlankPrefix(a: string) returns (w1: string, b: string)
    requires SpaceRun(a) != 0
    ensures a == w1 + b && IsBlankRun(w1) && b == a[SpaceRun(a)..]
  {
    var w := SpaceRun(a);
    w1, b := a[..w], a[w..];
    assert a == w1 + b;
  }

  /** Every text that parses is of the matched form, and its groups give the date. */
  lemma ParseDateSound(s: string) returns (m: string, w1: string, t: string, w2: string, y: string)
    requires ParseDate(s).Some?
    ensures DateText(s, m, w1, t, w2, y) && ParseDate(s) == Some(DateOf(m, t, y))
  {
    var a, b;
    m, a := ParseDateHead(s);
    w1, b := BlankPrefix(a);
    t, w2, y := ParseDayYearSound(b, MonthNumber(m));
    JoinPieces(m, w1, t, w2, y);
  }

  /**
    * `to_datetime` with the format yields a date exactly for a text of the
    * matched form whose date exists and lies in the `Timestamp` range.
    */
  lemma ParseDateMeaning(s: string, d: Date)
    ensures ParseDate(s) == Some(d) <==> IsDateText(s, d) && IsCalendarDate(d) && InTimestampRange(d)
  {
    if ParseDate(s) == Some(d) {
      var m, w1, t, w2, y := ParseDateSound(s);
      assert DateText(s, m, w1, t, w2, y) && d == DateOf(m, t, y);
    }
    if IsDateText(s, d) {
      var m, w1, t, w2, y :| DateText(s, m, w1, t, w2, y) && d == DateOf(m, t, y);
      DateTextParses(s, m, w1, t, w2, y);
    }
  }

  lemma YearText2006()
    ensures NatText(2006) == "2006"
  {
    assert NatText(2) == "2";
    assert NatText(20) == "2" + "0";
    assert NatText(200) == "20" + "0";
    assert NatText(2006) == "200" + "6";
  }

  lemma FormatExample()
    ensures FormatDate(Date(2006, 11, 3)) == "Nov 3, 2006"
  {
    YearText2006();
    assert NatText(3) == "3";
    assert MonthAbbreviations[10] == "Nov";
  }

  lemma ParseExample()
    ensures ParseDate("Nov 3, 2006") == Some(Date(2006, 11, 3))
  {
    ParseFormat(Date(2006, 11, 3));
    FormatExample();
  }
}
