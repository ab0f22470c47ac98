// Calendar dates and the three numeric layouts the adapters hand to Go's
// time.Parse: "02-01-2006" (Flexer listing, Amino detail page), "2-1-2006"
// (RightPeople titles) and "2006-01-02" (Flexer detail page). Parsing follows
// Go's rules for these layout elements: "02" and "01" take exactly two digits,
// "2" and "1" take one or two, "2006" takes exactly four; the month must lie in
// 1..12, the day in 1..days-in-month, and no text may follow.

module Calendar {
  import opened Jobs

  /** A date as Go's Year(), Month() and Day() report it. */
  datatype Date = Date(year: int, month: int, day: int)

  predicate IsLeap(year: int) {
    year % 4 == 0 && (year % 100 != 0 || year % 400 == 0)
  }

  function DaysIn(month: int, year: int): int
    requires 1 <= month <= 12
  {
    if month == 2 then (if IsLeap(year) then 29 else 28)
    else if month == 4 || month == 6 || month == 9 || month == 11 then 30
    else 31
  }

  /** A date that names an existing day. */
  predicate ValidDate(d: Date) {
    1 <= d.month <= 12 && 1 <= d.day <= DaysIn(d.month, d.year)
  }

  predicate IsDigit(c: char) { '0' <= c <= '9' }

  function DigitValue(c: char): int
    requires IsDigit(c)
  {
    c as int - '0' as int
  }

  /** Go's getnum: one or two leading digits; with `fixed`, exactly two. */
  function GetNum(s: string, fixed: bool): Option<(int, string)> {
    if |s| == 0 || !IsDigit(s[0]) then None
    else if |s| == 1 || !IsDigit(s[1]) then
      (if fixed then None else Some((DigitValue(s[0]), s[1..])))
    else Some((10 * DigitValue(s[0]) + DigitValue(s[1]), s[2..]))
  }

  /** The "2006" layout element: exactly four digits. */
  function GetYear(s: string): Option<(int, string)> {
    if |s| < 4 || !IsDigit(s[0]) || !IsDigit(s[1]) || !IsDigit(s[2]) || !IsDigit(s[3]) then None
    else Some((1000 * DigitValue(s[0]) + 100 * DigitValue(s[1]) + 10 * DigitValue(s[2]) + DigitValue(s[3]), s[4..]))
  }

  /** The literal "-" between layout elements. */
  function Dash(s: string): Option<string> {
    if |s| > 0 && s[0] == '-' then Some(s[1..]) else None
  }

  /** The range checks Go applies once every element has been read. */
  function Checked(year: int, month: int, day: int, rest: string): Option<Date> {
    if rest == "" && 1 <= month <= 12 && 1 <= day <= DaysIn(month, year)
    then Some(Date(year, month, day)) else None
  }

  /** time.Parse with layout "02-01-2006" (`fixed`) or "2-1-2006" (not `fixed`). */
  function ParseDayMonthYear(s: string, fixed: bool): (r: Option<Date>)
    ensures r.Some? ==> ValidDate(r.value)
  {
    var d :- GetNum(s, fixed);
    var s1 :- Dash(d.1);
    var m :- GetNum(s1, fixed);
    var s2 :- Dash(m.1);
    var y :- GetYear(s2);
    Checked(y.0, m.0, d.0, y.1)
  }

  /** time.Parse with layout "2006-01-02". */
  function ParseYearMonthDay(s: string): (r: Option<Date>)
    ensures r.Some? ==> ValidDate(r.value)
  {
    var y :- GetYear(s);
    var s1 :- Dash(y.1);
    var m :- GetNum(s1, true);
    var s2 :- Dash(m.1);
    var d :- GetNum(s2, true);
    Checked(y.0, m.0, d.0, d.1)
  }

  /** The two-digit form of 0..99, as the "02" and "01" layout elements print it. */
  function TwoDigits(n: int): string
    requires 0 <= n < 100
  {
    [('0' as int + n / 10) as char, ('0' as int + n % 10) as char]
  }

  /** The four-digit form of 0..9999, as the "2006" layout element prints it. */
  function FourDigits(n: int): string
    requires 0 <= n < 10000
  {
    TwoDigits(n / 100) + TwoDigits(n % 100)
  }

  /** The text time.Format("02-01-2006") gives for a date with a four-digit year. */
  function FormatDayMonthYear(d: Date): string
    requires ValidDate(d) && 0 <= d.year < 10000
  {
    TwoDigits(d.day) + "-" + TwoDigits(d.month) + "-" + FourDigits(d.year)
  }

  /** The text time.Format("2006-01-02") gives for a date with a four-digit year. */
  function FormatYearMonthDay(d: Date): string
    requires ValidDate(d) && 0 <= d.year < 10000
  {
    FourDigits(d.year) + "-" + TwoDigits(d.month) + "-" + TwoDigits(d.day)
  }

  lemma TwoDigitsRead(n: int, rest: string)
    requires 0 <= n < 100
    ensures GetNum(TwoDigits(n) + rest, true) == Some((n, rest))
    ensures GetNum(TwoDigits(n) + rest, false) == Some((n, rest))
  {
    var s := TwoDigits(n) + rest;
    assert s[2..] == rest;
  }

  lemma FourDigitsRead(n: int, rest: string)
    requires 0 <= n < 10000
    ensures GetYear(FourDigits(n) + rest) == Some((n, rest))
  {
    var s := FourDigits(n) + rest;
    assert s[4..] == rest;
    assert s[0] == TwoDigits(n / 100)[0] && s[1] == TwoDigits(n / 100)[1];
    assert s[2] == TwoDigits(n % 100)[0] && s[3] == TwoDigits(n % 100)[1];
  }

  /** Every day of years 0..9999 reads back from its "02-01-2006" text, under both layouts. */
  lemma DayMonthYearRoundTrip(d: Date, fixed: bool)
    requires ValidDate(d) && 0 <= d.year < 10000
    ensures ParseDayMonthYear(FormatDayMonthYear(d), fixed) == Some(d)
  {
    var tail := "-" + FourDigits(d.year);
    var rest := "-" + TwoDigits(d.month) + tail;
    assert FormatDayMonthYear(d) == TwoDigits(d.day) + rest;
    TwoDigitsRead(d.day, rest);
    assert rest[1..] == TwoDigits(d.month) + tail;
    TwoDigitsRead(d.month, tail);
    assert tail[1..] == FourDigits(d.year) + "";
    FourDigitsRead(d.year, "");
  }

  /** Every day of years 0..9999 reads back from its "2006-01-02" text. */
  lemma YearMonthDayRoundTrip(d: Date)
    requires ValidDate(d) && 0 <= d.year < 10000
    ensures ParseYearMonthDay(FormatYearMonthDay(d)) == Some(d)
  {
    var tail := "-" + TwoDigits(d.day);
    var rest := "-" + TwoDigits(d.month) + tail;
    assert FormatYearMonthDay(d) == FourDigits(d.year) + rest;
    FourDigitsRead(d.year, rest);
    assert rest[1..] == TwoDigits(d.month) + tail;
    TwoDigitsRead(d.month, tail);
    assert tail[1..] == TwoDigits(d.day) + "";
    TwoDigitsRead(d.day, "");
  }

  /** Days from 0001-01-01 to January 1 of `year` in the proleptic Gregorian calendar. */
  function DaysBeforeYear(year: int): int {
    var p := year - 1;
    365 * p + p / 4 - p / 100 + p / 400
  }

  /** Days of `year` before the first of `month` (Go's daysBefore table plus the leap day). */
  function DaysBeforeMonth(month: int, year: int): int
    requires 1 <= month <= 13
  {
    [0, 31, 59, 90, 120, 151, 181, 212, 243, 273, 304, 334, 365][month - 1]
      + (if month > 2 && IsLeap(year) then 1 else 0)
  }

  /** The instant time.Parse returns for a date: midnight UTC of that day. */
  function Midnight(d: Date): Instant
    requires 1 <= d.month <= 12
  {
    (DaysBeforeYear(d.year) + DaysBeforeMonth(d.month, d.year) + d.day - 1) * SecondsPerDay
  }

  /** Go's test that a parsed date lies before today: (year, month, day) compared in that order. */
  predicate DateBefore(t: Date, today: Date) {
    t.year < today.year
    || (t.year == today.year && t.month < today.month)
    || (t.year == today.year && t.month == today.month && t.day < today.day)
  }

  /** Go's test that a deadline is today or later, field by field. */
  predicate DateOnOrAfter(t: Date, today: Date) {
    t.year > today.year
    || (t.year == today.year && t.month > today.month)
    || (t.year == today.year && t.month == today.month && t.day >= today.day)
  }

  /** The two field-by-field comparisons are exact complements. */
  lemma OnOrAfterIsNotBefore(t: Date, today: Date)
    ensures DateOnOrAfter(t, today) <==> !DateBefore(t, today)
  {
  }

  /** Going from p to p + 1 passes a multiple of 4, 100 or 400 exactly when p + 1 is one. */
  lemma StepPast4(p: int)
    ensures (p + 1) / 4 - p / 4 == if (p + 1) % 4 == 0 then 1 else 0
  {
  }

  lemma StepPast100(p: int)
    ensures (p + 1) / 100 - p / 100 == if (p + 1) % 100 == 0 then 1 else 0
  {
  }

  lemma StepPast400(p: int)
    ensures (p + 1) / 400 - p / 400 == if (p + 1) % 400 == 0 then 1 else 0
  {
  }

  lemma MultipleOf100(q: int)
    ensures (100 * q) % 100 == 0
  {
  }

  lemma MultipleOf4(q: int)
    ensures (4 * q) % 4 == 0
  {
  }

  lemma LeapDivisors(year: int)
    ensures year % 400 == 0 ==> year % 100 == 0
    ensures year % 100 == 0 ==> year % 4 == 0
  {
    if year % 400 == 0 {
      var q := year / 400;
      assert year == 100 * (4 * q);
      MultipleOf100(4 * q);
    }
    if year % 100 == 0 {
      var q := year / 100;
      assert year == 4 * (25 * q);
      MultipleOf4(25 * q);
    }
  }

  lemma YearLength(year: int)
    ensures DaysBeforeYear(year + 1) - DaysBeforeYear(year) == DaysBeforeMonth(13, year)
  {
    var p := year - 1;
    StepPast4(p);
    StepPast100(p);
    StepPast400(p);
    LeapDivisors(year);
  }

  lemma {:induction false} YearsAdvance(y: int, z: int)
    requires y < z
    ensures DaysBeforeYear(y) + DaysBeforeMonth(13, y) <= DaysBeforeYear(z)
    decreases z - y
  {
    YearLength(y);
    if y + 1 < z {
      YearsAdvance(y + 1, z);
      YearLength(y + 1);
    }
  }

  lemma DayOfYearBound(d: Date)
    requires ValidDate(d)
    ensures 0 <= DaysBeforeMonth(d.month, d.year) + d.day - 1 < DaysBeforeMonth(13, d.year)
  {
  }

  lemma MonthsAdvance(m: int, n: int, year: int)
    requires 1 <= m < n <= 12
    ensures DaysBeforeMonth(m, year) + DaysIn(m, year) <= DaysBeforeMonth(n, year)
  {
  }

  /** On existing days, the field-by-field comparison is chronological order of midnights. */
  lemma DateBeforeIsChronological(t: Date, u: Date)
    requires ValidDate(t) && ValidDate(u)
    ensures DateBefore(t, u) <==> Midnight(t) < Midnight(u)
  {
    if t.year < u.year {
      DayOfYearBound(t);
      YearsAdvance(t.year, u.year);
    } else if u.year < t.year {
      DayOfYearBound(u);
      YearsAdvance(u.year, t.year);
    } else if t.month < u.month {
      MonthsAdvance(t.month, u.month, t.year);
    } else if u.month < t.month {
      MonthsAdvance(u.month, t.month, t.year);
    }
  }
}
