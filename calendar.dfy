// Calendar facts the schedule code takes from JavaScript's Date: days in a
// month, the weekday of a date (0 = Sunday .. 6 = Saturday), the next day, the
// order of dates and the date texts the components build.

module Calendar {

  import opened Text

  /** A calendar date; month is 1..12 (JavaScript's getMonth() + 1). */
  datatype Date = Date(year: int, month: int, day: int)

  predicate IsLeapYear(y: int) {
    (y % 4 == 0 && y % 100 != 0) || y % 400 == 0
  }

  /** new Date(year, month, 0).getDate() for a month 1..12. */
  function DaysInMonth(year: int, month: int): (n: int)
    requires 1 <= month <= 12
    ensures 28 <= n <= 31
    ensures month == 2 ==> (n == 29 <==> IsLeapYear(year))
  {
    if month == 2 then (if IsLeapYear(year) then 29 else 28)
    else if month == 4 || month == 6 || month == 9 || month == 11 then 30
    else 31
  }

  /** The year new Date(year, monthIndex, day) lands in: the years 0..99 are read as 1900..1999. */
  function CalendarYear(year: int): (y: int)
    ensures 0 <= year <= 99 ==> y == 1900 + year
    ensures year < 0 || year > 99 ==> y == year
  {
    if 0 <= year <= 99 then 1900 + year else year
  }

  predicate ValidDate(d: Date) {
    1 <= d.month <= 12 && 1 <= d.day <= DaysInMonth(d.year, d.month)
  }

  /** Days from 1 January of year 1 (proleptic Gregorian) to 1 January of y. */
  function DaysBeforeYear(y: int): int {
    var p := y - 1;
    365 * p + p / 4 - p / 100 + p / 400
  }

  function DaysBeforeMonth(y: int, m: int): int
    requires 1 <= m <= 12
  {
    if m == 1 then 0 else DaysBeforeMonth(y, m - 1) + DaysInMonth(y, m - 1)
  }

  /** Days since 1 January of year 1 (day number 0, a Monday). */
  function DayNumber(d: Date): int
    requires ValidDate(d)
  {
    DaysBeforeYear(d.year) + DaysBeforeMonth(d.year, d.month) + d.day - 1
  }

  /** Date.prototype.getDay(): 0 = Sunday .. 6 = Saturday. */
  function Weekday(d: Date): (w: int)
    requires ValidDate(d)
    ensures 0 <= w < 7
  {
    (DayNumber(d) + 1) % 7
  }

  /** The date one day later: d.setDate(d.getDate() + 1). */
  function NextDate(d: Date): (r: Date)
    requires ValidDate(d)
    ensures ValidDate(r) && Before(d, r)
  {
    if d.day < DaysInMonth(d.year, d.month) then Date(d.year, d.month, d.day + 1)
    else if d.month < 12 then Date(d.year, d.month + 1, 1)
    else Date(d.year + 1, 1, 1)
  }

  /** Chronological order of dates (JavaScript compares the time values). */
  predicate Before(a: Date, b: Date) {
    a.year < b.year
    || (a.year == b.year && a.month < b.month)
    || (a.year == b.year && a.month == b.month && a.day < b.day)
  }

  predicate AtOrBefore(a: Date, b: Date) {
    Before(a, b) || a == b
  }

  /** NextDate is the immediate successor: no valid date lies strictly between. */
  lemma NextDateIsSuccessor(d: Date, x: Date)
    requires ValidDate(d) && ValidDate(x)
    ensures Before(x, NextDate(d)) <==> AtOrBefore(x, d)
  {
  }

  /** A number that grows with the order of valid dates (days and months leave gaps). */
  function DateOrd(d: Date): int {
    (d.year * 13 + d.month) * 32 + d.day
  }

  lemma DateOrdMonotone(a: Date, b: Date)
    requires ValidDate(a) && ValidDate(b)
    ensures Before(a, b) ==> DateOrd(a) < DateOrd(b)
    ensures DateOrd(a) < DateOrd(NextDate(a))
  {
    if a.year < b.year {
      assert a.year * 13 + a.month < b.year * 13 + b.month;
    }
  }

  /** The days of month (year, month) that the loop
      `for (d = new Date(start); d <= end; d.setDate(d.getDate() + 1))` visits, in order. */
  function WalkDays(d: Date, end: Date, year: int, month: int): seq<int>
    requires ValidDate(d) && ValidDate(end)
    decreases DateOrd(end) - DateOrd(d)
  {
    if !AtOrBefore(d, end) then []
    else
      DateOrdMonotone(d, end);
      (if d.year == year && d.month == month then [d.day] else []) + WalkDays(NextDate(d), end, year, month)
  }

  /** One step of the walk: the days visited so far, then d's day when it is in the month,
      then the walk from the next date, make up the whole walk. */
  lemma WalkStep(start: Date, d: Date, end: Date, year: int, month: int, visited: seq<int>)
    requires ValidDate(start) && ValidDate(d) && ValidDate(end) && AtOrBefore(d, end)
    requires visited + WalkDays(d, end, year, month) == WalkDays(start, end, year, month)
    ensures var here := if d.year == year && d.month == month then [d.day] else [];
      (visited + here) + WalkDays(NextDate(d), end, year, month) == WalkDays(start, end, year, month)
  {
    var here := if d.year == year && d.month == month then [d.day] else [];
    WalkUnfold(d, end, year, month);
    Reassociate(visited, here, WalkDays(NextDate(d), end, year, month));
  }

  lemma WalkUnfold(d: Date, end: Date, year: int, month: int)
    requires ValidDate(d) && ValidDate(end) && AtOrBefore(d, end)
    ensures WalkDays(d, end, year, month)
         == (if d.year == year && d.month == month then [d.day] else []) + WalkDays(NextDate(d), end, year, month)
  {
  }

  lemma Reassociate(a: seq<int>, b: seq<int>, c: seq<int>)
    ensures (a + b) + c == a + (b + c)
  {
  }

  /** The walk visits exactly the days of the month between d and end, inclusive. */
  lemma {:induction false} WalkDaysMembers(d: Date, end: Date, year: int, month: int, k: int)
    requires ValidDate(d) && ValidDate(end)
    ensures k in WalkDays(d, end, year, month) <==>
      ValidDate(Date(year, month, k)) && AtOrBefore(d, Date(year, month, k)) && AtOrBefore(Date(year, month, k), end)
    decreases DateOrd(end) - DateOrd(d)
  {
    if AtOrBefore(d, end) {
      DateOrdMonotone(d, end);
      WalkDaysMembers(NextDate(d), end, year, month, k);
      if ValidDate(Date(year, month, k)) {
        NextDateIsSuccessor(d, Date(year, month, k));
      }
    }
  }

  predicate Increasing(s: seq<int>) {
    forall i, j :: 0 <= i < j < |s| ==> s[i] < s[j]
  }

  /** The walk visits the days of the month in strictly increasing order. */
  lemma {:induction false} WalkDaysIncreasing(d: Date, end: Date, year: int, month: int)
    requires ValidDate(d) && ValidDate(end)
    ensures Increasing(WalkDays(d, end, year, month))
    decreases DateOrd(end) - DateOrd(d)
  {
    if AtOrBefore(d, end) {
      DateOrdMonotone(d, end);
      var rest := WalkDays(NextDate(d), end, year, month);
      WalkDaysIncreasing(NextDate(d), end, year, month);
      if d.year == year && d.month == month {
        forall k | k in rest
          ensures d.day < k
        {
          WalkDaysMembers(NextDate(d), end, year, month, k);
          NextDateIsSuccessor(d, Date(year, month, k));
        }
        var w := WalkDays(d, end, year, month);
        assert w == [d.day] + rest;
        forall i, j | 0 <= i < j < |w|
          ensures w[i] < w[j]
        {
          assert w[j] == rest[j - 1] && rest[j - 1] in rest;
          if i > 0 {
            assert w[i] == rest[i - 1];
          } else {
            assert w[i] == d.day;
          }
        }
      } else {
        assert WalkDays(d, end, year, month) == rest;
      }
    }
  }

  lemma DaysBeforeYearStep(y: int)
    ensures DaysBeforeYear(y + 1) == DaysBeforeYear(y) + (if IsLeapYear(y) then 366 else 365)
  {
    // each count of multiples grows by one exactly when y is such a multiple
    var p := y - 1;
    assert (p + 1) / 4 == (if y % 4 == 0 then p / 4 + 1 else p / 4);
    assert (p + 1) / 100 == (if y % 100 == 0 then p / 100 + 1 else p / 100);
    assert (p + 1) / 400 == (if y % 400 == 0 then p / 400 + 1 else p / 400);
  }

  /** The day number of the next date is one more. */
  lemma DayNumberNext(d: Date)
    requires ValidDate(d)
    ensures DayNumber(NextDate(d)) == DayNumber(d) + 1
  {
    if d.day == DaysInMonth(d.year, d.month) && d.month == 12 {
      DaysBeforeYearStep(d.year);
      DaysBeforeDecember(d.year);
    }
  }

  lemma DaysBeforeDecember(y: int)
    ensures DaysBeforeMonth(y, 12) == (if IsLeapYear(y) then 335 else 334)
  {
    var f := if IsLeapYear(y) then 29 else 28;
    assert DaysBeforeMonth(y, 2) == 31;
    assert DaysBeforeMonth(y, 3) == 31 + f;
    assert DaysBeforeMonth(y, 4) == 62 + f;
    assert DaysBeforeMonth(y, 5) == 92 + f;
    assert DaysBeforeMonth(y, 6) == 123 + f;
    assert DaysBeforeMonth(y, 7) == 153 + f;
    assert DaysBeforeMonth(y, 8) == 184 + f;
    assert DaysBeforeMonth(y, 9) == 215 + f;
    assert DaysBeforeMonth(y, 10) == 245 + f;
    assert DaysBeforeMonth(y, 11) == 276 + f;
  }

  /** Weekdays advance by one, modulo 7, from one day to the next. */
  lemma WeekdayNext(d: Date)
    requires ValidDate(d)
    ensures Weekday(NextDate(d)) == (Weekday(d) + 1) % 7
  {
    DayNumberNext(d);
    var n := DayNumber(d) + 1;
    assert Weekday(NextDate(d)) == (n + 1) % 7;
    assert Weekday(d) == n % 7;
    ModSucc(n);
  }

  /** Fixed points of the numbering: 1 January 1970 (the Unix epoch) was a Thursday and
      1 January 2024 a Monday. With WeekdayNext these fix the weekday of every later date. */
  lemma WeekdayAnchor()
    ensures Weekday(Date(1970, 1, 1)) == 4
    ensures Weekday(Date(2024, 1, 1)) == 1
  {
    assert DaysBeforeYear(1970) == 719162;
    assert DaysBeforeYear(2024) == 738885;
  }

  lemma ModSucc(n: int)
    ensures (n + 1) % 7 == (n % 7 + 1) % 7
  {
    var q := n / 7;
    assert n == 7 * q + n % 7;
    if n % 7 == 6 {
      assert n + 1 == 7 * (q + 1);
    } else {
      assert n + 1 == 7 * q + (n % 7 + 1);
    }
  }

  /** toLocaleDateString('en-US', { weekday: 'short' }). */
  function DayName(w: int): string
    requires 0 <= w < 7
  {
    ["Sun", "Mon", "Tue", "Wed", "Thu", "Fri", "Sat"][w]
  }

  function MonthNames(): seq<string> {
    ["January", "February", "March", "April", "May", "June",
     "July", "August", "September", "October", "November", "December"]
  }

  /** monthNames.indexOf(name): the 0-based month index, or -1. */
  function MonthIndex(name: string): (i: int)
    ensures -1 <= i < 12
    ensures i >= 0 ==> MonthNames()[i] == name
    ensures i == -1 ==> name !in MonthNames()
  {
    IndexOf(MonthNames(), name)
  }

  function IndexOf(s: seq<string>, x: string): (i: int)
    ensures -1 <= i < |s|
    ensures i >= 0 ==> s[i] == x && x !in s[..i]
    ensures i == -1 ==> x !in s
  {
    if |s| == 0 then -1
    else if s[0] == x then 0
    else
      var j := IndexOf(s[1..], x);
      assert s[1..] + [] == s[1..];
      if j == -1 then
        assert s == [s[0]] + s[1..];
        -1
      else
        assert s[..j + 1] == [s[0]] + s[1..][..j];
        j + 1
  }

  /** date-fns format(d, 'MMM'). */
  function MonthShortName(month: int): string
    requires 1 <= month <= 12
  {
    ["Jan", "Feb", "Mar", "Apr", "May", "Jun",
     "Jul", "Aug", "Sep", "Oct", "Nov", "Dec"][month - 1]
  }

  /** The "yyyy-MM-dd" text the components build with template strings:
      `${year}-${String(month).padStart(2, '0')}-${String(day).padStart(2, '0')}`. */
  function DateText(year: int, month: nat, day: nat): string
  {
    IntToString(year) + "-" + Pad2(month) + "-" + Pad2(day)
  }

  /** The year date-fns prints for 'yyyy': the year itself when positive, else the year of the
      era before Christ (1 - year, so year 0 prints as 1). */
  function EraYear(year: int): (r: nat)
    ensures r >= 1
    ensures year > 0 ==> r == year
    ensures year <= 0 ==> r + year == 1
  {
    if year > 0 then year else 1 - year
  }

  /** date-fns format(d, 'yyyy-MM-dd'): the era year zero-filled to at least four digits, then
      the month and the day zero-filled to two. */
  function FormatYmd(d: Date): (r: string)
    requires 0 <= d.month && 0 <= d.day
    ensures EraYear(d.year) < 10000 && ValidDate(d) ==> |r| == 10 && r[4] == '-' && r[7] == '-'
  {
    assert Pow10(4) == 10000;
    PadZeros(EraYear(d.year), 4) + "-" + Pad2(d.month) + "-" + Pad2(d.day)
  }

  /** Two dates have the same 'yyyy-MM-dd' text exactly when they are the same date. */
  lemma FormatYmdInjective(a: Date, b: Date)
    requires ValidDate(a) && 1 <= a.year < 10000
    requires ValidDate(b) && 1 <= b.year < 10000
    ensures FormatYmd(a) == FormatYmd(b) <==> a == b
  {
    if FormatYmd(a) == FormatYmd(b) {
      assert Pow10(4) == 10000;
      var s, t := FormatYmd(a), FormatYmd(b);
      assert s[..4] == PadZeros(EraYear(a.year), 4) && t[..4] == PadZeros(EraYear(b.year), 4);
      assert s[5..7] == Pad2(a.month) && t[5..7] == Pad2(b.month);
      assert s[8..] == Pad2(a.day) && t[8..] == Pad2(b.day);
      assert DigitsValue(PadZeros(EraYear(a.year), 4)) == a.year;
    }
  }
}
