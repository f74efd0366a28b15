// The schedule screen's data (src/App.tsx:14-36): employees, the single
// array of entries across all months, the key an entry is stored under, the
// week-off pairs, and the pure views the screen derives from the entries:
// the current month's entries, the month calendar, the totals and the
// export grid.

module Schedule {

  import opened Wrappers
  import opened Text
  import opened Seqs
  import opened Calendar
  import opened ShiftCatalog

  datatype WeekOffPattern = SatSun | MonTue | ThuFri

  datatype Employee = Employee(
    id: int, name: string, position: string, status: string, joinDate: string,
    weekOffPattern: WeekOffPattern, workingHours: int)

  /** A schedule entry; its "d/m/yyyy" date and "m/yyyy" month texts are DateLabel and MonthLabel of its fields. */
  datatype Entry = Entry(
    employeeId: int, employeeName: string, day: int, month: int, year: int,
    shift: string, shiftName: string, shiftColor: string, hours: int, isAutoAssigned: bool)

  /** The key every write replaces by: (employeeId, date, month). */
  datatype Key = Key(employeeId: int, day: int, month: int, year: int)

  function KeyOf(e: Entry): Key {
    Key(e.employeeId, e.day, e.month, e.year)
  }

  /** The "d/m/yyyy" date text of an entry. */
  function DateLabel(day: int, month: int, year: int): string {
    IntToString(day) + "/" + IntToString(month) + "/" + IntToString(year)
  }

  /** The "m/yyyy" month text of an entry. */
  function MonthLabel(month: int, year: int): string {
    IntToString(month) + "/" + IntToString(year)
  }

  lemma NoSlash(i: int)
    ensures '/' !in IntToString(i)
  {
  }

  /** The date texts are injective, so integer triples can stand for them. */
  lemma DateLabelInjective(d1: int, m1: int, y1: int, d2: int, m2: int, y2: int)
    ensures DateLabel(d1, m1, y1) == DateLabel(d2, m2, y2) <==> d1 == d2 && m1 == m2 && y1 == y2
  {
    var p1 := [IntToString(d1), IntToString(m1), IntToString(y1)];
    var p2 := [IntToString(d2), IntToString(m2), IntToString(y2)];
    NoSlash(d1); NoSlash(m1); NoSlash(y1);
    NoSlash(d2); NoSlash(m2); NoSlash(y2);
    assert Join(p1, "/") == DateLabel(d1, m1, y1) by {
      assert Join(p1[1..], "/") == IntToString(m1) + "/" + IntToString(y1);
    }
    assert Join(p2, "/") == DateLabel(d2, m2, y2) by {
      assert Join(p2[1..], "/") == IntToString(m2) + "/" + IntToString(y2);
    }
    SplitJoin(p1, '/');
    SplitJoin(p2, '/');
    IntToStringInjective(d1, d2);
    IntToStringInjective(m1, m2);
    IntToStringInjective(y1, y2);
  }

  /** The month texts are injective. */
  lemma MonthLabelInjective(m1: int, y1: int, m2: int, y2: int)
    ensures MonthLabel(m1, y1) == MonthLabel(m2, y2) <==> m1 == m2 && y1 == y2
  {
    var p1 := [IntToString(m1), IntToString(y1)];
    var p2 := [IntToString(m2), IntToString(y2)];
    NoSlash(m1); NoSlash(y1); NoSlash(m2); NoSlash(y2);
    assert Join(p1, "/") == MonthLabel(m1, y1);
    assert Join(p2, "/") == MonthLabel(m2, y2);
    SplitJoin(p1, '/');
    SplitJoin(p2, '/');
    IntToStringInjective(m1, m2);
    IntToStringInjective(y1, y2);
  }

  /** No two entries share a key. */
  predicate UniqueKeys(entries: seq<Entry>) {
    forall i, j :: 0 <= i < j < |entries| ==> KeyOf(entries[i]) != KeyOf(entries[j])
  }

  function KeySet(entries: seq<Entry>): set<Key> {
    set e | e in entries :: KeyOf(e)
  }

  /** Every entry is on a real day of its month (every write of the screen builds its date so). */
  predicate ValidDates(entries: seq<Entry>) {
    forall e :: e in entries ==> InMonth(e.year, e.month, e.day)
  }

  /** Two key-unique lists with disjoint keys concatenate to a key-unique list. */
  lemma UniqueKeysAppend(a: seq<Entry>, b: seq<Entry>)
    requires UniqueKeys(a) && UniqueKeys(b)
    requires forall x, y :: x in a && y in b ==> KeyOf(x) != KeyOf(y)
    ensures UniqueKeys(a + b)
  {
    var r := a + b;
    forall i, j | 0 <= i < j < |r|
      ensures KeyOf(r[i]) != KeyOf(r[j])
    {
      if j >= |a| {
        assert r[j] == b[j - |a|];
        if i >= |a| {
          assert r[i] == b[i - |a|];
        } else {
          assert r[i] in a && r[j] in b;
        }
      }
    }
  }

  /** The week-off switch: sat-sun {0, 6}, mon-tue {1, 2}, thu-fri {4, 5}. */
  predicate IsWeekOff(p: WeekOffPattern, weekday: int) {
    match p
    case SatSun => weekday == 0 || weekday == 6
    case MonTue => weekday == 1 || weekday == 2
    case ThuFri => weekday == 4 || weekday == 5
  }

  /** The pattern rests on weekday w and the day after it, and on no other weekday. */
  predicate RestsOnPairFrom(p: WeekOffPattern, w: int) {
    forall x :: 0 <= x < 7 ==> (IsWeekOff(p, x) <==> x == w || x == (w + 1) % 7)
  }

  /** Every pattern rests on exactly two consecutive weekdays (Saturday and Sunday wrap around). */
  lemma WeekOffIsTwoConsecutiveDays(p: WeekOffPattern)
    ensures exists w :: 0 <= w < 7 && RestsOnPairFrom(p, w)
  {
    match p
    case SatSun => assert RestsOnPairFrom(p, 6);
    case MonTue => assert RestsOnPairFrom(p, 1);
    case ThuFri => assert RestsOnPairFrom(p, 4);
  }

  predicate InMonth(year: int, month: int, day: int) {
    1 <= month <= 12 && 1 <= day <= DaysInMonth(year, month)
  }

  /** Whether day of the month falls on the employee's week-off pair. */
  predicate IsWeekOffDay(emp: Employee, year: int, month: int, day: int)
    requires InMonth(year, month, day)
  {
    IsWeekOff(emp.weekOffPattern, Weekday(Date(year, month, day)))
  }

  /** employee.workingHours || 8. */
  function HoursOrDefault(hours: int): (h: int)
    ensures h != 0
    ensures hours != 0 ==> h == hours
  {
    if hours != 0 then hours else 8
  }

  function ShiftEntry(emp: Employee, day: int, month: int, year: int, s: ShiftDef, hours: int, auto: bool): Entry {
    Entry(emp.id, emp.name, day, month, year, s.code, s.name, s.color, hours, auto)
  }

  function WeekOffEntry(emp: Employee, day: int, month: int, year: int, color: string, auto: bool): Entry {
    Entry(emp.id, emp.name, day, month, year, "WO", "Week Off", color, 0, auto)
  }

  function LeaveEntry(emp: Employee, day: int, month: int, year: int): Entry {
    Entry(emp.id, emp.name, day, month, year, "L", "Leave", "#dc3545", 0, false)
  }

  /** The rest day written after an AU shift. */
  function RestEntry(emp: Employee, day: int, month: int, year: int): Entry {
    Entry(emp.id, emp.name, day, month, year, "OFF", "Off", "#6c757d", 0, true)
  }

  /** employees.find(emp => emp.id === id). */
  function FindEmployee(employees: seq<Employee>, id: int): (r: Option<Employee>)
    ensures r.Some? ==> r.value in employees && r.value.id == id
    ensures r.Some? ==> exists i :: 0 <= i < |employees| && employees[i] == r.value && forall j :: 0 <= j < i ==> employees[j].id != id
    ensures r.None? ==> forall e :: e in employees ==> e.id != id
  {
    if |employees| == 0 then None
    else if employees[0].id == id then Some(employees[0])
    else
      var r := FindEmployee(employees[1..], id);
      if r.Some? then
        var i :| 0 <= i < |employees| - 1 && employees[1..][i] == r.value
          && forall j :: 0 <= j < i ==> employees[1..][j].id != id;
        assert employees[i + 1] == r.value && forall j :: 0 <= j < i + 1 ==> employees[j].id != id;
        r
      else r
  }

  /** entries.find(e => same employee, date and month): the first entry with the key. */
  function FindEntry(entries: seq<Entry>, k: Key): (r: Option<Entry>)
    ensures r.Some? ==> r.value in entries && KeyOf(r.value) == k
    ensures r.Some? ==> exists i :: 0 <= i < |entries| && entries[i] == r.value && forall j :: 0 <= j < i ==> KeyOf(entries[j]) != k
    ensures r.None? <==> k !in KeySet(entries)
  {
    if |entries| == 0 then None
    else if KeyOf(entries[0]) == k then Some(entries[0])
    else
      var r := FindEntry(entries[1..], k);
      KeySetCons(entries);
      if r.Some? then
        var i :| 0 <= i < |entries| - 1 && entries[1..][i] == r.value
          && forall j :: 0 <= j < i ==> KeyOf(entries[1..][j]) != k;
        assert entries[i + 1] == r.value && forall j :: 0 <= j < i + 1 ==> KeyOf(entries[j]) != k;
        r
      else r
  }

  lemma KeySetCons(entries: seq<Entry>)
    requires |entries| > 0
    ensures KeySet(entries) == {KeyOf(entries[0])} + KeySet(entries[1..])
  {
    assert entries == [entries[0]] + entries[1..];
  }

  /** With unique keys the lookup finds the one entry stored under a key. */
  lemma FindEntryUnique(entries: seq<Entry>, e: Entry)
    requires UniqueKeys(entries) && e in entries
    ensures FindEntry(entries, KeyOf(e)) == Some(e)
  {
    var r := FindEntry(entries, KeyOf(e)).value;
    var i :| 0 <= i < |entries| && entries[i] == e;
    var j :| 0 <= j < |entries| && entries[j] == r;
  }

  /** getCurrentMonthEntries: the entries whose month text is "m/yyyy". */
  function MonthEntries(entries: seq<Entry>, month: int, year: int): (r: seq<Entry>)
    ensures forall e :: e in r <==> e in entries && e.month == month && e.year == year
    ensures IsSubsequence(r, entries)
  {
    Filter(entries, (e: Entry) => e.month == month && e.year == year)
  }

  lemma MonthEntriesUnique(entries: seq<Entry>, month: int, year: int)
    requires UniqueKeys(entries)
    ensures UniqueKeys(MonthEntries(entries, month, year))
  {
    FilterKeepsUnique(entries, (e: Entry) => e.month == month && e.year == year, KeyOf);
  }

  /** Every write's first half: drop the entries stored under any of the given keys. */
  function WithoutKeys(entries: seq<Entry>, ks: set<Key>): (r: seq<Entry>)
    ensures forall e :: e in r <==> e in entries && KeyOf(e) !in ks
    ensures IsSubsequence(r, entries)
  {
    Filter(entries, (e: Entry) => KeyOf(e) !in ks)
  }

  lemma WithoutKeysUnique(entries: seq<Entry>, ks: set<Key>)
    requires UniqueKeys(entries)
    ensures UniqueKeys(WithoutKeys(entries, ks))
  {
    FilterKeepsUnique(entries, (e: Entry) => KeyOf(e) !in ks, KeyOf);
  }

  /** A write: drop every entry stored under a key of the new entries, then append them. */
  function ReplaceByKeys(entries: seq<Entry>, added: seq<Entry>): seq<Entry> {
    WithoutKeys(entries, KeySet(added)) + added
  }

  /** A write keeps keys unique, keeps every entry under another key, and
      leaves the new entry as the only one under its key. */
  lemma ReplaceByKeysSpec(entries: seq<Entry>, added: seq<Entry>)
    requires UniqueKeys(entries) && UniqueKeys(added)
    ensures UniqueKeys(ReplaceByKeys(entries, added))
    ensures forall e :: KeyOf(e) !in KeySet(added) ==> (e in ReplaceByKeys(entries, added) <==> e in entries)
    ensures forall e :: e in added ==> FindEntry(ReplaceByKeys(entries, added), KeyOf(e)) == Some(e)
  {
    var kept := WithoutKeys(entries, KeySet(added));
    WithoutKeysUnique(entries, KeySet(added));
    var r := kept + added;
    forall i, j | 0 <= i < j < |r|
      ensures KeyOf(r[i]) != KeyOf(r[j])
    {
      if i < |kept| && j >= |kept| {
        assert r[j] == added[j - |kept|];
        assert r[i] in kept;
      } else if i >= |kept| {
        assert r[i] == added[i - |kept|] && r[j] == added[j - |kept|];
      }
    }
    forall e | e in added
      ensures FindEntry(r, KeyOf(e)) == Some(e)
    {
      FindEntryUnique(r, e);
    }
  }

  /** deleteEmployee's cascade: every entry of the employee goes, the others stay in order. */
  function WithoutEmployee(entries: seq<Entry>, id: int): (r: seq<Entry>)
    ensures forall e :: e in r <==> e in entries && e.employeeId != id
    ensures IsSubsequence(r, entries)
  {
    Filter(entries, (e: Entry) => e.employeeId != id)
  }

  lemma WithoutEmployeeUnique(entries: seq<Entry>, id: int)
    requires UniqueKeys(entries)
    ensures UniqueKeys(WithoutEmployee(entries, id))
  {
    FilterKeepsUnique(entries, (e: Entry) => e.employeeId != id, KeyOf);
  }

  /** One day of generateMonthlyCalendar. */
  datatype CalendarDay = CalendarDay(day: int, dayName: string, date: string)

  /** generateMonthlyCalendar: one item per day of the month, in order. */
  function MonthlyCalendar(year: int, month: int): (r: seq<CalendarDay>)
    requires 1 <= month <= 12
    ensures |r| == DaysInMonth(year, month)
    ensures forall i :: 0 <= i < |r| ==> r[i].day == i + 1 && r[i].date == DateLabel(i + 1, month, year)
  {
    seq(DaysInMonth(year, month), i requires 0 <= i < DaysInMonth(year, month) =>
      CalendarDay(i + 1, DayName(Weekday(Date(year, month, i + 1))), DateLabel(i + 1, month, year)))
  }

  /** The day names of the calendar run through the week in order. */
  lemma CalendarDayNamesAdvance(year: int, month: int, i: int)
    requires 1 <= month <= 12 && 0 <= i && i + 1 < DaysInMonth(year, month)
    ensures MonthlyCalendar(year, month)[i].dayName == DayName(Weekday(Date(year, month, i + 1)))
    ensures MonthlyCalendar(year, month)[i + 1].dayName == DayName((Weekday(Date(year, month, i + 1)) + 1) % 7)
  {
    var d := Date(year, month, i + 1);
    WeekdayNext(d);
    assert NextDate(d) == Date(year, month, i + 2);
  }

  /** Entries carrying exactly the given code. */
  function CountCode(entries: seq<Entry>, code: string): (n: nat)
    ensures n <= |entries|
  {
    if |entries| == 0 then 0 else (if entries[0].shift == code then 1 else 0) + CountCode(entries[1..], code)
  }

  /** Entries whose code is not L, WO or OFF. */
  function CountWorking(entries: seq<Entry>): (n: nat)
    ensures n <= |entries|
  {
    if |entries| == 0 then 0 else (if !IsOffCode(entries[0].shift) then 1 else 0) + CountWorking(entries[1..])
  }

  datatype Counts = Counts(totalEntries: nat, workingDays: nat, leaves: nat, weekOffs: nat, auShifts: nat, istShifts: nat)

  /** calculateTotalCounts over the current month's entries. */
  function TotalCounts(entries: seq<Entry>, month: int, year: int): Counts {
    var cur := MonthEntries(entries, month, year);
    Counts(|cur|, CountWorking(cur), CountCode(cur, "L"), CountCode(cur, "WO"), CountCode(cur, "AU"), CountCode(cur, "IST"))
  }

  lemma {:induction false} CountsPartition(entries: seq<Entry>)
    ensures CountWorking(entries) + CountCode(entries, "L") + CountCode(entries, "WO") + CountCode(entries, "OFF") == |entries|
    ensures CountCode(entries, "AU") + CountCode(entries, "IST") <= CountWorking(entries)
  {
    if |entries| > 0 {
      CountsPartition(entries[1..]);
    }
  }

  /** The totals split the month: working days, leaves, week-offs and OFF days add up to
      all entries, and AU and IST shifts are among the working days. */
  lemma TotalCountsAccount(entries: seq<Entry>, month: int, year: int)
    ensures var c := TotalCounts(entries, month, year);
      c.workingDays + c.leaves + c.weekOffs + CountCode(MonthEntries(entries, month, year), "OFF") == c.totalEntries
      && c.auShifts + c.istShifts <= c.workingDays
  {
    CountsPartition(MonthEntries(entries, month, year));
  }

  /** entry?.shift || '' for the first entry under a key. */
  function CellText(entries: seq<Entry>, k: Key): string {
    match FindEntry(entries, k)
    case Some(e) => e.shift
    case None => ""
  }

  /** The header row: "Employee Name", then "day\nweekday" for each day of the month. */
  function HeaderRow(year: int, month: int): (r: seq<string>)
    requires 1 <= month <= 12
    ensures |r| == DaysInMonth(year, month) + 1
    ensures r[0] == "Employee Name"
    ensures forall d :: 1 <= d <= DaysInMonth(year, month) ==>
      r[d] == NatToString(d) + "\n" + DayName(Weekday(Date(year, month, d)))
  {
    var cal := MonthlyCalendar(year, month);
    ["Employee Name"] + seq(|cal|, d requires 0 <= d < |cal| => NatToString(cal[d].day) + "\n" + cal[d].dayName)
  }

  /** An employee's row: the name, then the code of each day of the month. */
  function EmployeeRow(emp: Employee, cur: seq<Entry>, year: int, month: int): (r: seq<string>)
    requires 1 <= month <= 12
    ensures |r| == DaysInMonth(year, month) + 1
    ensures r[0] == emp.name
    ensures forall d :: 1 <= d <= DaysInMonth(year, month) ==> r[d] == CellText(cur, Key(emp.id, d, month, year))
  {
    var cal := MonthlyCalendar(year, month);
    [emp.name] + seq(|cal|, d requires 0 <= d < |cal| => CellText(cur, Key(emp.id, cal[d].day, month, year)))
  }

  /** The sheet exportToExcel fills: the header row, then one row per employee. */
  function ExportGrid(employees: seq<Employee>, entries: seq<Entry>, year: int, month: int): (g: seq<seq<string>>)
    requires 1 <= month <= 12
    ensures |g| == |employees| + 1 && g[0] == HeaderRow(year, month)
    ensures forall i :: 0 <= i < |employees| ==> g[i + 1] == EmployeeRow(employees[i], MonthEntries(entries, month, year), year, month)
  {
    var cur := MonthEntries(entries, month, year);
    [HeaderRow(year, month)] + seq(|employees|, i requires 0 <= i < |employees| => EmployeeRow(employees[i], cur, year, month))
  }

  /** With unique keys a cell shows the code stored for that employee and day, and is blank
      when nothing is stored under the key. */
  lemma CellTextUnique(entries: seq<Entry>, k: Key)
    requires UniqueKeys(entries)
    ensures forall e :: e in entries && KeyOf(e) == k ==> CellText(MonthEntries(entries, k.month, k.year), k) == e.shift
    ensures k !in KeySet(entries) ==> CellText(MonthEntries(entries, k.month, k.year), k) == ""
  {
    var cur := MonthEntries(entries, k.month, k.year);
    MonthEntriesUnique(entries, k.month, k.year);
    forall e | e in entries && KeyOf(e) == k
      ensures CellText(cur, k) == e.shift
    {
      assert e in cur;
      FindEntryUnique(cur, e);
    }
    if k in KeySet(cur) {
      var e :| e in cur && KeyOf(e) == k;
      assert e in entries;
    }
  }

}
