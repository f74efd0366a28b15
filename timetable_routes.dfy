// The server's timetable routes (src/routes/timetableRoutes.ts): the /generate
// synthesis of an employee-by-day grid with assignment overrides and its
// save-or-replace, the /entry update-or-append, and the /export sheet grid.
// The Mongo collection is a map from (month, year, projectName) to a timetable.

module TimetableRoutes {

  import opened Wrappers
  import opened Text
  import opened Seqs
  import opened Calendar

  /** An employee as the routes read it: the business id, the name and the optional week-off day. */
  datatype Staff = Staff(employeeId: string, name: string, weekOff: Option<int>)

  /** A requested assignment; the date is the 'yyyy-MM-dd' text and "" stands for a missing status. */
  datatype Assignment = Assignment(employeeId: string, date: string, shiftCode: string, status: string)

  datatype Entry = Entry(employeeId: string, date: Date, shiftCode: string, status: string)

  datatype Key = Key(month: int, year: int, projectName: string)

  datatype Timetable = Timetable(month: int, year: int, projectName: string, entries: seq<Entry>, createdBy: string)

  /** A shift as the export reads it. */
  datatype ShiftName = ShiftName(code: string, name: string)

  /** shiftAssignments.find: the first assignment of the employee on the day. */
  function FirstAssignment(assignments: seq<Assignment>, employeeId: string, key: string): (r: Option<Assignment>)
    ensures r.None? <==> forall j :: 0 <= j < |assignments| ==>
      !(assignments[j].employeeId == employeeId && assignments[j].date == key)
    ensures r.Some? ==>
      exists i :: 0 <= i < |assignments| && assignments[i] == r.value
        && r.value.employeeId == employeeId && r.value.date == key
        && forall j :: 0 <= j < i ==> !(assignments[j].employeeId == employeeId && assignments[j].date == key)
  {
    if |assignments| == 0 then None
    else if assignments[0].employeeId == employeeId && assignments[0].date == key then Some(assignments[0])
    else
      var r := FirstAssignment(assignments[1..], employeeId, key);
      if r.Some? then
        var i :| 0 <= i < |assignments| - 1 && assignments[1..][i] == r.value
          && forall j :: 0 <= j < i ==> !(assignments[1..][j].employeeId == employeeId && assignments[1..][j].date == key);
        assert assignments[i + 1] == r.value;
        assert forall j :: 0 <= j < i + 1 ==> !(assignments[j].employeeId == employeeId && assignments[j].date == key);
        r
      else
        assert forall j :: 0 <= j < |assignments| - 1 ==> assignments[1..][j] == assignments[j + 1];
        r
  }

  /** The entry of one employee on one day: the first matching assignment's code, with its status
      or "scheduled"; without an assignment, OFF and "off". */
  function DayEntryFor(e: Staff, assignments: seq<Assignment>, y: int, m: nat, day: nat): Entry {
    var a := FirstAssignment(assignments, e.employeeId, FormatYmd(Date(y, m, day)));
    if a.Some? then Entry(e.employeeId, Date(y, m, day), a.value.shiftCode, if a.value.status == "" then "scheduled" else a.value.status)
    else Entry(e.employeeId, Date(y, m, day), "OFF", "off")
  }

  /** What an entry says: an assignment overrides the default OFF entry, whatever the weekday. */
  lemma DayEntryCases(e: Staff, assignments: seq<Assignment>, y: int, m: nat, day: nat)
    ensures var r := DayEntryFor(e, assignments, y, m, day);
      r.employeeId == e.employeeId && r.date == Date(y, m, day) && r.status != ""
      && ((forall j :: 0 <= j < |assignments| ==>
             !(assignments[j].employeeId == e.employeeId && assignments[j].date == FormatYmd(Date(y, m, day))))
          ==> r.shiftCode == "OFF" && r.status == "off")
      && forall i :: 0 <= i < |assignments| && assignments[i].employeeId == e.employeeId
           && assignments[i].date == FormatYmd(Date(y, m, day))
           && (forall j :: 0 <= j < i ==> !(assignments[j].employeeId == e.employeeId && assignments[j].date == FormatYmd(Date(y, m, day))))
           ==> r.shiftCode == assignments[i].shiftCode
               && r.status == (if assignments[i].status == "" then "scheduled" else assignments[i].status)
  {
    forall i | 0 <= i < |assignments| && assignments[i].employeeId == e.employeeId
      && assignments[i].date == FormatYmd(Date(y, m, day))
      && (forall j :: 0 <= j < i ==> !(assignments[j].employeeId == e.employeeId && assignments[j].date == FormatYmd(Date(y, m, day))))
      ensures FirstAssignment(assignments, e.employeeId, FormatYmd(Date(y, m, day))) == Some(assignments[i])
    {
      FirstIsEarliest(assignments, e.employeeId, FormatYmd(Date(y, m, day)), i);
    }
  }

  /** The assignment found is the one at the earliest matching position. */
  lemma FirstIsEarliest(assignments: seq<Assignment>, employeeId: string, key: string, i: nat)
    requires i < |assignments| && assignments[i].employeeId == employeeId && assignments[i].date == key
    requires forall j :: 0 <= j < i ==> !(assignments[j].employeeId == employeeId && assignments[j].date == key)
    ensures FirstAssignment(assignments, employeeId, key) == Some(assignments[i])
  {
    var a := FirstAssignment(assignments, employeeId, key);
    var i' :| 0 <= i' < |assignments| && assignments[i'] == a.value && a.value.employeeId == employeeId && a.value.date == key
      && forall j :: 0 <= j < i' ==> !(assignments[j].employeeId == employeeId && assignments[j].date == key);
    if i' < i {
      assert false;
    } else if i < i' {
      assert false;
    }
  }

  /** One employee's row: one entry per day of the month, in day order. */
  function EmployeeRow(e: Staff, assignments: seq<Assignment>, y: int, m: nat, n: nat): (r: seq<Entry>)
    ensures |r| == n
  {
    seq(n, i requires 0 <= i < n => DayEntryFor(e, assignments, y, m, i + 1))
  }

  function GridRows(employees: seq<Staff>, assignments: seq<Assignment>, y: int, m: nat, n: nat): (r: seq<seq<Entry>>)
    ensures |r| == |employees| && forall k :: 0 <= k < |r| ==> |r[k]| == n
  {
    seq(|employees|, k requires 0 <= k < |employees| => EmployeeRow(employees[k], assignments, y, m, n))
  }

  /** The /generate entries: employee-major, one per (employee, day). */
  function Grid(employees: seq<Staff>, assignments: seq<Assignment>, y: int, m: nat, n: nat): seq<Entry> {
    Flatten(GridRows(employees, assignments, y, m, n))
  }

  /** Exactly |employees| * n entries; the entry of employee k on day j + 1 sits at k * n + j. */
  lemma GridLayout(employees: seq<Staff>, assignments: seq<Assignment>, y: int, m: nat, n: nat)
    ensures var g := Grid(employees, assignments, y, m, n);
      |g| == |employees| * n
      && forall k, j :: 0 <= k < |employees| && 0 <= j < n ==>
           RowMajor(k, n, j) < |g| && g[RowMajor(k, n, j)] == DayEntryFor(employees[k], assignments, y, m, j + 1)
  {
    var rows := GridRows(employees, assignments, y, m, n);
    FlattenLength(rows, n);
    forall k, j | 0 <= k < |employees| && 0 <= j < n
      ensures RowMajor(k, n, j) < |Flatten(rows)| && Flatten(rows)[RowMajor(k, n, j)] == DayEntryFor(employees[k], assignments, y, m, j + 1)
    {
      FlattenAt(rows, n, k, j);
      assert rows[k][j] == DayEntryFor(employees[k], assignments, y, m, j + 1);
    }
  }

  /** Every index of the grid is some employee's entry on some day. */
  lemma GridIndex(employees: seq<Staff>, assignments: seq<Assignment>, y: int, m: nat, n: nat, j: int)
    requires 0 <= j < |Grid(employees, assignments, y, m, n)|
    ensures n > 0 && 0 <= j / n < |employees| && j == (j / n) * n + j % n
    ensures Grid(employees, assignments, y, m, n)[j] == DayEntryFor(employees[j / n], assignments, y, m, j % n + 1)
  {
    GridLayout(employees, assignments, y, m, n);
    DivBound(j, |employees|, n);
    assert RowMajor(j / n, n, j % n) == j;
  }

  /** An index below K * n splits into a row below K and a column below n. */
  lemma DivBound(j: int, K: nat, n: nat)
    requires 0 <= j < K * n
    ensures n > 0 && 0 <= j / n < K && 0 <= j % n < n && j == (j / n) * n + j % n
  {
    if j / n >= K {
      MulMono(K, j / n, n);
    }
  }

  lemma MulMono(a: nat, b: nat, n: nat)
    requires a <= b
    ensures a * n <= b * n
  {
  }

  /** The store: one timetable per (month, year, projectName). */
  class TimetableStore {
    var tables: map<Key, Timetable>

    /** The schema's bound on stored months, and every timetable filed under its own key. */
    ghost predicate Valid()
      reads this
    {
      forall k :: k in tables ==>
        1 <= k.month <= 12 && tables[k].month == k.month
        && tables[k].year == k.year && tables[k].projectName == k.projectName
    }

    constructor ()
      ensures Valid() && tables == map[]
    {
      tables := map[];
    }

    /** POST /generate: build the grid, then replace the entries of the timetable of the same
        key or create one; a month outside 1..12 fails the schema and stores nothing. */
    method Generate(month: int, year: int, projectName: string, employees: seq<Staff>,
                    assignments: seq<Assignment>, createdBy: string) returns (saved: Option<Timetable>)
      requires Valid()
      modifies this
      ensures Valid()
      ensures !(1 <= month <= 12) ==> saved.None? && tables == old(tables)
      ensures 1 <= month <= 12 ==>
        var key := Key(month, year, projectName);
        var y := CalendarYear(year);
        var entries := Grid(employees, assignments, y, month, DaysInMonth(y, month));
        saved.Some? && tables == old(tables)[key := saved.value]
        && saved.value == (if key in old(tables) then old(tables)[key].(entries := entries)
                           else Timetable(month, year, projectName, entries, createdBy))
    {
      if !(1 <= month <= 12) {
        return None;
      }
      var y := CalendarYear(year);
      var entries := BuildGrid(employees, assignments, y, month);
      var key := Key(month, year, projectName);
      var t: Timetable;
      if key in tables {
        t := tables[key].(entries := entries);
      } else {
        t := Timetable(month, year, projectName, entries, createdBy);
      }
      tables := tables[key := t];
      saved := Some(t);
    }

    /** GET /:year/:month/:projectName. */
    method Find(year: int, month: int, projectName: string) returns (r: Option<Timetable>)
      ensures r.Some? <==> Key(month, year, projectName) in tables
      ensures r.Some? ==> r.value == tables[Key(month, year, projectName)]
    {
      var key := Key(month, year, projectName);
      if key in tables {
        return Some(tables[key]);
      }
      return None;
    }

    /** PUT /entry/:id, the timetable named by its key: overwrite the code and status of the
        first entry of the employee on the day, or append a new entry. */
    method UpdateEntry(key: Key, employeeId: string, date: Date, shiftCode: string, status: string) returns (found: bool)
      requires Valid()
      modifies this
      ensures Valid()
      ensures found <==> key in old(tables)
      ensures !found ==> tables == old(tables)
      ensures found ==> tables == old(tables)[key := old(tables)[key].(entries :=
        Upserted(old(tables)[key].entries, employeeId, date, shiftCode, status))]
    {
      if key !in tables {
        return false;
      }
      var t := tables[key];
      var entries := t.entries;
      var index := FindIndex(entries, employeeId, date);
      if index != -1 {
        entries := entries[index := entries[index].(shiftCode := shiftCode, status := status)];
      } else {
        entries := entries + [Entry(employeeId, date, shiftCode, status)];
      }
      tables := tables[key := t.(entries := entries)];
      return true;
    }

    /** GET /export/...: the sheet of the stored timetable for the active employees and shifts. */
    method Export(year: int, month: int, projectName: string, employees: seq<Staff>, shifts: seq<ShiftName>)
      returns (sheet: Option<seq<seq<string>>>)
      requires Valid()
      ensures Key(month, year, projectName) !in tables ==> sheet.None?
      ensures Key(month, year, projectName) in tables ==>
        1 <= month <= 12 &&
        sheet == Some(Sheet(tables[Key(month, year, projectName)].entries, employees, shifts, CalendarYear(year), month))
    {
      var key := Key(month, year, projectName);
      if key !in tables {
        return None;
      }
      var rows := BuildSheet(tables[key].entries, employees, shifts, CalendarYear(year), month);
      return Some(rows);
    }
  }

  /** The nested employee and day loops of /generate. */
  method BuildGrid(employees: seq<Staff>, assignments: seq<Assignment>, y: int, m: int) returns (entries: seq<Entry>)
    requires 1 <= m <= 12
    ensures entries == Grid(employees, assignments, y, m, DaysInMonth(y, m))
  {
    var n := DaysInMonth(y, m);
    entries := [];
    for k := 0 to |employees|
      invariant entries == Grid(employees[..k], assignments, y, m, n)
    {
      var row := BuildRow(employees[k], assignments, y, m);
      assert GridRows(employees[..k + 1], assignments, y, m, n) == GridRows(employees[..k], assignments, y, m, n) + [row];
      FlattenSnoc(GridRows(employees[..k], assignments, y, m, n), row);
      entries := entries + row;
    }
    assert employees[..|employees|] == employees;
  }

  /** The day loop for one employee; the weekend and week-off branches set the status the
      default entry already has. */
  method BuildRow(e: Staff, assignments: seq<Assignment>, y: int, m: int) returns (row: seq<Entry>)
    requires 1 <= m <= 12
    ensures row == EmployeeRow(e, assignments, y, m, DaysInMonth(y, m))
  {
    var n := DaysInMonth(y, m);
    row := [];
    for day := 1 to n + 1
      invariant row == EmployeeRow(e, assignments, y, m, day - 1)
    {
      var dayOfWeek := Weekday(Date(y, m, day));
      var entry := Entry(e.employeeId, Date(y, m, day), "OFF", "off");
      var isWeekend := dayOfWeek == 0 || dayOfWeek == 6;
      var assignment := FirstAssignment(assignments, e.employeeId, FormatYmd(Date(y, m, day)));
      if assignment.Some? {
        entry := entry.(shiftCode := assignment.value.shiftCode,
                        status := if assignment.value.status == "" then "scheduled" else assignment.value.status);
      } else if isWeekend {
        entry := entry.(status := "off");
      } else if e.weekOff == Some(dayOfWeek) {
        entry := entry.(status := "off");
      }
      assert entry == DayEntryFor(e, assignments, y, m, day);
      EmployeeRowStep(e, assignments, y, m, day - 1);
      row := row + [entry];
    }
  }

  lemma EmployeeRowStep(e: Staff, assignments: seq<Assignment>, y: int, m: nat, k: nat)
    ensures EmployeeRow(e, assignments, y, m, k + 1) == EmployeeRow(e, assignments, y, m, k) + [DayEntryFor(e, assignments, y, m, k + 1)]
  {
  }

  /** findIndex from position `from`: the first entry of the employee on the date, or -1. */
  function IndexFrom(entries: seq<Entry>, employeeId: string, date: Date, from: nat): (r: int)
    requires from <= |entries|
    ensures r == -1 || from <= r < |entries|
    ensures r == -1 <==> forall j :: from <= j < |entries| ==> !(entries[j].employeeId == employeeId && entries[j].date == date)
    ensures r != -1 ==>
      entries[r].employeeId == employeeId && entries[r].date == date
      && forall j :: from <= j < r ==> !(entries[j].employeeId == employeeId && entries[j].date == date)
    decreases |entries| - from
  {
    if from == |entries| then -1
    else if entries[from].employeeId == employeeId && entries[from].date == date then from
    else IndexFrom(entries, employeeId, date, from + 1)
  }

  function EntryIndex(entries: seq<Entry>, employeeId: string, date: Date): int {
    IndexFrom(entries, employeeId, date, 0)
  }

  /** The findIndex loop of /entry. */
  method FindIndex(entries: seq<Entry>, employeeId: string, date: Date) returns (index: int)
    ensures index == EntryIndex(entries, employeeId, date)
  {
    var i := 0;
    while i < |entries|
      invariant 0 <= i <= |entries|
      invariant IndexFrom(entries, employeeId, date, i) == EntryIndex(entries, employeeId, date)
    {
      if entries[i].employeeId == employeeId && entries[i].date == date {
        return i;
      }
      i := i + 1;
    }
    return -1;
  }

  /** The entries after /entry: the first match rewritten, or one entry appended. */
  function Upserted(entries: seq<Entry>, employeeId: string, date: Date, shiftCode: string, status: string): seq<Entry> {
    var i := EntryIndex(entries, employeeId, date);
    if i != -1 then entries[i := entries[i].(shiftCode := shiftCode, status := status)]
    else entries + [Entry(employeeId, date, shiftCode, status)]
  }

  /** The count grows by at most one, and only the first entry of the employee on the day
      changes, in its code and status alone; otherwise the new entry is appended. */
  lemma UpsertFacts(entries: seq<Entry>, employeeId: string, date: Date, shiftCode: string, status: string)
    ensures var r := Upserted(entries, employeeId, date, shiftCode, status);
      var i := EntryIndex(entries, employeeId, date);
      |entries| <= |r| <= |entries| + 1
      && (forall j :: 0 <= j < |entries| && j != i ==> r[j] == entries[j])
      && (i == -1 <==> |r| == |entries| + 1)
      && (i == -1 ==> r[|entries|] == Entry(employeeId, date, shiftCode, status))
      && (i != -1 ==> r[i] == Entry(employeeId, date, shiftCode, status)
                       && (forall j :: 0 <= j < i ==> !(entries[j].employeeId == employeeId && entries[j].date == date)))
  {
  }

  /** After the update, looking the employee and day up finds the new code and status. */
  lemma UpsertLookup(entries: seq<Entry>, employeeId: string, date: Date, shiftCode: string, status: string)
    ensures var r := Upserted(entries, employeeId, date, shiftCode, status);
      var i := EntryIndex(r, employeeId, date);
      i != -1 && r[i] == Entry(employeeId, date, shiftCode, status)
  {
    var r := Upserted(entries, employeeId, date, shiftCode, status);
    var i := EntryIndex(entries, employeeId, date);
    if i != -1 {
      assert forall j :: 0 <= j < i ==> r[j] == entries[j];
      NoEarlierMatch(r, employeeId, date, i);
    } else {
      assert forall j :: 0 <= j < |entries| ==> r[j] == entries[j];
      NoEarlierMatch(r, employeeId, date, |entries|);
    }
  }

  /** An index that matches with no match before it is the one findIndex returns. */
  lemma NoEarlierMatch(entries: seq<Entry>, employeeId: string, date: Date, i: nat)
    requires i < |entries| && entries[i].employeeId == employeeId && entries[i].date == date
    requires forall j :: 0 <= j < i ==> !(entries[j].employeeId == employeeId && entries[j].date == date)
    ensures EntryIndex(entries, employeeId, date) == i
  {
  }

  /** Repeating the same update changes nothing more. */
  lemma UpsertIdempotent(entries: seq<Entry>, employeeId: string, date: Date, shiftCode: string, status: string)
    ensures var r := Upserted(entries, employeeId, date, shiftCode, status);
      Upserted(r, employeeId, date, shiftCode, status) == r
  {
    UpsertLookup(entries, employeeId, date, shiftCode, status);
  }

  /** format(day, 'd-MMM'). */
  function DayHeader(m: int, d: nat): string
    requires 1 <= m <= 12
  {
    NatToString(d) + "-" + MonthShortName(m)
  }

  function HeaderRow(m: int, n: nat): (r: seq<string>)
    requires 1 <= m <= 12
    ensures |r| == n + 1
  {
    ["Employee"] + seq(n, i requires 0 <= i < n => DayHeader(m, i + 1))
  }

  /** shifts.find by code. */
  function ShiftOf(shifts: seq<ShiftName>, code: string): (r: Option<ShiftName>)
    ensures r.Some? ==> r.value in shifts && r.value.code == code
    ensures r.None? ==> forall s :: s in shifts ==> s.code != code
  {
    if |shifts| == 0 then None
    else if shifts[0].code == code then Some(shifts[0])
    else ShiftOf(shifts[1..], code)
  }

  /** The text of one found entry: off, leave and holiday by name, otherwise the shift's name or
      the raw code. */
  function CellText(entry: Entry, shifts: seq<ShiftName>): string {
    if entry.status == "off" then "Off"
    else if entry.status == "leave" then "Leave"
    else if entry.status == "holiday" then "Holiday"
    else
      var s := ShiftOf(shifts, entry.shiftCode);
      if s.Some? then s.value.name else entry.shiftCode
  }

  /** The cell of an employee on a day: the first matching entry's text, or "Off". */
  function ExportCell(entries: seq<Entry>, shifts: seq<ShiftName>, employeeId: string, date: Date): string {
    var i := EntryIndex(entries, employeeId, date);
    if i == -1 then "Off" else CellText(entries[i], shifts)
  }

  function ExportRow(entries: seq<Entry>, e: Staff, shifts: seq<ShiftName>, y: int, m: int, n: nat): (r: seq<string>)
    ensures |r| == n + 1
  {
    [e.name] + seq(n, i requires 0 <= i < n => ExportCell(entries, shifts, e.employeeId, Date(y, m, i + 1)))
  }

  /** The worksheet: the header row, then one row per active employee. */
  function Sheet(entries: seq<Entry>, employees: seq<Staff>, shifts: seq<ShiftName>, y: int, m: int): (r: seq<seq<string>>)
    requires 1 <= m <= 12
    ensures |r| == |employees| + 1
  {
    var n := DaysInMonth(y, m);
    [HeaderRow(m, n)] + seq(|employees|, k requires 0 <= k < |employees| => ExportRow(entries, employees[k], shifts, y, m, n))
  }

  /** The sheet is a rectangle: "Employee" and the day headers, then each employee's name and
      one cell per day, and the cell of a day with no entry reads "Off". */
  lemma SheetShape(entries: seq<Entry>, employees: seq<Staff>, shifts: seq<ShiftName>, y: int, m: int)
    requires 1 <= m <= 12
    ensures var s := Sheet(entries, employees, shifts, y, m);
      var n := DaysInMonth(y, m);
      s[0][0] == "Employee"
      && (forall d :: 1 <= d <= n ==> s[0][d] == NatToString(d) + "-" + MonthShortName(m))
      && forall k :: 1 <= k <= |employees| ==>
           |s[k]| == n + 1 && s[k][0] == employees[k - 1].name
           && forall d :: 1 <= d <= n ==>
                s[k][d] == ExportCell(entries, shifts, employees[k - 1].employeeId, Date(y, m, d))
                && ((forall j :: 0 <= j < |entries| ==>
                       !(entries[j].employeeId == employees[k - 1].employeeId && entries[j].date == Date(y, m, d)))
                    ==> s[k][d] == "Off")
  {
  }

  /** Exporting a generated grid shows each employee's own entry of the day, provided the
      employee ids are distinct. */
  lemma ExportShowsGenerated(employees: seq<Staff>, assignments: seq<Assignment>, shifts: seq<ShiftName>,
                             y: int, m: int, k: nat, d: nat)
    requires 1 <= m <= 12 && k < |employees| && 1 <= d <= DaysInMonth(y, m)
    requires forall a, b :: 0 <= a < b < |employees| ==> employees[a].employeeId != employees[b].employeeId
    ensures var n := DaysInMonth(y, m);
      ExportCell(Grid(employees, assignments, y, m, n), shifts, employees[k].employeeId, Date(y, m, d))
      == CellText(DayEntryFor(employees[k], assignments, y, m, d), shifts)
  {
    var n := DaysInMonth(y, m);
    var g := Grid(employees, assignments, y, m, n);
    var id := employees[k].employeeId;
    GridLayout(employees, assignments, y, m, n);
    var i := RowMajor(k, n, d - 1);
    assert i < |g|;
    forall j | 0 <= j < i
      ensures !(g[j].employeeId == id && g[j].date == Date(y, m, d))
    {
      GridIndex(employees, assignments, y, m, n, j);
      DivBound(j, |employees|, n);
      var k', d' := j / n, j % n + 1;
      if k' == k {
        assert d' < d;
      }
    }
    assert g[i] == DayEntryFor(employees[k], assignments, y, m, d);
    assert g[i].employeeId == id && g[i].date == Date(y, m, d);
    NoEarlierMatch(g, id, Date(y, m, d), i);
  }

  /** The nested row and day loops of /export. */
  method BuildSheet(entries: seq<Entry>, employees: seq<Staff>, shifts: seq<ShiftName>, y: int, m: int)
    returns (sheet: seq<seq<string>>)
    requires 1 <= m <= 12
    ensures sheet == Sheet(entries, employees, shifts, y, m)
  {
    var n := DaysInMonth(y, m);
    var headers := ["Employee"];
    for day := 1 to n + 1
      invariant headers == HeaderRow(m, day - 1)
    {
      headers := headers + [DayHeader(m, day)];
    }
    sheet := [headers];
    for k := 0 to |employees|
      invariant sheet == [HeaderRow(m, n)] + seq(k, j requires 0 <= j < k => ExportRow(entries, employees[j], shifts, y, m, n))
    {
      var row := [employees[k].name];
      for day := 1 to n + 1
        invariant row == ExportRow(entries, employees[k], shifts, y, m, day - 1)
      {
        var index := FindIndex(entries, employees[k].employeeId, Date(y, m, day));
        var cell: string;
        if index != -1 {
          var entry := entries[index];
          if entry.status == "off" {
            cell := "Off";
          } else if entry.status == "leave" {
            cell := "Leave";
          } else if entry.status == "holiday" {
            cell := "Holiday";
          } else {
            var shift := ShiftOf(shifts, entry.shiftCode);
            cell := if shift.Some? then shift.value.name else entry.shiftCode;
          }
        } else {
          cell := "Off";
        }
        row := row + [cell];
      }
      sheet := sheet + [row];
    }
  }
}
