// The round-robin timetable generator (src/components/TimetableGenerator.tsx):
// the selection toggles of its form, generateTimetable's nested day/shift
// loops, and the CSV text of exportTimetableCSV.

module RoundRobin {

  import opened Text
  import opened Seqs
  import opened Calendar

  /** An employee as the generator lists it (`_id` and name). */
  datatype Member = Member(id: string, name: string)

  /** An active shift as the generator lists it. */
  datatype ShiftOption = ShiftOption(code: string, name: string)

  datatype GeneratedEntry = GeneratedEntry(employeeId: string, employeeName: string, shiftCode: string, date: string, status: string)

  datatype Form = Form(
    projectName: string, month: string, year: int,
    selectedEmployees: seq<string>, selectedShifts: seq<string>,
    workDaysPerWeek: int, maxConsecutiveDays: int)

  /** handleEmployeeSelection / handleShiftSelection: remove a selected id, else append it. */
  function Toggle(ids: seq<string>, id: string): (r: seq<string>)
    ensures forall x :: x in r <==> (if x == id then id !in ids else x in ids)
  {
    if id in ids then Filter(ids, (x: string) => x != id) else ids + [id]
  }

  /** Toggling keeps the selection free of duplicates, and toggling an absent id twice
      restores the list. */
  lemma ToggleFacts(ids: seq<string>, id: string)
    ensures NoDup(ids) ==> NoDup(Toggle(ids, id))
    ensures id !in ids ==> Toggle(Toggle(ids, id), id) == ids
    ensures id in ids ==> |Toggle(ids, id)| < |ids|
    ensures id !in ids ==> Toggle(ids, id) == ids + [id]
  {
    var keep := (x: string) => x != id;
    if id in ids {
      var r := Filter(ids, keep);
      if NoDup(ids) {
        FilterKeepsUnique(ids, keep, (x: string) => x);
      }
      if |r| == |ids| {
        SubsequenceSameLength(r, ids);
        assert false;
      }
    } else {
      var added := ids + [id];
      if NoDup(ids) {
        forall i, j | 0 <= i < j < |added|
          ensures added[i] != added[j]
        {
          if j == |ids| {
            assert added[i] in ids;
          }
        }
      }
      FilterAll(ids, keep);
      assert Filter(added, keep) == Filter(ids, keep) by {
        FilterDropLast(ids, id, keep);
      }
    }
  }

  /** A subsequence as long as the sequence is the sequence itself. */
  lemma {:induction false} SubsequenceSameLength<T>(a: seq<T>, b: seq<T>)
    requires IsSubsequence(a, b) && |a| == |b|
    ensures a == b
    decreases |b|
  {
    if |b| > 0 {
      if a[0] == b[0] {
        SubsequenceSameLength(a[1..], b[1..]);
        assert a == [a[0]] + a[1..];
        assert b == [b[0]] + b[1..];
      } else {
        SubsequenceLength(a, b[1..]);
      }
    }
  }

  lemma {:induction false} SubsequenceLength<T>(a: seq<T>, b: seq<T>)
    requires IsSubsequence(a, b)
    ensures |a| <= |b|
    decreases |b|
  {
    if |a| > 0 && |b| > 0 {
      if a[0] == b[0] {
        SubsequenceLength(a[1..], b[1..]);
      } else {
        SubsequenceLength(a, b[1..]);
      }
    }
  }

  /** The required fields: a project name, a month and at least one employee and shift. */
  predicate Complete(form: Form) {
    form.projectName != "" && form.month != "" && |form.selectedEmployees| > 0 && |form.selectedShifts| > 0
  }

  /** The month a generation runs over: the year and month number written into the date
      texts (monthIndex + 1), the calendar month `new Date(year, monthIndex, day)` falls in
      (monthIndex -1, a month name not in the list, rolls back to December of the year
      before; the years 0..99 are read as 1900..1999), and whether weekends are skipped. */
  datatype Period = Period(year: int, monthNumber: nat, calendarYear: int, calendarMonth: int, skipWeekends: bool)

  predicate ValidPeriod(p: Period) {
    1 <= p.calendarMonth <= 12
  }

  function PeriodOf(form: Form): (p: Period)
    ensures ValidPeriod(p)
  {
    var i := MonthIndex(form.month);
    var y := CalendarYear(form.year);
    Period(form.year, i + 1, if i == -1 then y - 1 else y, if i == -1 then 12 else i + 1,
           form.workDaysPerWeek == 5)
  }

  function DaysOf(p: Period): int
    requires ValidPeriod(p)
  {
    DaysInMonth(p.calendarYear, p.calendarMonth)
  }

  /** A day of the loop that gets entries: with five work days a week, Saturday and Sunday are skipped. */
  predicate Included(p: Period, day: int)
    requires ValidPeriod(p) && 1 <= day <= DaysOf(p)
  {
    var w := Weekday(Date(p.calendarYear, p.calendarMonth, day));
    !(p.skipWeekends && (w == 0 || w == 6))
  }

  /** The selected employees and shifts, in the order of the fetched lists. */
  function SelectedMembers(form: Form, employees: seq<Member>): seq<Member> {
    Filter(employees, (e: Member) => e.id in form.selectedEmployees)
  }

  function SelectedShifts(form: Form, shifts: seq<ShiftOption>): seq<ShiftOption> {
    Filter(shifts, (s: ShiftOption) => s.code in form.selectedShifts)
  }

  /** The entry of (day, shiftIndex): employee (day + shiftIndex) % n, the zero-padded date
      text, status "scheduled". */
  function DayEntry(p: Period, members: seq<Member>, shifts: seq<ShiftOption>, day: nat, i: int): GeneratedEntry
    requires |members| > 0 && 0 <= i < |shifts|
  {
    var m := members[(day + i) % |members|];
    GeneratedEntry(m.id, m.name, shifts[i].code, DateText(p.year, p.monthNumber, day), "scheduled")
  }

  function DayEntries(p: Period, members: seq<Member>, shifts: seq<ShiftOption>, day: nat): (r: seq<GeneratedEntry>)
    requires |members| > 0
    ensures |r| == |shifts|
  {
    seq(|shifts|, i requires 0 <= i < |shifts| => DayEntry(p, members, shifts, day, i))
  }

  /** The included days among 1..d, in order. */
  function IncludedUpTo(p: Period, d: nat): (r: seq<nat>)
    requires ValidPeriod(p) && d <= DaysOf(p)
  {
    if d == 0 then [] else IncludedUpTo(p, d - 1) + (if Included(p, d) then [d] else [])
  }

  /** What a generation attempt does: Incomplete shows the alert, Failed is the error the
      empty selection raises when an entry must name an employee. */
  datatype Outcome = Incomplete | Failed | Generated(entries: seq<GeneratedEntry>)

  function Generate(form: Form, employees: seq<Member>, shifts: seq<ShiftOption>): Outcome {
    if !Complete(form) then Incomplete
    else PlanOutcome(PeriodOf(form), SelectedMembers(form, employees), SelectedShifts(form, shifts))
  }

  /** The loops of a complete form over the period, with the selected employees and shifts. */
  function PlanOutcome(p: Period, members: seq<Member>, chosen: seq<ShiftOption>): Outcome
    requires ValidPeriod(p)
  {
    if |members| == 0 then
      (if |chosen| > 0 && |IncludedUpTo(p, DaysOf(p))| > 0 then Failed else Generated([]))
    else Generated(Plan(p, members, chosen, IncludedUpTo(p, DaysOf(p))))
  }

  /** Included days are 1..d, increasing, and exactly the days Included accepts. */
  lemma {:induction false} IncludedUpToFacts(p: Period, d: nat)
    requires ValidPeriod(p) && d <= DaysOf(p)
    ensures var r := IncludedUpTo(p, d);
      (forall k :: 0 <= k < |r| ==> 1 <= r[k] <= d && Included(p, r[k]))
      && (forall day :: 1 <= day <= d ==> (day in r <==> Included(p, day)))
      && (forall j, k :: 0 <= j < k < |r| ==> r[j] < r[k])
  {
    if d > 0 {
      IncludedUpToFacts(p, d - 1);
      var r0 := IncludedUpTo(p, d - 1);
      var r := IncludedUpTo(p, d);
      if Included(p, d) {
        assert r == r0 + [d];
        forall j, k | 0 <= j < k < |r|
          ensures r[j] < r[k]
        {
          assert r[j] == r0[j];
          if k < |r0| {
            assert r[k] == r0[k];
          }
        }
      } else {
        assert r == r0;
      }
    }
  }

  /** With five work days a week no included day is a Saturday or Sunday; otherwise every day
      of the month is included. */
  lemma IncludedWeekdays(form: Form, day: int)
    requires 1 <= day <= DaysOf(PeriodOf(form))
    ensures var p := PeriodOf(form);
      form.workDaysPerWeek == 5 ==>
        (Included(p, day) <==> 1 <= Weekday(Date(p.calendarYear, p.calendarMonth, day)) <= 5)
    ensures form.workDaysPerWeek != 5 ==> Included(PeriodOf(form), day)
  {
  }

  /** The day blocks of the included days, one row per day. */
  function Rows(p: Period, members: seq<Member>, shifts: seq<ShiftOption>, days: seq<nat>): (r: seq<seq<GeneratedEntry>>)
    requires |members| > 0
    ensures |r| == |days| && forall k :: 0 <= k < |days| ==> |r[k]| == |shifts|
  {
    seq(|days|, k requires 0 <= k < |days| => DayEntries(p, members, shifts, days[k]))
  }

  /** The day loop's result: the blocks of the included days, concatenated in day order. */
  function Plan(p: Period, members: seq<Member>, shifts: seq<ShiftOption>, days: seq<nat>): seq<GeneratedEntry>
    requires |members| > 0
  {
    Flatten(Rows(p, members, shifts, days))
  }

  /** One more included day appends its block. */
  lemma PlanStep(p: Period, members: seq<Member>, shifts: seq<ShiftOption>, days: seq<nat>, day: nat)
    requires |members| > 0
    ensures Plan(p, members, shifts, days + [day]) == Plan(p, members, shifts, days) + DayEntries(p, members, shifts, day)
  {
    assert Rows(p, members, shifts, days + [day]) == Rows(p, members, shifts, days) + [DayEntries(p, members, shifts, day)];
    FlattenSnoc(Rows(p, members, shifts, days), DayEntries(p, members, shifts, day));
  }

  /** The plan has one block of |shifts| entries per included day, in day order; entry i of
      a day's block is the shift's entry for employee (day + i) % n. */
  lemma PlanLayout(p: Period, members: seq<Member>, shifts: seq<ShiftOption>, days: seq<nat>)
    requires |members| > 0
    ensures var plan := Plan(p, members, shifts, days);
      |plan| == |days| * |shifts|
      && forall k, i :: 0 <= k < |days| && 0 <= i < |shifts| ==>
           RowMajor(k, |shifts|, i) < |plan| && plan[RowMajor(k, |shifts|, i)] == DayEntry(p, members, shifts, days[k], i)
  {
    var rows := Rows(p, members, shifts, days);
    FlattenLength(rows, |shifts|);
    forall k, i | 0 <= k < |days| && 0 <= i < |shifts|
      ensures RowMajor(k, |shifts|, i) < |Flatten(rows)| && Flatten(rows)[RowMajor(k, |shifts|, i)] == DayEntry(p, members, shifts, days[k], i)
    {
      FlattenAt(rows, |shifts|, k, i);
      assert rows[k][i] == DayEntry(p, members, shifts, days[k], i);
    }
  }

  /** Nothing but the day blocks' entries is in the plan. */
  lemma PlanMembership(p: Period, members: seq<Member>, shifts: seq<ShiftOption>, days: seq<nat>, e: GeneratedEntry)
    requires |members| > 0
    ensures e in Plan(p, members, shifts, days) <==>
      exists k, i :: 0 <= k < |days| && 0 <= i < |shifts| && e == DayEntry(p, members, shifts, days[k], i)
  {
    if e in Plan(p, members, shifts, days) {
      var k, i := PlanMemberSource(p, members, shifts, days, e);
    }
    if exists k, i :: 0 <= k < |days| && 0 <= i < |shifts| && e == DayEntry(p, members, shifts, days[k], i) {
      var k, i :| 0 <= k < |days| && 0 <= i < |shifts| && e == DayEntry(p, members, shifts, days[k], i);
      PlanHasEntry(p, members, shifts, days, k, i);
    }
  }

  /** The day and shift an entry of the plan comes from. */
  lemma PlanMemberSource(p: Period, members: seq<Member>, shifts: seq<ShiftOption>, days: seq<nat>, e: GeneratedEntry)
    returns (k: int, i: int)
    requires |members| > 0 && e in Plan(p, members, shifts, days)
    ensures 0 <= k < |days| && 0 <= i < |shifts| && e == DayEntry(p, members, shifts, days[k], i)
  {
    var rows := Rows(p, members, shifts, days);
    FlattenMember(rows, e);
    k :| 0 <= k < |rows| && e in rows[k];
    i :| 0 <= i < |shifts| && rows[k][i] == e;
  }

  lemma PlanHasEntry(p: Period, members: seq<Member>, shifts: seq<ShiftOption>, days: seq<nat>, k: int, i: int)
    requires |members| > 0 && 0 <= k < |days| && 0 <= i < |shifts|
    ensures DayEntry(p, members, shifts, days[k], i) in Plan(p, members, shifts, days)
  {
    var rows := Rows(p, members, shifts, days);
    FlattenMember(rows, DayEntry(p, members, shifts, days[k], i));
    assert rows[k][i] == DayEntry(p, members, shifts, days[k], i);
  }

  /** Every entry of the plan is one of the employees on one of the shifts, status
      "scheduled", dated on one of the days. */
  lemma PlanEntries(p: Period, members: seq<Member>, shifts: seq<ShiftOption>, days: seq<nat>)
    requires |members| > 0
    ensures forall e :: e in Plan(p, members, shifts, days) ==>
      e.status == "scheduled"
      && (exists m :: m in members && m.id == e.employeeId && m.name == e.employeeName)
      && (exists s :: s in shifts && s.code == e.shiftCode)
      && exists k :: 0 <= k < |days| && e.date == DateText(p.year, p.monthNumber, days[k])
  {
    forall e | e in Plan(p, members, shifts, days)
      ensures e.status == "scheduled"
      ensures exists m :: m in members && m.id == e.employeeId && m.name == e.employeeName
      ensures exists s :: s in shifts && s.code == e.shiftCode
      ensures exists k :: 0 <= k < |days| && e.date == DateText(p.year, p.monthNumber, days[k])
    {
      PlanMembership(p, members, shifts, days, e);
      var k, i :| 0 <= k < |days| && 0 <= i < |shifts| && e == DayEntry(p, members, shifts, days[k], i);
      assert members[(days[k] + i) % |members|] in members;
      assert shifts[i] in shifts;
    }
  }

  /** exportTimetableCSV's text: the header line, then one comma-joined line per entry. */
  function CsvHeader(): string {
    Join(["Date", "Employee Name", "Employee ID", "Shift Code", "Status"], ",")
  }

  function CsvFields(e: GeneratedEntry): seq<string> {
    [e.date, e.employeeName, e.employeeId, e.shiftCode, e.status]
  }

  function CsvLines(entries: seq<GeneratedEntry>): (r: seq<string>)
    ensures |r| == |entries| + 1
  {
    [CsvHeader()] + seq(|entries|, i requires 0 <= i < |entries| => Join(CsvFields(entries[i]), ","))
  }

  function Csv(entries: seq<GeneratedEntry>): string {
    Join(CsvLines(entries), "\n")
  }

  /** Without line breaks or commas inside fields, the CSV splits back into its header and one
      line per entry, and each entry line into its five fields. */
  lemma CsvRoundTrip(entries: seq<GeneratedEntry>)
    requires forall e, k :: e in entries && 0 <= k < 5 ==> '\n' !in CsvFields(e)[k] && ',' !in CsvFields(e)[k]
    ensures Split(Csv(entries), '\n') == CsvLines(entries)
    ensures forall i :: 1 <= i <= |entries| ==> Split(Split(Csv(entries), '\n')[i], ',') == CsvFields(entries[i - 1])
  {
    var lines := CsvLines(entries);
    CsvLinesSingle(entries);
    SplitJoin(lines, '\n');
    forall i | 1 <= i <= |entries|
      ensures Split(lines[i], ',') == CsvFields(entries[i - 1])
    {
      LineRoundTrip(entries, i);
    }
  }

  lemma LineRoundTrip(entries: seq<GeneratedEntry>, i: int)
    requires 1 <= i <= |entries|
    requires forall e, k :: e in entries && 0 <= k < 5 ==> ',' !in CsvFields(e)[k]
    ensures Split(CsvLines(entries)[i], ',') == CsvFields(entries[i - 1])
  {
    assert entries[i - 1] in entries;
    assert CsvLines(entries)[i] == Join(CsvFields(entries[i - 1]), ",");
    SplitJoin(CsvFields(entries[i - 1]), ',');
  }

  /** No CSV line contains a line break when no field does. */
  lemma CsvLinesSingle(entries: seq<GeneratedEntry>)
    requires forall e, k :: e in entries && 0 <= k < 5 ==> '\n' !in CsvFields(e)[k]
    ensures forall i :: 0 <= i < |CsvLines(entries)| ==> '\n' !in CsvLines(entries)[i]
  {
    var lines := CsvLines(entries);
    forall i | 0 <= i < |lines|
      ensures '\n' !in lines[i]
    {
      if i == 0 {
        HeaderSingle();
      } else {
        var e := entries[i - 1];
        assert e in entries;
        assert lines[i] == Join(CsvFields(e), ",");
        FieldsSingle(e);
      }
    }
  }

  lemma HeaderSingle()
    ensures '\n' !in CsvHeader()
  {
    var h := ["Date", "Employee Name", "Employee ID", "Shift Code", "Status"];
    assert forall k :: 0 <= k < |h| ==> '\n' !in h[k];
    JoinAvoids(h, ",", '\n');
  }

  lemma FieldsSingle(e: GeneratedEntry)
    requires forall k :: 0 <= k < 5 ==> '\n' !in CsvFields(e)[k]
    ensures '\n' !in Join(CsvFields(e), ",")
  {
    JoinAvoids(CsvFields(e), ",", '\n');
  }

  /** The generator screen: the form and the last generated timetable. */
  class GeneratorForm {
    var form: Form
    var generated: seq<GeneratedEntry>

    constructor (year: int)
      ensures form == Form("", "", year, [], [], 5, 6) && generated == []
    {
      form := Form("", "", year, [], [], 5, 6);
      generated := [];
    }

    method ToggleEmployee(id: string)
      modifies this
      ensures form == old(form).(selectedEmployees := Toggle(old(form).selectedEmployees, id))
      ensures generated == old(generated)
    {
      form := form.(selectedEmployees := Toggle(form.selectedEmployees, id));
    }

    method ToggleShift(code: string)
      modifies this
      ensures form == old(form).(selectedShifts := Toggle(old(form).selectedShifts, code))
      ensures generated == old(generated)
    {
      form := form.(selectedShifts := Toggle(form.selectedShifts, code));
    }

    /** generateTimetable: on an incomplete form or a failure the previous timetable stays. */
    method GenerateTimetable(employees: seq<Member>, shifts: seq<ShiftOption>) returns (outcome: Outcome)
      modifies this
      ensures outcome == Generate(old(form), employees, shifts)
      ensures form == old(form)
      ensures generated == (if outcome.Generated? then outcome.entries else old(generated))
    {
      if form.projectName == "" || form.month == "" || |form.selectedEmployees| == 0 || |form.selectedShifts| == 0 {
        return Incomplete;
      }
      outcome := RunPlan(PeriodOf(form), SelectedMembers(form, employees), SelectedShifts(form, shifts));
      if outcome.Generated? {
        generated := outcome.entries;
      }
    }
  }

  /** The nested day and shift loops of generateTimetable; an empty employee selection fails
      at the first entry it has to make. */
  method RunPlan(p: Period, members: seq<Member>, chosen: seq<ShiftOption>) returns (outcome: Outcome)
    requires ValidPeriod(p)
    ensures outcome == PlanOutcome(p, members, chosen)
  {
    var daysInMonth := DaysInMonth(p.calendarYear, p.calendarMonth);
    var entries: seq<GeneratedEntry> := [];
    for day := 1 to daysInMonth + 1
      invariant |members| == 0 ==> entries == [] && (|chosen| == 0 || |IncludedUpTo(p, day - 1)| == 0)
      invariant |members| > 0 ==> entries == Plan(p, members, chosen, IncludedUpTo(p, day - 1))
    {
      var w := Weekday(Date(p.calendarYear, p.calendarMonth, day));
      if p.skipWeekends && (w == 0 || w == 6) {
        assert IncludedUpTo(p, day) == IncludedUpTo(p, day - 1);
        continue;
      }
      assert Included(p, day);
      if |members| == 0 {
        if |chosen| > 0 {
          IncludedUpToFacts(p, daysInMonth);
          assert day in IncludedUpTo(p, daysInMonth);
          return Failed;
        }
      } else {
        var block := DayBlock(p, members, chosen, day);
        PlanStep(p, members, chosen, IncludedUpTo(p, day - 1), day);
        entries := entries + block;
      }
    }
    return Generated(entries);
  }

  /** The inner loop: one entry per selected shift, employees taken round-robin from the day. */
  method DayBlock(p: Period, members: seq<Member>, chosen: seq<ShiftOption>, day: nat) returns (block: seq<GeneratedEntry>)
    requires |members| > 0
    ensures block == DayEntries(p, members, chosen, day)
  {
    block := [];
    for i := 0 to |chosen|
      invariant block == DayEntries(p, members, chosen, day)[..i]
    {
      var m := members[(day + i) % |members|];
      ghost var all := DayEntries(p, members, chosen, day);
      assert all[..i + 1] == all[..i] + [DayEntry(p, members, chosen, day, i)];
      block := block + [GeneratedEntry(m.id, m.name, chosen[i].code, DateText(p.year, p.monthNumber, day), "scheduled")];
    }
  }
}
