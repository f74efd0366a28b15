// Same-month auto-fill (src/App.tsx:601-721): after a manual assignment, an
// employee with at least three working entries this month gets the rest of
// the month filled from the day after the last working entry, continuing the
// trailing run of that entry's code with a switch every 5 working days.

module AutoFill {

  import opened Wrappers
  import opened Seqs
  import opened Calendar
  import opened ShiftCatalog
  import opened Rotation
  import opened Schedule
  import opened PatternAnalysis
  import opened DayFill

  /** The colour of the WO entries auto-fill writes. */
  const AutoWeekOffColor := "#6f42c1"

  /** The fixed switch threshold of auto-fill. */
  const AutoThreshold := 5

  /** The counting loop at src/App.tsx:628-635: the length of the trailing run of equal codes. */
  method TrailingRun(codes: seq<string>) returns (count: nat)
    requires |codes| > 0
    ensures count == Last(RunLength(codes)).days
  {
    var current := codes[|codes| - 1];
    count := 1;
    var i := |codes| - 2;
    while i >= 0
      invariant -1 <= i <= |codes| - 2
      invariant count == |codes| - 1 - i
      invariant forall j :: i < j < |codes| ==> codes[j] == current
      decreases i
    {
      if codes[i] == current {
        count := count + 1;
        i := i - 1;
      } else {
        break;
      }
    }
    var xs := codes[..i + 1];
    assert codes == xs + Repeat(current, count) by {
      forall j | 0 <= j < count
        ensures Repeat(current, count)[j] == current
      {
        RepeatAt(current, count, j);
      }
    }
    RunLengthAppendRepeat(xs, current, count);
  }

  /** The rotation state the fill starts from: the trailing run's code, switched when the run
      has reached 5 days, with the run's length as the count (not reset by the switch). */
  function AutoStart(working: seq<Entry>): RotState
    requires |working| > 0
  {
    var codes := Codes(working);
    var run := Last(RunLength(codes));
    var c := Last(codes);
    RotState(if run.days >= 5 then Flip(c) else c, run.days)
  }

  /** The first day auto-fill considers: the day after the last working entry. */
  function FirstOpenDay(working: seq<Entry>): int
    requires |working| > 0
  {
    Last(working).day + 1
  }

  /** What auto-fill writes for employeeId, reading `given` (the array it was passed). */
  function AutoFillPlan(employees: seq<Employee>, employeeId: int, given: seq<Entry>, year: int, month: int): seq<Entry>
    requires 1 <= month <= 12 && ValidDates(given)
  {
    match FindEmployee(employees, employeeId)
    case None => []
    case Some(emp) =>
      var working := SortByDay(WorkingEntries(given, employeeId, month, year));
      if |working| < 3 then []
      else
        LastWorkingDay(given, employeeId, year, month);
        FillDays(emp, year, month, FirstOpenDay(working), DaysInMonth(year, month), KeySet(given),
                 AutoStart(working), AutoThreshold, AutoWeekOffColor).entries
  }

  /** autoDistributeShifts: the entries to append to the store. */
  method AutoDistribute(employees: seq<Employee>, employeeId: int, given: seq<Entry>, year: int, month: int)
    returns (newEntries: seq<Entry>)
    requires 1 <= month <= 12 && ValidDates(given)
    ensures newEntries == AutoFillPlan(employees, employeeId, given, year, month)
  {
    var employee := FindEmployee(employees, employeeId);
    if employee.None? {
      return [];
    }
    var emp := employee.value;
    var workingEntries := SortByDay(WorkingEntries(given, employeeId, month, year));
    if |workingEntries| < 3 {
      return [];
    }
    var currentShift := workingEntries[|workingEntries| - 1].shift;
    var consecutiveDays := TrailingRun(Codes(workingEntries));
    var nextShift := currentShift;
    if consecutiveDays >= 5 {
      nextShift := SwitchShift(currentShift);
    }
    var start := RotState(nextShift, consecutiveDays);
    assert start == AutoStart(workingEntries);
    var lastDay := workingEntries[|workingEntries| - 1].day;
    var firstDay := lastDay + 1;
    assert firstDay == FirstOpenDay(workingEntries);
    LastWorkingDay(given, employeeId, year, month);
    newEntries := FillRestOfMonth(emp, given, year, month, firstDay, start);
    AutoFillPlanFills(employees, employeeId, given, year, month, emp);
  }

  /** With the employee found and at least three working entries, the plan is the fill from
      the day after the last working entry. */
  lemma AutoFillPlanFills(employees: seq<Employee>, employeeId: int, given: seq<Entry>, year: int, month: int, emp: Employee)
    requires 1 <= month <= 12 && ValidDates(given)
    requires FindEmployee(employees, employeeId) == Some(emp)
    requires |SortByDay(WorkingEntries(given, employeeId, month, year))| >= 3
    ensures var working := SortByDay(WorkingEntries(given, employeeId, month, year));
      AutoFillPlan(employees, employeeId, given, year, month)
      == FillDays(emp, year, month, FirstOpenDay(working), DaysInMonth(year, month), KeySet(given),
                  AutoStart(working), AutoThreshold, AutoWeekOffColor).entries
  {
  }

  /** The last working entry lies in the month, so the fill starts at most one day past its end. */
  lemma LastWorkingDay(given: seq<Entry>, employeeId: int, year: int, month: int)
    requires 1 <= month <= 12 && ValidDates(given)
    ensures var working := SortByDay(WorkingEntries(given, employeeId, month, year));
      |working| > 0 ==> 1 <= Last(working).day <= DaysInMonth(year, month)
  {
    var working := SortByDay(WorkingEntries(given, employeeId, month, year));
    if |working| > 0 {
      SortByDayPermutes(WorkingEntries(given, employeeId, month, year));
      assert Last(working) in multiset(working);
    }
  }

  /** The day loop of autoDistributeShifts (src/App.tsx:650-715): every day from firstDay on
      that has no entry in `given` gets WO on a week-off day, else the rotation's code. */
  method FillRestOfMonth(emp: Employee, given: seq<Entry>, year: int, month: int, firstDay: int, start: RotState)
    returns (newEntries: seq<Entry>)
    requires 1 <= month <= 12 && 1 <= firstDay <= DaysInMonth(year, month) + 1
    ensures newEntries == FillDays(emp, year, month, firstDay, DaysInMonth(year, month), KeySet(given),
                                   start, AutoThreshold, AutoWeekOffColor).entries
  {
    var nextShift, consecutiveDays := start.code, start.counter;
    var daysInMonth := DaysInMonth(year, month);
    ghost var taken := KeySet(given);
    newEntries := [];
    for day := firstDay to daysInMonth + 1
      invariant Fill(newEntries, RotState(nextShift, consecutiveDays))
        == FillDays(emp, year, month, firstDay, day - 1, taken, start, AutoThreshold, AutoWeekOffColor)
    {
      ghost var before := Fill(newEntries, RotState(nextShift, consecutiveDays));
      assert FillDays(emp, year, month, firstDay, day, taken, start, AutoThreshold, AutoWeekOffColor)
        == FillDay(emp, year, month, day, taken, before, AutoThreshold, AutoWeekOffColor);
      var k := Key(emp.id, day, month, year);
      if FindEntry(given, k).Some? {
        continue;
      }
      if IsWeekOffDay(emp, year, month, day) {
        newEntries := newEntries + [WeekOffEntry(emp, day, month, year, AutoWeekOffColor, true)];
      } else {
        var shift := FindWorkingShift(nextShift);
        if shift.Some? {
          newEntries := newEntries + [ShiftEntry(emp, day, month, year, shift.value, HoursOrDefault(emp.workingHours), true)];
          consecutiveDays := consecutiveDays + 1;
          if consecutiveDays >= 5 {
            nextShift := SwitchShift(nextShift);
            consecutiveDays := 0;
          }
        }
      }
    }
  }

  /** Auto-fill writes nothing without the employee or with fewer than three working entries;
      otherwise only the employee's days after the last working entry's day that have no entry
      in the array it was given, all automatic, with unique keys, and WO exactly on the
      employee's week-off days. */
  lemma AutoFillFacts(employees: seq<Employee>, employeeId: int, given: seq<Entry>, year: int, month: int)
    requires 1 <= month <= 12 && ValidDates(given)
    ensures var plan := AutoFillPlan(employees, employeeId, given, year, month);
      (FindEmployee(employees, employeeId).None? || |WorkingEntries(given, employeeId, month, year)| < 3 ==> plan == [])
      && UniqueKeys(plan)
      && (forall e :: e in plan ==>
           e.employeeId == employeeId && e.month == month && e.year == year && e.isAutoAssigned
           && KeyOf(e) !in KeySet(given)
           && InMonth(year, month, e.day)
           && (forall w :: w in WorkingEntries(given, employeeId, month, year) ==> w.day < e.day))
      && (FindEmployee(employees, employeeId).Some? ==>
           forall e :: e in plan ==> (e.shift == "WO" <==> IsWeekOffDay(FindEmployee(employees, employeeId).value, year, month, e.day)))
  {
    var plan := AutoFillPlan(employees, employeeId, given, year, month);
    var all := WorkingEntries(given, employeeId, month, year);
    var working := SortByDay(all);
    if FindEmployee(employees, employeeId).Some? && |working| >= 3 {
      var emp := FindEmployee(employees, employeeId).value;
      var lastDay := Last(working).day;
      SortByDaySorted(all);
      SortByDayPermutes(all);
      assert Last(working) in multiset(working);
      var first, dim := FirstOpenDay(working), DaysInMonth(year, month);
      FillShape(emp, year, month, first, dim, KeySet(given), AutoStart(working), AutoThreshold, AutoWeekOffColor);
      FillUniqueKeys(emp, year, month, first, dim, KeySet(given), AutoStart(working), AutoThreshold, AutoWeekOffColor);
      FillWeekOffs(emp, year, month, first, dim, KeySet(given), AutoStart(working), AutoThreshold, AutoWeekOffColor);
      forall w | w in all
        ensures w.day <= lastDay
      {
        assert w in multiset(working);
        var i :| 0 <= i < |working| && working[i] == w;
      }
    }
  }

  /** The unreset counter: when the trailing run had reached 5 days the fill starts on the
      opposite category but still counts those days, so after one working day it switches
      straight back to the first code of the original category. */
  lemma AutoFillSwitchesBack(c: string, k: int)
    requires IsWorkingCode(c) && k >= 5
    ensures StateAfter(RotState(Flip(c), k), AutoThreshold, 1) == RotState(Flip(Flip(c)), 0)
    ensures Flip(Flip(c)) == (if c in MorningCodes() then "IST" else "AU")
  {
    assert Flip(c) == (if c in MorningCodes() then "AU" else "IST");
  }
}
