// Next-month generation (src/App.tsx:259-375): for every employee with a
// pattern in the current month, the rotation resumes where the pattern left
// it and fills every day of the next month, WO on the week-off pair.

module NextMonth {

  import opened Wrappers
  import opened Text
  import opened Seqs
  import opened Calendar
  import opened ShiftCatalog
  import opened Rotation
  import opened Schedule
  import opened PatternAnalysis
  import opened DayFill

  /** The colour of the WO entries generation writes. */
  const GeneratedWeekOffColor := "#9C27B0"

  /** The month after (year, month). */
  function MonthAfter(year: int, month: int): (r: (int, int))
    requires 1 <= month <= 12
    ensures 1 <= r.1 <= 12
    ensures r == (if month == 12 then (year + 1, 1) else (year, month + 1))
  {
    if month == 12 then (year + 1, 1) else (year, month + 1)
  }

  /** The month before (year, month). */
  function MonthBefore(year: int, month: int): (r: (int, int))
    requires 1 <= month <= 12
    ensures 1 <= r.1 <= 12
    ensures MonthAfter(r.0, r.1) == (year, month)
  {
    if month == 1 then (year - 1, 12) else (year, month - 1)
  }

  /** Where the rotation resumes: a last run shorter than 5 days continues with its count,
      a longer one (or an unreadable count) switches category with the count at 0. */
  function CarryOver(p: Pattern): RotState {
    if |p.shiftRotations| == 0 || Last(p.shiftRotations) == "" then RotState(p.lastShift, 0)
    else
      var (code, days) := ParseRunText(Last(p.shiftRotations));
      if days.Some? && days.value < 5 then RotState(code, days.value)
      else RotState(SwitchCategory(code, p.lastShift), 0)
  }

  /** pattern.averageDaysPerShift || 5. */
  function Threshold(p: Pattern): int {
    if p.averageDaysPerShift == 0 then 5 else p.averageDaysPerShift
  }

  /** What generation writes for one employee. */
  function EmployeePlan(emp: Employee, patterns: map<int, Pattern>, year: int, month: int): seq<Entry>
    requires 1 <= month <= 12
  {
    if emp.id in patterns then
      var p := patterns[emp.id];
      FillDays(emp, year, month, 1, DaysInMonth(year, month), {}, CarryOver(p), Threshold(p), GeneratedWeekOffColor).entries
    else []
  }

  /** What generation writes, employee by employee. */
  function MonthPlan(employees: seq<Employee>, patterns: map<int, Pattern>, year: int, month: int): seq<Entry>
    requires 1 <= month <= 12
  {
    if |employees| == 0 then []
    else MonthPlan(employees[..|employees| - 1], patterns, year, month) + EmployeePlan(Last(employees), patterns, year, month)
  }

  /** The day loop for one employee (src/App.tsx:277-361). */
  method GenerateForEmployee(emp: Employee, p: Pattern, year: int, month: int) returns (entries: seq<Entry>)
    requires 1 <= month <= 12
    ensures entries == EmployeePlan(emp, map[emp.id := p], year, month)
  {
    var start := CarryOver(p);
    var currentShift := start.code;
    var daysSinceLastShift := start.counter;
    var daysInMonth := DaysInMonth(year, month);
    entries := [];
    for day := 1 to daysInMonth + 1
      invariant Fill(entries, RotState(currentShift, daysSinceLastShift))
        == FillDays(emp, year, month, 1, day - 1, {}, start, Threshold(p), GeneratedWeekOffColor)
    {
      if IsWeekOffDay(emp, year, month, day) {
        entries := entries + [WeekOffEntry(emp, day, month, year, GeneratedWeekOffColor, true)];
      } else {
        var shift := FindWorkingShift(currentShift);
        if shift.Some? {
          entries := entries + [ShiftEntry(emp, day, month, year, shift.value, HoursOrDefault(emp.workingHours), true)];
          daysSinceLastShift := daysSinceLastShift + 1;
          var threshold := if p.averageDaysPerShift == 0 then 5 else p.averageDaysPerShift;
          if daysSinceLastShift >= threshold {
            currentShift := SwitchShift(currentShift);
            daysSinceLastShift := 0;
          }
        }
      }
    }
  }

  /** employees.forEach over the patterns (src/App.tsx:271-362). */
  method GenerateNextMonth(employees: seq<Employee>, patterns: map<int, Pattern>, year: int, month: int)
    returns (newEntries: seq<Entry>)
    requires 1 <= month <= 12
    ensures newEntries == MonthPlan(employees, patterns, year, month)
  {
    newEntries := [];
    for n := 0 to |employees|
      invariant newEntries == MonthPlan(employees[..n], patterns, year, month)
    {
      var emp := employees[n];
      MonthPlanStep(employees, patterns, year, month, n);
      if emp.id in patterns {
        var added := GenerateForEmployee(emp, patterns[emp.id], year, month);
        EmployeePlanOwn(emp, patterns, year, month);
        newEntries := newEntries + added;
      } else {
        assert newEntries + [] == newEntries;
      }
    }
    assert employees[..|employees|] == employees;
  }

  lemma MonthPlanStep(employees: seq<Employee>, patterns: map<int, Pattern>, year: int, month: int, n: nat)
    requires 1 <= month <= 12 && n < |employees|
    ensures MonthPlan(employees[..n + 1], patterns, year, month)
         == MonthPlan(employees[..n], patterns, year, month) + EmployeePlan(employees[n], patterns, year, month)
  {
    assert employees[..n + 1][..n] == employees[..n];
  }

  /** An employee's plan depends only on that employee's own pattern. */
  lemma EmployeePlanOwn(emp: Employee, patterns: map<int, Pattern>, year: int, month: int)
    requires 1 <= month <= 12 && emp.id in patterns
    ensures EmployeePlan(emp, map[emp.id := patterns[emp.id]], year, month) == EmployeePlan(emp, patterns, year, month)
  {
  }

  /** Carry-over in terms of the runs: with codes free of ':' and of the empty code, the
      rotation continues the last run when it is shorter than 5 days and otherwise starts
      the opposite category at count 0. */
  lemma CarryOverOfRuns(codes: seq<string>)
    requires |codes| > 0
    requires forall i :: 0 <= i < |codes| ==> codes[i] != "" && ':' !in codes[i]
    ensures var last := Last(RunLength(codes));
      last.code == Last(codes) && last.days >= 1
      && CarryOver(PatternOf(codes))
         == if last.days < 5 then RotState(last.code, last.days) else RotState(SwitchCategory(last.code, last.code), 0)
  {
    PatternAccounting(codes);
    var runs := RunLength(codes);
    var p := PatternOf(codes);
    assert Last(p.shiftRotations) == RunText(Last(runs));
    ExpandMember(runs, |runs| - 1);
    var i :| 0 <= i < |codes| && codes[i] == Last(runs).code;
    RunTextRoundTrip(Last(runs));
  }

  /** From working codes the carry-over is a working code. */
  lemma CarryOverWorking(codes: seq<string>)
    requires |codes| > 0
    requires forall i :: 0 <= i < |codes| ==> IsWorkingCode(codes[i])
    ensures IsWorkingCode(CarryOver(PatternOf(codes)).code)
  {
    CarryOverOfRuns(codes);
    SwitchCategoryClosedForm(Last(codes), Last(codes));
  }

  /** With a working start code and no day taken, every day of first..last gets exactly one
      entry, in day order. */
  lemma {:induction false} FillEveryDay(emp: Employee, year: int, month: int, first: int, last: int,
                                        start: RotState, threshold: int, color: string)
    requires DayRange(year, month, first, last) && first <= last + 1
    requires IsWorkingCode(start.code)
    ensures var es := FillDays(emp, year, month, first, last, {}, start, threshold, color).entries;
      |es| == last - first + 1 && forall i :: 0 <= i < |es| ==> es[i].day == first + i
  {
    if last >= first {
      FillEveryDay(emp, year, month, first, last - 1, start, threshold, color);
      FillEveryDayStep(emp, year, month, first, last, start, threshold, color);
    }
  }

  lemma FillEveryDayStep(emp: Employee, year: int, month: int, first: int, last: int,
                         start: RotState, threshold: int, color: string)
    requires DayRange(year, month, first, last) && first <= last
    requires IsWorkingCode(start.code)
    requires var es := FillDays(emp, year, month, first, last - 1, {}, start, threshold, color).entries;
      |es| == last - first && forall i :: 0 <= i < |es| ==> es[i].day == first + i
    ensures var es := FillDays(emp, year, month, first, last, {}, start, threshold, color).entries;
      |es| == last - first + 1 && forall i :: 0 <= i < |es| ==> es[i].day == first + i
  {
    FillRotation(emp, year, month, first, last - 1, {}, start, threshold, color);
    var f := FillDays(emp, year, month, first, last - 1, {}, start, threshold, color);
    StateAfterWorking(start, threshold, WorkDays(emp, year, month, first, last - 1, {}));
    FreeDayAdds(emp, year, month, last, {}, f, threshold, color);
  }

  /** One employee's generated month: one entry per day; WO with hours 0 exactly on the
      week-off pair, a working code with hours workingHours || 8 on every other day; all
      automatic and all the employee's. */
  lemma EmployeePlanFacts(emp: Employee, p: Pattern, year: int, month: int)
    requires 1 <= month <= 12
    requires IsWorkingCode(CarryOver(p).code)
    ensures var es := EmployeePlan(emp, map[emp.id := p], year, month);
      |es| == DaysInMonth(year, month)
      && forall i :: 0 <= i < |es| ==>
        es[i].day == i + 1 && es[i].employeeId == emp.id && es[i].month == month && es[i].year == year
        && es[i].isAutoAssigned
        && (es[i].shift == "WO" <==> IsWeekOffDay(emp, year, month, i + 1))
        && (es[i].shift == "WO" ==> es[i].hours == 0)
        && (es[i].shift != "WO" ==> IsWorkingCode(es[i].shift) && es[i].hours == HoursOrDefault(emp.workingHours))
  {
    var dim := DaysInMonth(year, month);
    var es := EmployeePlan(emp, map[emp.id := p], year, month);
    FillEveryDay(emp, year, month, 1, dim, CarryOver(p), Threshold(p), GeneratedWeekOffColor);
    FillShape(emp, year, month, 1, dim, {}, CarryOver(p), Threshold(p), GeneratedWeekOffColor);
    FillWeekOffs(emp, year, month, 1, dim, {}, CarryOver(p), Threshold(p), GeneratedWeekOffColor);
    forall i | 0 <= i < |es|
      ensures es[i].shift == "WO" ==> es[i].hours == 0
    {
      assert es[i] in es;
    }
  }

  /** Every generated entry is on a day of the generated month and belongs to an employee with a pattern. */
  lemma {:induction false} MonthPlanOwners(employees: seq<Employee>, patterns: map<int, Pattern>, year: int, month: int)
    requires 1 <= month <= 12
    ensures forall e :: e in MonthPlan(employees, patterns, year, month) ==>
      e.month == month && e.year == year && InMonth(year, month, e.day) && e.employeeId in patterns
      && exists emp :: emp in employees && emp.id == e.employeeId
  {
    if |employees| > 0 {
      var init := employees[..|employees| - 1];
      var emp := Last(employees);
      MonthPlanOwners(init, patterns, year, month);
      if emp.id in patterns {
        var p := patterns[emp.id];
        FillShape(emp, year, month, 1, DaysInMonth(year, month), {}, CarryOver(p), Threshold(p), GeneratedWeekOffColor);
      }
      forall e | e in MonthPlan(init, patterns, year, month)
        ensures exists emp :: emp in employees && emp.id == e.employeeId
      {
        var w :| w in init && w.id == e.employeeId;
        assert w in employees;
      }
    }
  }

  /** With distinct employee ids, the generated entries have unique keys. */
  lemma {:induction false} MonthPlanUnique(employees: seq<Employee>, patterns: map<int, Pattern>, year: int, month: int)
    requires 1 <= month <= 12
    requires forall i, j :: 0 <= i < j < |employees| ==> employees[i].id != employees[j].id
    ensures UniqueKeys(MonthPlan(employees, patterns, year, month))
  {
    if |employees| > 0 {
      var init := employees[..|employees| - 1];
      var emp := Last(employees);
      MonthPlanUnique(init, patterns, year, month);
      MonthPlanOwners(init, patterns, year, month);
      var mine := EmployeePlan(emp, patterns, year, month);
      if emp.id in patterns {
        var p := patterns[emp.id];
        FillUniqueKeys(emp, year, month, 1, DaysInMonth(year, month), {}, CarryOver(p), Threshold(p), GeneratedWeekOffColor);
        FillShape(emp, year, month, 1, DaysInMonth(year, month), {}, CarryOver(p), Threshold(p), GeneratedWeekOffColor);
      }
      forall x, y | x in MonthPlan(init, patterns, year, month) && y in mine
        ensures KeyOf(x) != KeyOf(y)
      {
        var w :| w in init && w.id == x.employeeId;
        var i :| 0 <= i < |init| && init[i] == w;
        assert employees[i] == w && employees[|employees| - 1] == emp;
      }
      UniqueKeysAppend(MonthPlan(init, patterns, year, month), mine);
    }
  }

  /** Appending the plan to a store with unique keys and nothing yet in the generated month
      keeps keys unique (generation does not clear the month first). */
  lemma AppendPlanUnique(store: seq<Entry>, employees: seq<Employee>, patterns: map<int, Pattern>, year: int, month: int)
    requires 1 <= month <= 12
    requires UniqueKeys(store) && |MonthEntries(store, month, year)| == 0
    requires forall i, j :: 0 <= i < j < |employees| ==> employees[i].id != employees[j].id
    ensures UniqueKeys(store + MonthPlan(employees, patterns, year, month))
  {
    var plan := MonthPlan(employees, patterns, year, month);
    MonthPlanUnique(employees, patterns, year, month);
    MonthPlanOwners(employees, patterns, year, month);
    forall x, y | x in store && y in plan
      ensures KeyOf(x) != KeyOf(y)
    {
      assert x !in MonthEntries(store, month, year);
    }
    UniqueKeysAppend(store, plan);
  }
}
