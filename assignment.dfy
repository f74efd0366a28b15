// The range writes of the schedule screen: a leave or week-off range
// (src/App.tsx:451-542), the bulk manual shift assignment
// (src/App.tsx:724-814), and the rest day written after an AU shift
// (src/App.tsx:160-196). Each produces the entries to store; the store
// itself replaces by key (Schedule.ReplaceByKeys).

module Assignment {

  import opened Wrappers
  import opened Calendar
  import opened ShiftCatalog
  import opened Rotation
  import opened Schedule

  /** The colour of the WO entries the week-off form writes. */
  const WeekOffFormColor := "#6f42c1"

  datatype RangeKind = LeaveRange | WeekOffRange

  /** The entry the leave form or the week-off form writes for one day: hours 0, not automatic. */
  function RangeEntry(kind: RangeKind, emp: Employee, day: int, month: int, year: int): Entry {
    match kind
    case LeaveRange => LeaveEntry(emp, day, month, year)
    case WeekOffRange => WeekOffEntry(emp, day, month, year, WeekOffFormColor, false)
  }

  function RangeEntries(kind: RangeKind, emp: Employee, days: seq<int>, month: int, year: int): seq<Entry> {
    seq(|days|, i requires 0 <= i < |days| => RangeEntry(kind, emp, days[i], month, year))
  }

  /** What addLeave / addWeekOff write: one entry per day of the current month between start
      and end. A date that does not parse compares false, so the loop does not run. */
  function RangePlan(kind: RangeKind, emp: Employee, start: Date, end: Date, year: int, month: int): seq<Entry> {
    if ValidDate(start) && ValidDate(end) then RangeEntries(kind, emp, WalkDays(start, end, year, month), month, year)
    else []
  }

  /** The loop of addLeave / addWeekOff over the dates from start to end. */
  method CollectRange(kind: RangeKind, emp: Employee, start: Date, end: Date, year: int, month: int)
    returns (entries: seq<Entry>)
    ensures entries == RangePlan(kind, emp, start, end, year, month)
  {
    entries := [];
    if !ValidDate(start) || !ValidDate(end) {
      return;
    }
    var d := start;
    ghost var visited: seq<int> := [];
    while AtOrBefore(d, end)
      invariant ValidDate(d)
      invariant visited + WalkDays(d, end, year, month) == WalkDays(start, end, year, month)
      invariant entries == RangeEntries(kind, emp, visited, month, year)
      decreases DateOrd(end) - DateOrd(d)
    {
      DateOrdMonotone(d, end);
      WalkStep(start, d, end, year, month, visited);
      if d.year == year && d.month == month {
        entries := entries + [RangeEntry(kind, emp, d.day, month, year)];
        visited := visited + [d.day];
      } else {
        assert visited + [] == visited;
      }
      d := NextDate(d);
    }
    assert visited == WalkDays(start, end, year, month);
  }

  /** A range writes exactly the employee's days of the current month between start and end,
      each once, as L (leave) or WO (week-off) with hours 0 and not automatic. */
  lemma RangePlanFacts(kind: RangeKind, emp: Employee, start: Date, end: Date, year: int, month: int)
    requires ValidDate(start) && ValidDate(end)
    ensures var plan := RangePlan(kind, emp, start, end, year, month);
      UniqueKeys(plan)
      && (forall e :: e in plan ==>
            e.employeeId == emp.id && e.month == month && e.year == year && InMonth(year, month, e.day)
            && AtOrBefore(start, Date(year, month, e.day)) && AtOrBefore(Date(year, month, e.day), end)
            && e.shift == (if kind == LeaveRange then "L" else "WO") && e.hours == 0 && !e.isAutoAssigned)
      && (forall day ::
            (InMonth(year, month, day) && AtOrBefore(start, Date(year, month, day)) && AtOrBefore(Date(year, month, day), end))
            ==> Key(emp.id, day, month, year) in KeySet(plan))
  {
    var days := WalkDays(start, end, year, month);
    var plan := RangePlan(kind, emp, start, end, year, month);
    WalkDaysIncreasing(start, end, year, month);
    forall e | e in plan
      ensures InMonth(year, month, e.day)
      ensures AtOrBefore(start, Date(year, month, e.day)) && AtOrBefore(Date(year, month, e.day), end)
    {
      var i :| 0 <= i < |plan| && plan[i] == e;
      WalkDaysMembers(start, end, year, month, days[i]);
    }
    forall day | InMonth(year, month, day) && AtOrBefore(start, Date(year, month, day)) && AtOrBefore(Date(year, month, day), end)
      ensures Key(emp.id, day, month, year) in KeySet(plan)
    {
      WalkDaysMembers(start, end, year, month, day);
      var i :| 0 <= i < |days| && days[i] == day;
      assert KeyOf(plan[i]) == Key(emp.id, day, month, year);
    }
  }

  datatype Distribution = AutoDays | SpecificDays

  /** The manual assignment form; a date field left empty is None. */
  datatype ManualRequest = ManualRequest(
    employeeId: int, selectedShift: string, startDate: Option<Date>, endDate: Option<Date>,
    distribution: Distribution, specificDays: seq<int>)

  datatype Rejection = MissingFields | EmployeeNotFound | ShiftNotFound | OutsideMonth

  datatype Checked = Rejected(why: Rejection) | Accepted(emp: Employee, shift: ShiftDef, start: Date, end: Date)

  /** getMonth() / getFullYear() of the date equal the current ones (an unparsable date gives NaN). */
  predicate InCurrentMonth(d: Date, year: int, month: int) {
    ValidDate(d) && d.year == year && d.month == month
  }

  /** The checks that end applyManualShiftAssignment early, in the source's order. */
  function CheckRequest(req: ManualRequest, employees: seq<Employee>, year: int, month: int): Checked {
    if req.employeeId == 0 || req.selectedShift == "" || req.startDate.None? || req.endDate.None? then Rejected(MissingFields)
    else match FindEmployee(employees, req.employeeId)
      case None => Rejected(EmployeeNotFound)
      case Some(emp) =>
        match Find(req.selectedShift)
        case None => Rejected(ShiftNotFound)
        case Some(shift) =>
          if !InCurrentMonth(req.startDate.value, year, month) || !InCurrentMonth(req.endDate.value, year, month) then
            Rejected(OutsideMonth)
          else Accepted(emp, shift, req.startDate.value, req.endDate.value)
  }

  /** Whether the loop assigns a visited day: in manual mode only the chosen days (week-offs
      included); in auto mode every day except the employee's week-off days. */
  predicate Assigns(req: ManualRequest, emp: Employee, year: int, month: int, day: int)
    requires InMonth(year, month, day)
  {
    (req.distribution == SpecificDays ==> day in req.specificDays)
    && (req.distribution == AutoDays ==> !IsWeekOffDay(emp, year, month, day))
  }

  function AssignedDays(req: ManualRequest, emp: Employee, year: int, month: int, days: seq<int>): seq<int> {
    if |days| == 0 then []
    else
      var day := Last(days);
      AssignedDays(req, emp, year, month, days[..|days| - 1])
        + (if InMonth(year, month, day) && Assigns(req, emp, year, month, day) then [day] else [])
  }

  /** The entry of one assigned day: the raw workingHours (not `|| 8`), not automatic. */
  function AssignmentEntry(emp: Employee, shift: ShiftDef, day: int, month: int, year: int): Entry {
    ShiftEntry(emp, day, month, year, shift, emp.workingHours, false)
  }

  function AssignmentEntries(emp: Employee, shift: ShiftDef, days: seq<int>, month: int, year: int): seq<Entry> {
    seq(|days|, i requires 0 <= i < |days| => AssignmentEntry(emp, shift, days[i], month, year))
  }

  /** The entries already stored (in the snapshot) under the keys of the new entries, in order. */
  function Existing(snapshot: seq<Entry>, added: seq<Entry>): seq<Entry> {
    if |added| == 0 then []
    else
      Existing(snapshot, added[..|added| - 1])
        + match FindEntry(snapshot, KeyOf(Last(added))) case Some(e) => [e] case None => []
  }

  /** The entries the loop builds for an accepted request. */
  function ManualEntries(req: ManualRequest, emp: Employee, shift: ShiftDef, start: Date, end: Date, year: int, month: int): seq<Entry>
    requires ValidDate(start) && ValidDate(end)
  {
    AssignmentEntries(emp, shift, AssignedDays(req, emp, year, month, WalkDays(start, end, year, month)), month, year)
  }

  /** The loop of applyManualShiftAssignment (src/App.tsx:760-814): the new entries and the
      existing ones they will replace. */
  method CollectAssignment(req: ManualRequest, emp: Employee, shift: ShiftDef, start: Date, end: Date,
                           snapshot: seq<Entry>, year: int, month: int)
    returns (newEntries: seq<Entry>, existingEntries: seq<Entry>)
    requires InCurrentMonth(start, year, month) && InCurrentMonth(end, year, month)
    ensures newEntries == ManualEntries(req, emp, shift, start, end, year, month)
    ensures existingEntries == Existing(snapshot, newEntries)
  {
    newEntries, existingEntries := [], [];
    var d := start;
    ghost var visited: seq<int> := [];
    while AtOrBefore(d, end)
      invariant ValidDate(d) && AtOrBefore(start, d)
      invariant visited + WalkDays(d, end, year, month) == WalkDays(start, end, year, month)
      invariant newEntries == AssignmentEntries(emp, shift, AssignedDays(req, emp, year, month, visited), month, year)
      invariant existingEntries == Existing(snapshot, newEntries)
      decreases DateOrd(end) - DateOrd(d)
    {
      DateOrdMonotone(d, end);
      WalkStep(start, d, end, year, month, visited);
      assert d == Date(year, month, d.day);
      var day := d.day;
      AssignStep(req, emp, shift, snapshot, year, month, visited, day);
      if !(req.distribution == SpecificDays && day !in req.specificDays) {
        var isWeekOff := IsWeekOff(emp.weekOffPattern, Weekday(d));
        if !(isWeekOff && req.distribution == AutoDays) {
          var existingEntry := FindEntry(snapshot, Key(emp.id, day, month, year));
          if existingEntry.Some? {
            existingEntries := existingEntries + [existingEntry.value];
          }
          newEntries := newEntries + [AssignmentEntry(emp, shift, day, month, year)];
        }
      }
      visited := visited + [day];
      d := NextDate(d);
    }
    assert visited == WalkDays(start, end, year, month);
  }

  /** One visited day extends the assigned days, the entries and the existing ones. */
  lemma AssignStep(req: ManualRequest, emp: Employee, shift: ShiftDef, snapshot: seq<Entry>, year: int, month: int,
                   visited: seq<int>, day: int)
    requires InMonth(year, month, day)
    ensures var before := AssignmentEntries(emp, shift, AssignedDays(req, emp, year, month, visited), month, year);
      var entry := AssignmentEntry(emp, shift, day, month, year);
      AssignmentEntries(emp, shift, AssignedDays(req, emp, year, month, visited + [day]), month, year)
        == before + (if Assigns(req, emp, year, month, day) then [entry] else [])
      && Existing(snapshot, before + [entry])
        == Existing(snapshot, before) + match FindEntry(snapshot, KeyOf(entry)) case Some(e) => [e] case None => []
  {
    assert (visited + [day])[..|visited|] == visited;
    var before := AssignmentEntries(emp, shift, AssignedDays(req, emp, year, month, visited), month, year);
    var entry := AssignmentEntry(emp, shift, day, month, year);
    assert (before + [entry])[..|before|] == before;
  }

  /** The new entries are the employee's, one per assigned day, with the form's shift, the
      raw working hours and not automatic; a day is assigned exactly when it lies between
      start and end and passes the mode's test. */
  lemma ManualEntriesFacts(req: ManualRequest, emp: Employee, shift: ShiftDef, start: Date, end: Date, year: int, month: int)
    requires InCurrentMonth(start, year, month) && InCurrentMonth(end, year, month)
    ensures var added := ManualEntries(req, emp, shift, start, end, year, month);
      UniqueKeys(added)
      && (forall e :: e in added ==>
            e.employeeId == emp.id && e.month == month && e.year == year && InMonth(year, month, e.day)
            && e.shift == shift.code && e.hours == emp.workingHours && !e.isAutoAssigned)
      && (forall day :: InMonth(year, month, day) ==>
            (Key(emp.id, day, month, year) in KeySet(added) <==>
              start.day <= day <= end.day && Assigns(req, emp, year, month, day)))
  {
    ManualEntriesShape(req, emp, shift, start, end, year, month);
    forall day | InMonth(year, month, day)
      ensures Key(emp.id, day, month, year) in KeySet(ManualEntries(req, emp, shift, start, end, year, month))
          <==> start.day <= day <= end.day && Assigns(req, emp, year, month, day)
    {
      ManualEntriesDay(req, emp, shift, start, end, year, month, day);
    }
  }

  lemma ManualEntriesShape(req: ManualRequest, emp: Employee, shift: ShiftDef, start: Date, end: Date, year: int, month: int)
    requires InCurrentMonth(start, year, month) && InCurrentMonth(end, year, month)
    ensures var added := ManualEntries(req, emp, shift, start, end, year, month);
      UniqueKeys(added)
      && (forall e :: e in added ==>
            e.employeeId == emp.id && e.month == month && e.year == year && InMonth(year, month, e.day)
            && e.shift == shift.code && e.hours == emp.workingHours && !e.isAutoAssigned)
  {
    var walk := WalkDays(start, end, year, month);
    var days := AssignedDays(req, emp, year, month, walk);
    var added := ManualEntries(req, emp, shift, start, end, year, month);
    WalkDaysIncreasing(start, end, year, month);
    AssignedDaysSpec(req, emp, year, month, walk);
    forall e | e in added
      ensures InMonth(year, month, e.day)
    {
      var i :| 0 <= i < |added| && added[i] == e;
      assert days[i] in days;
    }
  }

  lemma ManualEntriesDay(req: ManualRequest, emp: Employee, shift: ShiftDef, start: Date, end: Date, year: int, month: int,
                         day: int)
    requires InCurrentMonth(start, year, month) && InCurrentMonth(end, year, month) && InMonth(year, month, day)
    ensures Key(emp.id, day, month, year) in KeySet(ManualEntries(req, emp, shift, start, end, year, month))
        <==> start.day <= day <= end.day && Assigns(req, emp, year, month, day)
  {
    var walk := WalkDays(start, end, year, month);
    var days := AssignedDays(req, emp, year, month, walk);
    var added := ManualEntries(req, emp, shift, start, end, year, month);
    AssignedDaysSpec(req, emp, year, month, walk);
    WalkDaysMembers(start, end, year, month, day);
    if Key(emp.id, day, month, year) in KeySet(added) {
      var e :| e in added && KeyOf(e) == Key(emp.id, day, month, year);
      var i :| 0 <= i < |added| && added[i] == e;
      assert days[i] == day;
    }
    if start.day <= day <= end.day && Assigns(req, emp, year, month, day) {
      var i :| 0 <= i < |days| && days[i] == day;
      assert KeyOf(added[i]) == Key(emp.id, day, month, year);
    }
  }

  /** AssignedDays keeps exactly the in-month days that pass the test, in their order. */
  lemma {:induction false} AssignedDaysSpec(req: ManualRequest, emp: Employee, year: int, month: int, days: seq<int>)
    ensures var r := AssignedDays(req, emp, year, month, days);
      (forall day :: day in r <==> day in days && InMonth(year, month, day) && Assigns(req, emp, year, month, day))
      && (Increasing(days) ==> Increasing(r))
  {
    if |days| > 0 {
      var init := days[..|days| - 1];
      assert days == init + [Last(days)];
      AssignedDaysSpec(req, emp, year, month, init);
      var r := AssignedDays(req, emp, year, month, days);
      var r0 := AssignedDays(req, emp, year, month, init);
      if Increasing(days) {
        assert Increasing(init);
        forall x | x in r0
          ensures x < Last(days)
        {
          var i :| 0 <= i < |init| && init[i] == x;
        }
        forall i, j | 0 <= i < j < |r|
          ensures r[i] < r[j]
        {
          if j >= |r0| {
            assert r[j] == Last(days) && r[i] == r0[i] && r0[i] in r0;
          } else {
            assert r[i] == r0[i] && r[j] == r0[j];
          }
        }
      }
    }
  }

  /** The confirmation is asked exactly when some new entry's key is already stored. */
  lemma {:induction false} ExistingSpec(snapshot: seq<Entry>, added: seq<Entry>)
    ensures |Existing(snapshot, added)| > 0 <==> exists e :: e in added && KeyOf(e) in KeySet(snapshot)
    ensures forall x :: x in Existing(snapshot, added) ==> x in snapshot && KeyOf(x) in KeySet(added)
  {
    if |added| > 0 {
      var init := added[..|added| - 1];
      assert added == init + [Last(added)];
      ExistingSpec(snapshot, init);
      if exists e :: e in added && KeyOf(e) in KeySet(snapshot) {
        var e :| e in added && KeyOf(e) in KeySet(snapshot);
        if e != Last(added) {
          assert e in init;
        }
      }
    }
  }

  /** The OFF entry autoAssignHolidayAfterAU appends after an AU on day `day`: only when the next
      day is in the same month and the snapshot it reads has no entry under that key. */
  function FollowOn(employees: seq<Employee>, snapshot: seq<Entry>, employeeId: int, day: int, month: int, year: int): seq<Entry>
    requires 1 <= month <= 12
  {
    match FindEmployee(employees, employeeId)
    case None => []
    case Some(emp) =>
      if 0 <= day && day + 1 <= DaysInMonth(year, month) && FindEntry(snapshot, Key(employeeId, day + 1, month, year)).None? then
        [RestEntry(emp, day + 1, month, year)]
      else []
  }

  /** The rest day is written exactly under those conditions, as OFF with hours 0 on the next day. */
  lemma FollowOnSpec(employees: seq<Employee>, snapshot: seq<Entry>, employeeId: int, day: int, month: int, year: int)
    requires 1 <= month <= 12 && 1 <= day
    ensures var r := FollowOn(employees, snapshot, employeeId, day, month, year);
      (|r| > 0 <==> FindEmployee(employees, employeeId).Some? && day + 1 <= DaysInMonth(year, month)
                    && Key(employeeId, day + 1, month, year) !in KeySet(snapshot))
      && |r| <= 1
      && (forall e :: e in r ==> KeyOf(e) == Key(employeeId, day + 1, month, year) && e.shift == "OFF"
                                 && e.hours == 0 && e.isAutoAssigned && InMonth(year, month, e.day))
  {
  }

  /** newEntries.forEach(autoAssignHolidayAfterAU): every call reads the same snapshot. */
  function FollowOns(employees: seq<Employee>, snapshot: seq<Entry>, employeeId: int, added: seq<Entry>): seq<Entry>
    requires forall e :: e in added ==> 1 <= e.month <= 12
  {
    if |added| == 0 then []
    else
      var e := Last(added);
      FollowOns(employees, snapshot, employeeId, added[..|added| - 1])
        + FollowOn(employees, snapshot, employeeId, e.day, e.month, e.year)
  }
}
