// The schedule screen's state (src/App.tsx:38-41): the employees, the one
// array of entries across all months and the month on display, with the
// handlers that change them. Every write to the entries is "drop the same
// key, then append"; a handler that reads the entries sees the array as it
// was when the handler started (React's closure), which the functions below
// take as the snapshot parameter `store`.

module ScheduleScreen {

  import opened Wrappers
  import opened Text
  import opened Seqs
  import opened Calendar
  import opened ShiftCatalog
  import opened Rotation
  import opened Schedule
  import opened PatternAnalysis
  import opened NextMonth
  import opened AutoFill
  import opened Assignment

  /** The add-employee form. */
  datatype NewEmployee = NewEmployee(name: string, position: string, weekOffPattern: WeekOffPattern, workingHours: int)

  /** Math.max(...employees.map(e => e.id), 0). */
  function MaxId(employees: seq<Employee>): (m: int)
    ensures m >= 0
    ensures forall e :: e in employees ==> e.id <= m
    ensures m == 0 || exists e :: e in employees && e.id == m
  {
    if |employees| == 0 then 0
    else
      var rest := MaxId(employees[1..]);
      assert forall e :: e in employees[1..] ==> e in employees;
      if employees[0].id > rest then employees[0].id else rest
  }

  predicate DistinctIds(employees: seq<Employee>) {
    forall i, j :: 0 <= i < j < |employees| ==> employees[i].id != employees[j].id
  }

  /** addEmployee: nothing for a blank name; otherwise the employee with the next id, appended.
      The name is stored as typed (only the test trims it); today is the join date. */
  function AddedEmployees(employees: seq<Employee>, form: NewEmployee, today: string): seq<Employee> {
    if Trim(form.name) == [] then employees
    else employees + [Employee(MaxId(employees) + 1, form.name, form.position, "active", today, form.weekOffPattern, form.workingHours)]
  }

  /** A new employee's id is larger than every existing id, so ids stay distinct. */
  lemma AddEmployeeFreshId(employees: seq<Employee>, form: NewEmployee, today: string)
    requires DistinctIds(employees)
    ensures var r := AddedEmployees(employees, form, today);
      DistinctIds(r)
      && (Trim(form.name) == [] ==> r == employees)
      && (Trim(form.name) != [] ==>
            (|r| == |employees| + 1 && r[..|employees|] == employees
             && Last(r).id > 0 && forall e :: e in employees ==> e.id < Last(r).id))
  {
    var r := AddedEmployees(employees, form, today);
    if Trim(form.name) != [] {
      forall i, j | 0 <= i < j < |r|
        ensures r[i].id != r[j].id
      {
        if j == |employees| {
          assert r[i] in employees;
        }
      }
    }
  }

  /** deleteEmployee on the employee list. */
  function WithoutEmployeeId(employees: seq<Employee>, id: int): (r: seq<Employee>)
    ensures forall e :: e in r <==> e in employees && e.id != id
  {
    Filter(employees, (e: Employee) => e.id != id)
  }

  /** A known code typed into a cell: its catalogue entry replaces the cell with hours
      `workingHours || 8`, and an AU shift adds the rest day judged against the snapshot. */
  function StoreShift(employees: seq<Employee>, store: seq<Entry>, emp: Employee, day: int, year: int, month: int,
                      s: ShiftDef): seq<Entry>
    requires 1 <= month <= 12
  {
    ReplaceByKeys(store, [ShiftEntry(emp, day, month, year, s, HoursOrDefault(emp.workingHours), false)])
    + (if s.code == "AU" then FollowOn(employees, store, emp.id, day, month, year) else [])
  }

  /** handleCellClick: `code` is what the prompt returned (None when cancelled). A blank code
      clears the key, an unknown one changes nothing, a known one (any letter case) is stored
      in the catalogue's form, followed by the AU rest day. */
  function CellEditStore(employees: seq<Employee>, store: seq<Entry>, employeeId: int, day: int, year: int, month: int,
                         code: Option<string>): seq<Entry>
    requires InMonth(year, month, day)
  {
    match FindEmployee(employees, employeeId)
    case None => store
    case Some(emp) =>
      match code
      case None => store
      case Some(c) =>
        if Trim(c) == [] then WithoutKeys(store, {Key(employeeId, day, month, year)})
        else
          match FindIgnoreCase(c)
          case None => store
          case Some(s) => StoreShift(employees, store, emp, day, year, month, s)
  }

  /** A cancelled prompt, an unknown employee or an unknown code changes nothing; a known
      code is looked up ignoring case. */
  lemma CellEditCases(employees: seq<Employee>, store: seq<Entry>, employeeId: int, day: int, year: int, month: int,
                      code: Option<string>)
    requires InMonth(year, month, day)
    ensures var r := CellEditStore(employees, store, employeeId, day, year, month, code);
      var emp := FindEmployee(employees, employeeId);
      (emp.None? || code.None? ==> r == store)
      && (emp.Some? && code.Some? && Trim(code.value) != [] ==>
            if FindIgnoreCase(code.value).None? then r == store
            else
              var s := FindIgnoreCase(code.value).value;
              s in Catalog() && ToUpper(s.code) == ToUpper(code.value)
              && r == StoreShift(employees, store, emp.value, day, year, month, s))
  {
  }

  /** Every edit keeps entries on days of their month. */
  lemma CellEditDates(employees: seq<Employee>, store: seq<Entry>, employeeId: int, day: int, year: int, month: int,
                      code: Option<string>)
    requires InMonth(year, month, day) && ValidDates(store)
    ensures ValidDates(CellEditStore(employees, store, employeeId, day, year, month, code))
  {
    CellEditCases(employees, store, employeeId, day, year, month, code);
    FollowOnSpec(employees, store, employeeId, day, month, year);
  }

  /** A blank code leaves no entry under the cell's key and keeps every other entry. */
  lemma CellEditClears(employees: seq<Employee>, store: seq<Entry>, employeeId: int, day: int, year: int, month: int,
                       code: string)
    requires InMonth(year, month, day) && FindEmployee(employees, employeeId).Some? && Trim(code) == []
    ensures var r := CellEditStore(employees, store, employeeId, day, year, month, Some(code));
      var k := Key(employeeId, day, month, year);
      FindEntry(r, k).None? && (forall e :: KeyOf(e) != k ==> (e in r <==> e in store))
      && (UniqueKeys(store) ==> UniqueKeys(r))
  {
    var k := Key(employeeId, day, month, year);
    if UniqueKeys(store) {
      WithoutKeysUnique(store, {k});
    }
  }

  /** Storing a known code leaves that code's entry as the only one under the cell's key,
      with hours `workingHours || 8`, not auto-assigned; keys stay unique. */
  lemma {:induction false} StoreShiftFacts(employees: seq<Employee>, store: seq<Entry>, emp: Employee, day: int, year: int,
                                           month: int, s: ShiftDef)
    requires InMonth(year, month, day) && UniqueKeys(store) && FindEmployee(employees, emp.id) == Some(emp)
    ensures var r := StoreShift(employees, store, emp, day, year, month, s);
      var k := Key(emp.id, day, month, year);
      UniqueKeys(r)
      && FindEntry(r, k).Some? && FindEntry(r, k).value.shift == s.code
      && FindEntry(r, k).value.hours == HoursOrDefault(emp.workingHours)
      && !FindEntry(r, k).value.isAutoAssigned
      && (forall e :: KeyOf(e) != k && KeyOf(e) != Key(emp.id, day + 1, month, year) ==> (e in r <==> e in store))
  {
    var entry := ShiftEntry(emp, day, month, year, s, HoursOrDefault(emp.workingHours), false);
    var replaced := ReplaceByKeys(store, [entry]);
    ReplaceByKeysSpec(store, [entry]);
    assert KeySet([entry]) == {KeyOf(entry)};
    var rest := if s.code == "AU" then FollowOn(employees, store, emp.id, day, month, year) else [];
    FollowOnSpec(employees, store, emp.id, day, month, year);
    forall x, y | x in replaced && y in rest
      ensures KeyOf(x) != KeyOf(y)
    {
      if x != entry {
        assert x in store;
      }
    }
    UniqueKeysAppend(replaced, rest);
    FindEntryUnique(replaced + rest, entry);
  }

  /** An accepted assignment's writes: the new entries replace by key, each AU day adds its
      rest day (judged against the snapshot), and with three or more new entries an accepted
      auto-fill appends the rest of the month, computed from the snapshot plus the new entries. */
  function ApplyStore(employees: seq<Employee>, store: seq<Entry>, emp: Employee, shift: ShiftDef, added: seq<Entry>,
                      year: int, month: int, confirmAutoFill: bool): seq<Entry>
    requires 1 <= month <= 12 && ValidDates(store + added)
  {
    ReplaceByKeys(store, added)
    + (if shift.code == "AU" then FollowOns(employees, store, emp.id, added) else [])
    + (if |added| >= 3 && confirmAutoFill then AutoFillPlan(employees, emp.id, store + added, year, month) else [])
  }

  /** What applyManualShiftAssignment leaves in the store: nothing changes when a check fails
      or when existing entries would be replaced and the user declines. */
  function ManualStore(employees: seq<Employee>, store: seq<Entry>, req: ManualRequest, year: int, month: int,
                       confirmReplace: bool, confirmAutoFill: bool): seq<Entry>
    requires 1 <= month <= 12 && ValidDates(store)
  {
    match CheckRequest(req, employees, year, month)
    case Rejected(_) => store
    case Accepted(emp, shift, start, end) =>
      var added := ManualEntries(req, emp, shift, start, end, year, month);
      ManualEntriesFacts(req, emp, shift, start, end, year, month);
      if |Existing(store, added)| > 0 && !confirmReplace then store
      else ApplyStore(employees, store, emp, shift, added, year, month, confirmAutoFill)
  }

  /** The outcomes of an assignment: a rejected request or a declined replacement changes
      nothing; otherwise the new entries, all on days of the month, are written. */
  lemma ManualCases(employees: seq<Employee>, store: seq<Entry>, req: ManualRequest, year: int, month: int,
                    confirmReplace: bool, confirmAutoFill: bool)
    requires 1 <= month <= 12 && ValidDates(store)
    ensures var c := CheckRequest(req, employees, year, month);
      var r := ManualStore(employees, store, req, year, month, confirmReplace, confirmAutoFill);
      (c.Rejected? ==> r == store)
      && (c.Accepted? ==>
            var added := ManualEntries(req, c.emp, c.shift, c.start, c.end, year, month);
            (|Existing(store, added)| > 0 && !confirmReplace ==> r == store)
            && (|Existing(store, added)| == 0 || confirmReplace ==>
                  ValidDates(store + added) && UniqueKeys(added)
                  && (forall e :: e in added ==> e.employeeId == c.emp.id && e.month == month && e.year == year)
                  && r == ApplyStore(employees, store, c.emp, c.shift, added, year, month, confirmAutoFill)))
  {
    var c := CheckRequest(req, employees, year, month);
    if c.Accepted? {
      ManualEntriesFacts(req, c.emp, c.shift, c.start, c.end, year, month);
    }
  }

  /** A request with an empty field, an unknown employee or shift, or a date outside the
      current month, changes nothing; so does declining the replacement of existing entries. */
  lemma ManualAborts(employees: seq<Employee>, store: seq<Entry>, req: ManualRequest, year: int, month: int,
                     confirmReplace: bool, confirmAutoFill: bool)
    requires 1 <= month <= 12 && ValidDates(store)
    ensures (req.employeeId == 0 || req.selectedShift == "" || req.startDate.None? || req.endDate.None?
             || FindEmployee(employees, req.employeeId).None? || Find(req.selectedShift).None?
             || !InCurrentMonth(req.startDate.value, year, month) || !InCurrentMonth(req.endDate.value, year, month))
            ==> ManualStore(employees, store, req, year, month, confirmReplace, confirmAutoFill) == store
    ensures CheckRequest(req, employees, year, month).Accepted? && !confirmReplace ==>
      var c := CheckRequest(req, employees, year, month);
      var added := ManualEntries(req, c.emp, c.shift, c.start, c.end, year, month);
      (exists e :: e in added && KeyOf(e) in KeySet(store))
      ==> ManualStore(employees, store, req, year, month, confirmReplace, confirmAutoFill) == store
  {
    ManualCases(employees, store, req, year, month, confirmReplace, confirmAutoFill);
    var c := CheckRequest(req, employees, year, month);
    if c.Accepted? {
      ExistingSpec(store, ManualEntries(req, c.emp, c.shift, c.start, c.end, year, month));
    }
  }

  /** The rest days of an AU assignment: each is an auto-assigned OFF on a day of its month,
      the day after one of the new entries, under a key the snapshot does not hold. */
  lemma {:induction false} FollowOnsFacts(employees: seq<Employee>, store: seq<Entry>, employeeId: int, added: seq<Entry>)
    requires forall e :: e in added ==> 1 <= e.month <= 12 && 1 <= e.day
    ensures forall r :: r in FollowOns(employees, store, employeeId, added) ==>
      InMonth(r.year, r.month, r.day) && r.shift == "OFF" && r.isAutoAssigned && r.employeeId == employeeId
      && KeyOf(r) !in KeySet(store)
      && exists a :: a in added && KeyOf(r) == Key(employeeId, a.day + 1, a.month, a.year)
  {
    if |added| > 0 {
      var init := added[..|added| - 1];
      var a := Last(added);
      assert forall e :: e in init ==> e in added;
      FollowOnsFacts(employees, store, employeeId, init);
      FollowOnSpec(employees, store, employeeId, a.day, a.month, a.year);
    }
  }

  /** newEntries.forEach(autoAssignHolidayAfterAU): the rest days to append, each judged
      against the same snapshot. */
  method RestDaysAfterAU(employees: seq<Employee>, snapshot: seq<Entry>, employeeId: int, added: seq<Entry>)
    returns (restDays: seq<Entry>)
    requires forall e :: e in added ==> 1 <= e.month <= 12
    ensures restDays == FollowOns(employees, snapshot, employeeId, added)
  {
    restDays := [];
    for i := 0 to |added|
      invariant restDays == FollowOns(employees, snapshot, employeeId, added[..i])
    {
      var e := added[i];
      assert added[..i + 1][..i] == added[..i];
      restDays := restDays + FollowOn(employees, snapshot, employeeId, e.day, e.month, e.year);
    }
    assert added[..|added|] == added;
  }

  /** Every write of an assignment lies on a day of its month. */
  lemma ApplyStoreDates(employees: seq<Employee>, store: seq<Entry>, emp: Employee, shift: ShiftDef, added: seq<Entry>,
                        year: int, month: int, confirmAutoFill: bool)
    requires 1 <= month <= 12 && ValidDates(store + added)
    ensures ValidDates(ApplyStore(employees, store, emp, shift, added, year, month, confirmAutoFill))
  {
    assert forall e :: e in added ==> e in store + added;
    assert forall e :: e in store ==> e in store + added;
    FollowOnsFacts(employees, store, emp.id, added);
    AutoFillFacts(employees, emp.id, store + added, year, month);
  }

  /** Writing a shift other than AU keeps keys unique (the auto-fill never writes a key of
      the snapshot or of the new entries) and leaves each new entry as the only one under
      its key. */
  lemma ApplyStoreUnique(employees: seq<Employee>, store: seq<Entry>, emp: Employee, shift: ShiftDef, added: seq<Entry>,
                         year: int, month: int, confirmAutoFill: bool)
    requires 1 <= month <= 12 && ValidDates(store + added)
    requires UniqueKeys(store) && UniqueKeys(added) && shift.code != "AU"
    ensures var r := ApplyStore(employees, store, emp, shift, added, year, month, confirmAutoFill);
      UniqueKeys(r) && forall e :: e in added ==> FindEntry(r, KeyOf(e)) == Some(e)
  {
    var replaced := ReplaceByKeys(store, added);
    ReplaceByKeysSpec(store, added);
    var given := store + added;
    var auto := if |added| >= 3 && confirmAutoFill then AutoFillPlan(employees, emp.id, given, year, month) else [];
    AutoFillFacts(employees, emp.id, given, year, month);
    var r := replaced + auto;
    assert r == ApplyStore(employees, store, emp, shift, added, year, month, confirmAutoFill);
    forall x, y | x in replaced && y in auto
      ensures KeyOf(x) != KeyOf(y)
    {
      assert x in added || x in store;
      assert x in given;
    }
    UniqueKeysAppend(replaced, auto);
    forall e | e in added
      ensures FindEntry(r, KeyOf(e)) == Some(e)
    {
      assert e in replaced;
      FindEntryUnique(r, e);
    }
  }

  /** An applied assignment of a shift other than AU keeps keys unique, and when it changes
      the store its new entries are the only ones under their keys. */
  lemma ManualUnique(employees: seq<Employee>, store: seq<Entry>, req: ManualRequest, year: int, month: int,
                     confirmReplace: bool, confirmAutoFill: bool)
    requires 1 <= month <= 12 && ValidDates(store) && UniqueKeys(store)
    requires CheckRequest(req, employees, year, month).Accepted?
    requires CheckRequest(req, employees, year, month).shift.code != "AU"
    ensures var c := CheckRequest(req, employees, year, month);
      var added := ManualEntries(req, c.emp, c.shift, c.start, c.end, year, month);
      var r := ManualStore(employees, store, req, year, month, confirmReplace, confirmAutoFill);
      UniqueKeys(r)
      && (r != store ==> forall e :: e in added ==> FindEntry(r, KeyOf(e)) == Some(e))
  {
    var c := CheckRequest(req, employees, year, month);
    var added := ManualEntries(req, c.emp, c.shift, c.start, c.end, year, month);
    ManualCases(employees, store, req, year, month, confirmReplace, confirmAutoFill);
    if |Existing(store, added)| == 0 || confirmReplace {
      ApplyStoreUnique(employees, store, c.emp, c.shift, added, year, month, confirmAutoFill);
    }
  }

  /** The AU quirk: two adjacent AU days whose second day has no stored entry leave two
      entries under the second day's key, the AU and the rest day. */
  lemma AdjacentAUDuplicates(employees: seq<Employee>, store: seq<Entry>, employeeId: int, emp: Employee,
                             added: seq<Entry>, i: int, year: int, month: int)
    requires 1 <= month <= 12
    requires FindEmployee(employees, employeeId) == Some(emp)
    requires forall e :: e in added ==> e.month == month && e.year == year
    requires 0 <= i < |added| - 1 && 1 <= added[i].day && added[i + 1].day == added[i].day + 1
    requires added[i + 1].employeeId == employeeId
    requires added[i + 1].day <= DaysInMonth(year, month)
    requires Key(employeeId, added[i + 1].day, month, year) !in KeySet(store)
    ensures var r := ReplaceByKeys(store, added) + FollowOns(employees, store, employeeId, added);
      !UniqueKeys(r)
  {
    var follow := FollowOns(employees, store, employeeId, added);
    FollowOnsContain(employees, store, employeeId, added, i);
    var rest := RestEntry(emp, added[i].day + 1, month, year);
    var replaced := ReplaceByKeys(store, added);
    assert added[i + 1] in replaced by {
      assert replaced == WithoutKeys(store, KeySet(added)) + added;
    }
    assert added[i + 1] in added;
    assert KeyOf(added[i + 1]) == KeyOf(rest);
    SharedKey(replaced, follow, added[i + 1], rest);
  }

  /** Two lists that each hold an entry under the same key concatenate to a list that is not key-unique. */
  lemma SharedKey(a: seq<Entry>, b: seq<Entry>, x: Entry, y: Entry)
    requires x in a && y in b && KeyOf(x) == KeyOf(y)
    ensures !UniqueKeys(a + b)
  {
    var i :| 0 <= i < |a| && a[i] == x;
    var j :| 0 <= j < |b| && b[j] == y;
    assert (a + b)[i] == x && (a + b)[|a| + j] == y;
  }

  /** Every AU day whose next day is free in the snapshot and in the month gets its rest day. */
  lemma {:induction false} FollowOnsContain(employees: seq<Employee>, store: seq<Entry>, employeeId: int,
                                             added: seq<Entry>, i: int)
    requires forall e :: e in added ==> 1 <= e.month <= 12
    requires 0 <= i < |added| && FindEmployee(employees, employeeId).Some?
    requires 0 <= added[i].day && added[i].day + 1 <= DaysInMonth(added[i].year, added[i].month)
    requires Key(employeeId, added[i].day + 1, added[i].month, added[i].year) !in KeySet(store)
    ensures RestEntry(FindEmployee(employees, employeeId).value, added[i].day + 1, added[i].month, added[i].year)
      in FollowOns(employees, store, employeeId, added)
  {
    var init := added[..|added| - 1];
    if i < |added| - 1 {
      assert init[i] == added[i];
      FollowOnsContain(employees, store, employeeId, init, i);
    }
  }

  /** The patterns analyzeShiftPatterns returns: one per listed employee with working entries. */
  function Patterns(employees: seq<Employee>, store: seq<Entry>, month: int, year: int): map<int, Pattern> {
    map id | id in (set e | e in employees :: e.id) && PatternFor(store, id, month, year).Some?
      :: PatternFor(store, id, month, year).value
  }

  /** The patterns map analyzeShiftPatterns builds is Patterns. */
  lemma AnalyzedPatterns(patterns: map<int, Pattern>, employees: seq<Employee>, store: seq<Entry>, month: int, year: int)
    requires forall id :: id in patterns <==> Listed(employees, id) && PatternFor(store, id, month, year).Some?
    requires forall id :: id in patterns ==> PatternFor(store, id, month, year) == Some(patterns[id])
    ensures patterns == Patterns(employees, store, month, year)
  {
    var q := Patterns(employees, store, month, year);
    forall id
      ensures id in patterns <==> id in q
      ensures id in q ==> q[id] == patterns[id]
    {
      PatternsAt(employees, store, month, year, id);
    }
  }

  lemma PatternsAt(employees: seq<Employee>, store: seq<Entry>, month: int, year: int, id: int)
    ensures var q := Patterns(employees, store, month, year);
      (id in q <==> Listed(employees, id) && PatternFor(store, id, month, year).Some?)
      && (id in q ==> Some(q[id]) == PatternFor(store, id, month, year))
  {
    if Listed(employees, id) {
      var e :| e in employees && e.id == id;
      assert id in (set e | e in employees :: e.id);
    }
  }

  /** The month change to the next month: generation happens only when the current month has
      entries, and its entries are appended without clearing the target month. */
  function NextMonthStore(employees: seq<Employee>, store: seq<Entry>, year: int, month: int): seq<Entry>
    requires 1 <= month <= 12
  {
    if |MonthEntries(store, month, year)| > 0 then
      var next := MonthAfter(year, month);
      store + MonthPlan(employees, Patterns(employees, store, month, year), next.0, next.1)
    else store
  }

  /** Next-month generation: nothing without entries in the current month; otherwise the old
      entries stay, the new ones lie in the next month and belong to employees that had working
      entries this month, and keys stay unique when the next month was empty and ids distinct. */
  lemma NextMonthFacts(employees: seq<Employee>, store: seq<Entry>, year: int, month: int)
    requires 1 <= month <= 12
    ensures var r := NextMonthStore(employees, store, year, month);
      var next := MonthAfter(year, month);
      (|MonthEntries(store, month, year)| == 0 ==> r == store)
      && r[..|store|] == store
      && (forall e :: e in r[|store|..] ==>
            e.month == next.1 && e.year == next.0 && InMonth(next.0, next.1, e.day)
            && exists w :: w in store && w.employeeId == e.employeeId && w.month == month && w.year == year && !IsOffCode(w.shift))
      && (UniqueKeys(store) && DistinctIds(employees) && |MonthEntries(store, next.1, next.0)| == 0 ==> UniqueKeys(r))
  {
    var next := MonthAfter(year, month);
    var patterns := Patterns(employees, store, month, year);
    var r := NextMonthStore(employees, store, year, month);
    if |MonthEntries(store, month, year)| > 0 {
      var plan := MonthPlan(employees, patterns, next.0, next.1);
      assert r[|store|..] == plan;
      MonthPlanOwners(employees, patterns, next.0, next.1);
      forall e | e in plan
        ensures exists w :: w in store && w.employeeId == e.employeeId && w.month == month && w.year == year && !IsOffCode(w.shift)
      {
        PatternForSome(store, e.employeeId, month, year);
      }
      if UniqueKeys(store) && DistinctIds(employees) && |MonthEntries(store, next.1, next.0)| == 0 {
        AppendPlanUnique(store, employees, patterns, next.0, next.1);
      }
    }
  }

  /** The screen: employees, all entries and the month on display (`currentDate`). */
  class ScheduleApp {
    var employees: seq<Employee>
    var entries: seq<Entry>
    var year: int
    var month: int

    /** The month is 1..12 and every entry lies on a day of its month. */
    ghost predicate Valid()
      reads this
    {
      1 <= month <= 12 && ValidDates(entries)
    }

    constructor (year0: int, month0: int)
      requires 1 <= month0 <= 12
      ensures Valid() && employees == [] && entries == [] && year == year0 && month == month0
    {
      employees, entries, year, month := [], [], year0, month0;
    }

    /** addEmployee. */
    method AddEmployee(form: NewEmployee, today: string)
      requires Valid()
      modifies this
      ensures Valid()
      ensures employees == AddedEmployees(old(employees), form, today)
      ensures entries == old(entries) && year == old(year) && month == old(month)
    {
      if Trim(form.name) == [] {
        return;
      }
      var id := MaxId(employees) + 1;
      employees := employees + [Employee(id, form.name, form.position, "active", today, form.weekOffPattern, form.workingHours)];
    }

    /** deleteEmployee: with the confirmation, the employee and exactly its entries go. */
    method DeleteEmployee(id: int, confirm: bool)
      requires Valid()
      modifies this
      ensures Valid()
      ensures if FindEmployee(old(employees), id).Some? && confirm
        then employees == WithoutEmployeeId(old(employees), id) && entries == WithoutEmployee(old(entries), id)
        else employees == old(employees) && entries == old(entries)
      ensures year == old(year) && month == old(month)
    {
      var employee := FindEmployee(employees, id);
      if employee.None? || !confirm {
        return;
      }
      employees := WithoutEmployeeId(employees, id);
      entries := WithoutEmployee(entries, id);
    }

    /** handleCellClick on the cell of `day` in the displayed month. */
    method CellEdit(employeeId: int, day: int, code: Option<string>)
      requires Valid() && InMonth(year, month, day)
      modifies this
      ensures employees == old(employees) && year == old(year) && month == old(month)
      ensures Valid()
      ensures entries == CellEditStore(old(employees), old(entries), employeeId, day, year, month, code)
    {
      var store := entries;
      CellEditCases(employees, store, employeeId, day, year, month, code);
      CellEditDates(employees, store, employeeId, day, year, month, code);
      var employee := FindEmployee(employees, employeeId);
      if employee.None? || code.None? {
        return;
      }
      var emp := employee.value;
      var k := Key(employeeId, day, month, year);
      if Trim(code.value) == [] {
        entries := WithoutKeys(entries, {k});
        return;
      }
      var shift := FindIgnoreCase(code.value);
      if shift.None? {
        return;
      }
      var entry := ShiftEntry(emp, day, month, year, shift.value, HoursOrDefault(emp.workingHours), false);
      entries := ReplaceByKeys(entries, [entry]);
      if shift.value.code == "AU" {
        entries := entries + FollowOn(employees, store, employeeId, day, month, year);
      }
      assert entries == StoreShift(employees, store, emp, day, year, month, shift.value);
    }

    /** addLeave / addWeekOff: the selected employee and both dates must be given. */
    method AddRange(kind: RangeKind, selected: Option<Employee>, start: Option<Date>, end: Option<Date>)
      requires Valid()
      modifies this
      ensures Valid()
      ensures if selected.None? || start.None? || end.None? then entries == old(entries)
        else entries == ReplaceByKeys(old(entries), RangePlan(kind, selected.value, start.value, end.value, year, month))
      ensures employees == old(employees) && year == old(year) && month == old(month)
    {
      if selected.None? || start.None? || end.None? {
        return;
      }
      var added := CollectRange(kind, selected.value, start.value, end.value, year, month);
      if ValidDate(start.value) && ValidDate(end.value) {
        RangePlanFacts(kind, selected.value, start.value, end.value, year, month);
      }
      entries := ReplaceByKeys(entries, added);
    }

    /** applyManualShiftAssignment, with the two confirmations as inputs. */
    method ApplyManualAssignment(req: ManualRequest, confirmReplace: bool, confirmAutoFill: bool)
      requires Valid()
      modifies this
      ensures Valid()
      ensures entries == ManualStore(old(employees), old(entries), req, year, month, confirmReplace, confirmAutoFill)
      ensures employees == old(employees) && year == old(year) && month == old(month)
    {
      var snapshot := entries;
      ManualCases(employees, snapshot, req, year, month, confirmReplace, confirmAutoFill);
      if req.employeeId == 0 || req.selectedShift == "" || req.startDate.None? || req.endDate.None? {
        return;
      }
      var employee := FindEmployee(employees, req.employeeId);
      if employee.None? {
        return;
      }
      var emp := employee.value;
      var shift := FindFirst(Catalog(), ByCode(req.selectedShift));
      if shift.None? {
        return;
      }
      var start, end := req.startDate.value, req.endDate.value;
      if !InCurrentMonth(start, year, month) || !InCurrentMonth(end, year, month) {
        return;
      }
      assert CheckRequest(req, employees, year, month) == Accepted(emp, shift.value, start, end);
      var newEntries, existingEntries := CollectAssignment(req, emp, shift.value, start, end, snapshot, year, month);
      if |existingEntries| > 0 && !confirmReplace {
        return;
      }
      WriteAssignment(emp, shift.value, newEntries, confirmAutoFill);
    }

    /** The writes of an accepted assignment, made on the snapshot the handler started from. */
    method WriteAssignment(emp: Employee, shift: ShiftDef, newEntries: seq<Entry>, confirmAutoFill: bool)
      requires Valid() && ValidDates(entries + newEntries)
      requires forall e :: e in newEntries ==> 1 <= e.month <= 12 && 1 <= e.day
      modifies this
      ensures Valid()
      ensures entries == ApplyStore(employees, old(entries), emp, shift, newEntries, year, month, confirmAutoFill)
      ensures employees == old(employees) && year == old(year) && month == old(month)
    {
      var snapshot := entries;
      var restDays: seq<Entry> := [];
      if shift.code == "AU" {
        restDays := RestDaysAfterAU(employees, snapshot, emp.id, newEntries);
      }
      var autoEntries: seq<Entry> := [];
      if |newEntries| >= 3 && confirmAutoFill {
        autoEntries := AutoDistribute(employees, emp.id, snapshot + newEntries, year, month);
      }
      ApplyStoreDates(employees, snapshot, emp, shift, newEntries, year, month, confirmAutoFill);
      entries := ReplaceByKeys(snapshot, newEntries) + restDays + autoEntries;
    }

    /** handleMonthChange('next'). */
    method GoToNextMonth()
      requires Valid()
      modifies this
      ensures Valid()
      ensures (year, month) == MonthAfter(old(year), old(month))
      ensures entries == NextMonthStore(old(employees), old(entries), old(year), old(month))
      ensures employees == old(employees)
    {
      var currentEntries := MonthEntries(entries, month, year);
      var next := MonthAfter(year, month);
      if |currentEntries| > 0 {
        var patterns := AnalyzePatterns(employees, entries, month, year);
        AnalyzedPatterns(patterns, employees, entries, month, year);
        var newEntries := GenerateNextMonth(employees, patterns, next.0, next.1);
        entries := entries + newEntries;
      }
      NextMonthFacts(employees, old(entries), old(year), old(month));
      year, month := next.0, next.1;
    }

    /** handleMonthChange('prev'): only the displayed month moves back. */
    method GoToPreviousMonth()
      requires Valid()
      modifies this
      ensures Valid()
      ensures MonthAfter(year, month) == (old(year), old(month))
      ensures entries == old(entries) && employees == old(employees)
    {
      var prev := MonthBefore(year, month);
      year, month := prev.0, prev.1;
    }
  }
}
