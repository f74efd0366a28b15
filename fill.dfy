// The day loop shared by next-month generation (src/App.tsx:303-361) and the
// same-month auto-fill (src/App.tsx:653-713): from a first day to a last day,
// a day that already has an entry is skipped, a week-off day gets WO, and any
// other day gets the rotation's current code while that code is a working
// shift, counting the day and switching category at the threshold.

module DayFill {

  import opened Wrappers
  import opened Calendar
  import opened ShiftCatalog
  import opened Rotation
  import opened Schedule

  /** The entries written so far and the rotation state. */
  datatype Fill = Fill(entries: seq<Entry>, state: RotState)

  /** Days first..last lie in the month (an empty range when last < first). */
  predicate DayRange(year: int, month: int, first: int, last: int) {
    1 <= month <= 12 && 1 <= first && last <= DaysInMonth(year, month)
  }

  /** One day of the loop; `taken` holds the keys that already have an entry. */
  function FillDay(emp: Employee, year: int, month: int, day: int, taken: set<Key>, f: Fill,
                   threshold: int, color: string): Fill
    requires InMonth(year, month, day)
  {
    if Key(emp.id, day, month, year) in taken then f
    else if IsWeekOffDay(emp, year, month, day) then
      Fill(f.entries + [WeekOffEntry(emp, day, month, year, color, true)], f.state)
    else if IsWorkingCode(f.state.code) then
      Fill(f.entries + [ShiftEntry(emp, day, month, year, ShiftOf(f.state.code), HoursOrDefault(emp.workingHours), true)],
           Step(f.state, threshold))
    else f
  }

  /** The loop over days first..last from the rotation state `start`. */
  function FillDays(emp: Employee, year: int, month: int, first: int, last: int, taken: set<Key>,
                    start: RotState, threshold: int, color: string): Fill
    requires DayRange(year, month, first, last)
    decreases last - first
  {
    if last < first then Fill([], start)
    else FillDay(emp, year, month, last, taken,
                 FillDays(emp, year, month, first, last - 1, taken, start, threshold, color), threshold, color)
  }

  /** The days in first..last that are neither taken nor week-off: the days the rotation counts. */
  function WorkDays(emp: Employee, year: int, month: int, first: int, last: int, taken: set<Key>): nat
    requires DayRange(year, month, first, last)
    decreases last - first
  {
    if last < first then 0
    else
      var counted := Key(emp.id, last, month, year) !in taken && !IsWeekOffDay(emp, year, month, last);
      WorkDays(emp, year, month, first, last - 1, taken) + (if counted then 1 else 0)
  }

  /** Every entry written is the employee's, automatic, on a free day of the range, and the
      days strictly increase (so no key is written twice). */
  lemma {:induction false} FillShape(emp: Employee, year: int, month: int, first: int, last: int, taken: set<Key>,
                                     start: RotState, threshold: int, color: string)
    requires DayRange(year, month, first, last)
    ensures var es := FillDays(emp, year, month, first, last, taken, start, threshold, color).entries;
      (forall e :: e in es ==>
         e.employeeId == emp.id && e.employeeName == emp.name && e.month == month && e.year == year
         && first <= e.day <= last && KeyOf(e) !in taken && e.isAutoAssigned)
      && (forall i, j :: 0 <= i < j < |es| ==> es[i].day < es[j].day)
  {
    if last >= first {
      FillShape(emp, year, month, first, last - 1, taken, start, threshold, color);
    }
  }

  /** Strictly increasing days give unique keys. */
  lemma FillUniqueKeys(emp: Employee, year: int, month: int, first: int, last: int, taken: set<Key>,
                       start: RotState, threshold: int, color: string)
    requires DayRange(year, month, first, last)
    ensures UniqueKeys(FillDays(emp, year, month, first, last, taken, start, threshold, color).entries)
  {
    FillShape(emp, year, month, first, last, taken, start, threshold, color);
  }

  /** The week-off facts about the entries written for first..last. */
  ghost predicate WeekOffsWritten(emp: Employee, year: int, month: int, first: int, last: int, taken: set<Key>,
                                  color: string, es: seq<Entry>)
    requires DayRange(year, month, first, last)
  {
    (forall e :: e in es ==> (first <= e.day <= last
       && (e.shift == "WO" <==> IsWeekOffDay(emp, year, month, e.day))
       && (e.shift == "WO" ==> e == WeekOffEntry(emp, e.day, month, year, color, true))
       && (e.shift != "WO" ==> IsWorkingCode(e.shift) && e.hours == HoursOrDefault(emp.workingHours))))
    && (forall d :: first <= d <= last && Key(emp.id, d, month, year) !in taken && IsWeekOffDay(emp, year, month, d)
         ==> WeekOffEntry(emp, d, month, year, color, true) in es)
  }

  lemma WeekOffsStep(emp: Employee, year: int, month: int, first: int, last: int, taken: set<Key>,
                     f: Fill, threshold: int, color: string)
    requires DayRange(year, month, first, last) && first <= last
    requires WeekOffsWritten(emp, year, month, first, last - 1, taken, color, f.entries)
    ensures WeekOffsWritten(emp, year, month, first, last, taken, color,
                            FillDay(emp, year, month, last, taken, f, threshold, color).entries)
  {
    var r := FillDay(emp, year, month, last, taken, f, threshold, color);
    if Key(emp.id, last, month, year) in taken {
      assert r == f;
    } else if IsWeekOffDay(emp, year, month, last) {
      var x := WeekOffEntry(emp, last, month, year, color, true);
      assert r.entries == f.entries + [x];
      assert forall e :: e in r.entries ==> e in f.entries || e == x;
    } else if IsWorkingCode(f.state.code) {
      var x := ShiftEntry(emp, last, month, year, ShiftOf(f.state.code), HoursOrDefault(emp.workingHours), true);
      assert r.entries == f.entries + [x];
      assert x.shift == f.state.code;
      assert forall e :: e in r.entries ==> e in f.entries || e == x;
    } else {
      assert r == f;
    }
  }

  /** WO is written exactly on week-off days, with hours 0 and the given colour, and every
      free week-off day of the range gets one. */
  lemma {:induction false} FillWeekOffs(emp: Employee, year: int, month: int, first: int, last: int, taken: set<Key>,
                                        start: RotState, threshold: int, color: string)
    requires DayRange(year, month, first, last)
    ensures WeekOffsWritten(emp, year, month, first, last, taken, color,
                            FillDays(emp, year, month, first, last, taken, start, threshold, color).entries)
  {
    if last >= first {
      FillWeekOffs(emp, year, month, first, last - 1, taken, start, threshold, color);
      WeekOffsStep(emp, year, month, first, last, taken,
                   FillDays(emp, year, month, first, last - 1, taken, start, threshold, color), threshold, color);
    }
  }

  /** Every free day of first..last has an entry and no taken day has one. */
  ghost predicate Covered(emp: Employee, year: int, month: int, first: int, last: int, taken: set<Key>, es: seq<Entry>) {
    forall d :: first <= d <= last ==>
      (Key(emp.id, d, month, year) in KeySet(es) <==> Key(emp.id, d, month, year) !in taken)
  }

  /** Each working entry carries the rotation's code after the working days before it. */
  ghost predicate CodesRotated(emp: Employee, year: int, month: int, first: int, last: int, taken: set<Key>,
                               start: RotState, threshold: int, es: seq<Entry>)
    requires DayRange(year, month, first, last)
  {
    forall e :: e in es ==> (first <= e.day <= last
      && (e.shift != "WO" ==> e.shift == StateAfter(start, threshold, WorkDays(emp, year, month, first, e.day - 1, taken)).code))
  }

  /** The rotation facts about a fill of first..last from a working code. */
  ghost predicate Rotated(emp: Employee, year: int, month: int, first: int, last: int, taken: set<Key>,
                          start: RotState, threshold: int, r: Fill)
    requires DayRange(year, month, first, last)
  {
    r.state == StateAfter(start, threshold, WorkDays(emp, year, month, first, last, taken))
    && Covered(emp, year, month, first, last, taken, r.entries)
    && CodesRotated(emp, year, month, first, last, taken, start, threshold, r.entries)
  }

  /** The entry a free day adds: WO on a week-off day, else the current working code. */
  lemma FreeDayAdds(emp: Employee, year: int, month: int, day: int, taken: set<Key>, f: Fill,
                    threshold: int, color: string)
    requires InMonth(year, month, day) && Key(emp.id, day, month, year) !in taken
    requires IsWorkingCode(f.state.code) || IsWeekOffDay(emp, year, month, day)
    ensures IsWeekOffDay(emp, year, month, day) ==>
      FillDay(emp, year, month, day, taken, f, threshold, color)
        == Fill(f.entries + [WeekOffEntry(emp, day, month, year, color, true)], f.state)
    ensures !IsWeekOffDay(emp, year, month, day) ==>
      FillDay(emp, year, month, day, taken, f, threshold, color)
        == Fill(f.entries + [ShiftEntry(emp, day, month, year, ShiftOf(f.state.code), HoursOrDefault(emp.workingHours), true)],
                Step(f.state, threshold))
  {
  }

  lemma CoveredStep(emp: Employee, year: int, month: int, first: int, last: int, taken: set<Key>,
                    f: Fill, threshold: int, color: string)
    requires DayRange(year, month, first, last) && first <= last
    requires IsWorkingCode(f.state.code)
    requires Covered(emp, year, month, first, last - 1, taken, f.entries)
    requires forall e :: e in f.entries ==> e.day < last
    ensures Covered(emp, year, month, first, last, taken, FillDay(emp, year, month, last, taken, f, threshold, color).entries)
  {
    var r := FillDay(emp, year, month, last, taken, f, threshold, color);
    var k := Key(emp.id, last, month, year);
    if k in taken {
      assert r == f;
      assert k !in KeySet(f.entries);
    } else {
      FreeDayAdds(emp, year, month, last, taken, f, threshold, color);
      var x := r.entries[|f.entries|];
      assert r.entries == f.entries + [x];
      assert KeyOf(x) == k;
      assert KeySet(r.entries) == KeySet(f.entries) + {k};
    }
  }

  /** The state after a day is the rotation after the working days up to it. */
  lemma StateStep(emp: Employee, year: int, month: int, first: int, last: int, taken: set<Key>,
                  start: RotState, f: Fill, threshold: int, color: string)
    requires DayRange(year, month, first, last) && first <= last
    requires f.state == StateAfter(start, threshold, WorkDays(emp, year, month, first, last - 1, taken))
    requires IsWorkingCode(f.state.code)
    ensures FillDay(emp, year, month, last, taken, f, threshold, color).state
         == StateAfter(start, threshold, WorkDays(emp, year, month, first, last, taken))
  {
    var w := WorkDays(emp, year, month, first, last - 1, taken);
    if Key(emp.id, last, month, year) !in taken && !IsWeekOffDay(emp, year, month, last) {
      assert StateAfter(start, threshold, w + 1) == Step(StateAfter(start, threshold, w), threshold);
    }
  }

  lemma CodesRotatedStep(emp: Employee, year: int, month: int, first: int, last: int, taken: set<Key>,
                         start: RotState, f: Fill, threshold: int, color: string)
    requires DayRange(year, month, first, last) && first <= last
    requires f.state == StateAfter(start, threshold, WorkDays(emp, year, month, first, last - 1, taken))
    requires IsWorkingCode(f.state.code)
    requires CodesRotated(emp, year, month, first, last - 1, taken, start, threshold, f.entries)
    ensures CodesRotated(emp, year, month, first, last, taken, start, threshold,
                         FillDay(emp, year, month, last, taken, f, threshold, color).entries)
  {
    var r := FillDay(emp, year, month, last, taken, f, threshold, color);
    var w := WorkDays(emp, year, month, first, last - 1, taken);
    if Key(emp.id, last, month, year) in taken {
      assert r == f;
    } else {
      FreeDayAdds(emp, year, month, last, taken, f, threshold, color);
      var x := r.entries[|f.entries|];
      assert r.entries == f.entries + [x];
      assert x.shift != "WO" ==> x.shift == StateAfter(start, threshold, w).code;
      forall e | e in r.entries
        ensures first <= e.day <= last
        ensures e.shift != "WO" ==> e.shift == StateAfter(start, threshold, WorkDays(emp, year, month, first, e.day - 1, taken)).code
      {
        if e in f.entries {
          assert first <= e.day <= last - 1;
        } else {
          assert e == x;
          assert WorkDays(emp, year, month, first, e.day - 1, taken) == w;
        }
      }
    }
  }

  /** From a working code, every free day of the range gets exactly one entry; each working
      entry carries the rotation's code after the working days before it, and the final state
      is the rotation after all the range's working days. */
  lemma {:induction false} FillRotation(emp: Employee, year: int, month: int, first: int, last: int, taken: set<Key>,
                                        start: RotState, threshold: int, color: string)
    requires DayRange(year, month, first, last)
    requires IsWorkingCode(start.code)
    ensures Rotated(emp, year, month, first, last, taken, start, threshold,
                    FillDays(emp, year, month, first, last, taken, start, threshold, color))
  {
    if last >= first {
      FillRotation(emp, year, month, first, last - 1, taken, start, threshold, color);
      FillShape(emp, year, month, first, last - 1, taken, start, threshold, color);
      var f := FillDays(emp, year, month, first, last - 1, taken, start, threshold, color);
      StateAfterWorking(start, threshold, WorkDays(emp, year, month, first, last - 1, taken));
      CoveredStep(emp, year, month, first, last, taken, f, threshold, color);
      StateStep(emp, year, month, first, last, taken, start, f, threshold, color);
      CodesRotatedStep(emp, year, month, first, last, taken, start, f, threshold, color);
    }
  }

  /** From a code that is not a working shift, only WO entries are written and the state never moves. */
  lemma {:induction false} FillIdle(emp: Employee, year: int, month: int, first: int, last: int, taken: set<Key>,
                                    start: RotState, threshold: int, color: string)
    requires DayRange(year, month, first, last)
    requires !IsWorkingCode(start.code)
    ensures var r := FillDays(emp, year, month, first, last, taken, start, threshold, color);
      r.state == start && forall e :: e in r.entries ==> e.shift == "WO"
  {
    if last >= first {
      FillIdle(emp, year, month, first, last - 1, taken, start, threshold, color);
    }
  }
}
