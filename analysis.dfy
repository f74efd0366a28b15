// analyzeShiftPatterns (src/App.tsx:211-256): for each employee, the month's
// working entries (every code but L, WO and OFF) in date order, run-length
// encoded into "code:count" items, with the last code, the average run
// length and the number of working days.

module PatternAnalysis {

  import opened Wrappers
  import opened Text
  import opened Seqs
  import opened ShiftCatalog
  import opened Rotation
  import opened Schedule

  datatype Pattern = Pattern(lastShift: string, shiftRotations: seq<string>, averageDaysPerShift: int, totalWorkingDays: int)

  /** Ascending by day. */
  predicate SortedByDay(s: seq<Entry>) {
    forall i, j :: 0 <= i < j < |s| ==> s[i].day <= s[j].day
  }

  /** Insert x after every element whose day is not later (so equal days keep their order). */
  function InsertByDay(s: seq<Entry>, x: Entry): (r: seq<Entry>)
    ensures |r| == |s| + 1
  {
    if |s| == 0 then [x]
    else if Last(s).day <= x.day then s + [x]
    else
      var init := s[..|s| - 1];
      assert s == init + [Last(s)];
      InsertByDay(init, x) + [Last(s)]
  }

  /** Insertion adds x and loses nothing. */
  lemma {:induction false} InsertByDayPermutes(s: seq<Entry>, x: Entry)
    ensures multiset(InsertByDay(s, x)) == multiset(s) + multiset{x}
  {
    if |s| > 0 && x.day < Last(s).day {
      var init := s[..|s| - 1];
      assert s == init + [Last(s)];
      InsertByDayPermutes(init, x);
    }
  }

  lemma {:induction false} InsertByDaySorted(s: seq<Entry>, x: Entry)
    requires SortedByDay(s)
    ensures SortedByDay(InsertByDay(s, x))
  {
    if |s| > 0 && x.day < Last(s).day {
      var init := s[..|s| - 1];
      InsertByDaySorted(init, x);
      var r := InsertByDay(init, x);
      InsertByDayPermutes(init, x);
      forall e | e in r
        ensures e.day <= Last(s).day
      {
        assert e in multiset(r);
      }
    }
  }

  /** The date sort of the working entries: a stable insertion sort by day (all are in one month). */
  function SortByDay(s: seq<Entry>): (r: seq<Entry>)
    ensures |r| == |s|
  {
    if |s| == 0 then []
    else
      assert s == s[..|s| - 1] + [Last(s)];
      InsertByDay(SortByDay(s[..|s| - 1]), Last(s))
  }

  /** The sort's result is a permutation of its input. */
  lemma {:induction false} SortByDayPermutes(s: seq<Entry>)
    ensures multiset(SortByDay(s)) == multiset(s)
  {
    if |s| > 0 {
      assert s == s[..|s| - 1] + [Last(s)];
      SortByDayPermutes(s[..|s| - 1]);
      InsertByDayPermutes(SortByDay(s[..|s| - 1]), Last(s));
    }
  }

  /** The sort's result is ordered by day. */
  lemma {:induction false} SortByDaySorted(s: seq<Entry>)
    ensures SortedByDay(SortByDay(s))
  {
    if |s| > 0 {
      SortByDaySorted(s[..|s| - 1]);
      InsertByDaySorted(SortByDay(s[..|s| - 1]), Last(s));
    }
  }

  /** The employee's working entries of the month: not L, WO or OFF. */
  function WorkingEntries(entries: seq<Entry>, id: int, month: int, year: int): (r: seq<Entry>)
    ensures forall e :: e in r <==> e in entries && e.month == month && e.year == year && e.employeeId == id && !IsOffCode(e.shift)
  {
    Filter(MonthEntries(entries, month, year), (e: Entry) => e.employeeId == id && !IsOffCode(e.shift))
  }

  function Codes(s: seq<Entry>): (r: seq<string>)
    ensures |r| == |s| && forall i :: 0 <= i < |s| ==> r[i] == s[i].shift
  {
    seq(|s|, i requires 0 <= i < |s| => s[i].shift)
  }

  /** The runs the loop reports: `if (currentShift && ...)` skips a run of the empty code. */
  function Named(runs: seq<Run>): seq<Run> {
    if |runs| == 0 then [] else Named(runs[..|runs| - 1]) + (if Last(runs).code != "" then [Last(runs)] else [])
  }

  function Texts(runs: seq<Run>): (r: seq<string>)
    ensures |r| == |runs| && forall i :: 0 <= i < |runs| ==> r[i] == RunText(runs[i])
  {
    seq(|runs|, i requires 0 <= i < |runs| => RunText(runs[i]))
  }

  lemma TextsSnoc(runs: seq<Run>, r: Run)
    ensures Texts(runs + [r]) == Texts(runs) + [RunText(r)]
  {
  }

  lemma NamedSnoc(runs: seq<Run>, r: Run)
    ensures Named(runs + [r]) == Named(runs) + (if r.code != "" then [r] else [])
  {
    assert (runs + [r])[..|runs|] == runs;
  }

  /** Without empty codes every run is reported. */
  lemma {:induction false} NamedAll(runs: seq<Run>)
    requires forall i :: 0 <= i < |runs| ==> runs[i].code != ""
    ensures Named(runs) == runs
  {
    if |runs| > 0 {
      NamedAll(runs[..|runs| - 1]);
      assert runs[..|runs| - 1] + [Last(runs)] == runs;
    }
  }

  /** The pattern of a non-empty, date-ordered list of working codes. */
  function PatternOf(codes: seq<string>): Pattern
    requires |codes| > 0
  {
    var texts := Texts(Named(RunLength(codes)));
    Pattern(Last(codes), texts, RoundDiv(|codes|, if |texts| == 0 then 1 else |texts|), |codes|)
  }

  /** The loop's variables after scanning `prefix`: the current run is the last run of the
      prefix, and the items pushed so far are the named runs before it. */
  ghost predicate Scanned(prefix: seq<string>, currentShift: string, consecutiveDays: int, rotations: seq<string>) {
    if |prefix| == 0 then currentShift == "" && consecutiveDays == 0 && rotations == []
    else
      var runs := RunLength(prefix);
      consecutiveDays >= 1 && |runs| > 0 && Last(runs) == Run(currentShift, consecutiveDays)
      && rotations == Texts(Named(runs[..|runs| - 1]))
  }

  /** Pushing the current run when it is named. */
  function Flush(currentShift: string, consecutiveDays: int, rotations: seq<string>): seq<string> {
    if currentShift != "" && consecutiveDays > 0 then rotations + [RunText(Run(currentShift, consecutiveDays))]
    else rotations
  }

  lemma ScanStep(prefix: seq<string>, c: string, currentShift: string, consecutiveDays: int, rotations: seq<string>)
    requires Scanned(prefix, currentShift, consecutiveDays, rotations)
    ensures c == currentShift ==> Scanned(prefix + [c], currentShift, consecutiveDays + 1, rotations)
    ensures c != currentShift ==> Scanned(prefix + [c], c, 1, Flush(currentShift, consecutiveDays, rotations))
  {
    RunLengthSnoc(prefix, c);
    var runs := RunLength(prefix);
    if |prefix| > 0 {
      var init := runs[..|runs| - 1];
      assert runs == init + [Last(runs)];
      if c == currentShift {
        assert (init + [Run(c, consecutiveDays + 1)])[..|runs| - 1] == init;
      } else {
        NamedSnoc(init, Last(runs));
        TextsSnoc(Named(init), Last(runs));
        assert (runs + [Run(c, 1)])[..|runs|] == runs;
      }
    }
  }

  lemma ScanFinish(codes: seq<string>, currentShift: string, consecutiveDays: int, rotations: seq<string>)
    requires |codes| > 0 && Scanned(codes, currentShift, consecutiveDays, rotations)
    ensures Flush(currentShift, consecutiveDays, rotations) == Texts(Named(RunLength(codes)))
  {
    var runs := RunLength(codes);
    assert runs == runs[..|runs| - 1] + [Last(runs)];
    NamedSnoc(runs[..|runs| - 1], Last(runs));
    TextsSnoc(Named(runs[..|runs| - 1]), Last(runs));
  }

  /** The consecutive-shift loop of analyzeShiftPatterns over one employee's codes. */
  method AnalyzeCodes(codes: seq<string>) returns (p: Pattern)
    requires |codes| > 0
    ensures p == PatternOf(codes)
  {
    var currentShift := "";
    var consecutiveDays := 0;
    var shiftRotations: seq<string> := [];
    for i := 0 to |codes|
      invariant Scanned(codes[..i], currentShift, consecutiveDays, shiftRotations)
    {
      var c := codes[i];
      assert codes[..i + 1] == codes[..i] + [c];
      ScanStep(codes[..i], c, currentShift, consecutiveDays, shiftRotations);
      if c == currentShift {
        consecutiveDays := consecutiveDays + 1;
      } else {
        if currentShift != "" && consecutiveDays > 0 {
          shiftRotations := shiftRotations + [RunText(Run(currentShift, consecutiveDays))];
        }
        currentShift := c;
        consecutiveDays := 1;
      }
    }
    assert codes[..|codes|] == codes;
    ScanFinish(codes, currentShift, consecutiveDays, shiftRotations);
    if currentShift != "" && consecutiveDays > 0 {
      shiftRotations := shiftRotations + [RunText(Run(currentShift, consecutiveDays))];
    }
    var divisor := if |shiftRotations| == 0 then 1 else |shiftRotations|;
    p := Pattern(codes[|codes| - 1], shiftRotations, RoundDiv(|codes|, divisor), |codes|);
  }

  /** Run accounting: with no empty code the items are exactly the maximal runs, their counts
      add up to the working days, the last run is on the last code, and the average is the
      rounded quotient of days by runs. */
  lemma PatternAccounting(codes: seq<string>)
    requires |codes| > 0
    requires forall i :: 0 <= i < |codes| ==> codes[i] != ""
    ensures var p := PatternOf(codes); var runs := RunLength(codes);
      p.shiftRotations == Texts(runs)
      && MaximalRuns(runs)
      && TotalDays(runs) == p.totalWorkingDays == |codes|
      && Last(runs).code == p.lastShift
      && |runs| >= 1
      && p.averageDaysPerShift == RoundDiv(|codes|, |runs|)
  {
    var runs := RunLength(codes);
    RunLengthSound(codes);
    RunLengthTotal(codes);
    forall i | 0 <= i < |runs|
      ensures runs[i].code != ""
    {
      var e := Expand(runs);
      ExpandMember(runs, i);
    }
    NamedAll(runs);
  }

  /** Every run's code occurs in the expansion. */
  lemma {:induction false} ExpandMember(runs: seq<Run>, i: int)
    requires MaximalRuns(runs) && 0 <= i < |runs|
    ensures runs[i].code in Expand(runs)
  {
    var init := runs[..|runs| - 1];
    if i == |runs| - 1 {
      assert Expand(runs) == Expand(init) + Repeat(runs[i].code, runs[i].days);
      RepeatAt(runs[i].code, runs[i].days, 0);
      assert Expand(runs)[|Expand(init)|] == runs[i].code;
    } else {
      assert MaximalRuns(init);
      ExpandMember(init, i);
    }
  }

  /** The pattern an employee id gets this month, if it has working entries. */
  function PatternFor(entries: seq<Entry>, id: int, month: int, year: int): Option<Pattern> {
    var working := SortByDay(WorkingEntries(entries, id, month, year));
    if |working| == 0 then None else Some(PatternOf(Codes(working)))
  }

  predicate Listed(employees: seq<Employee>, id: int) {
    exists emp :: emp in employees && emp.id == id
  }

  /** analyzeShiftPatterns: a pattern for each employee with at least one working entry this month. */
  method AnalyzePatterns(employees: seq<Employee>, entries: seq<Entry>, month: int, year: int)
    returns (patterns: map<int, Pattern>)
    ensures forall id :: id in patterns <==> Listed(employees, id) && PatternFor(entries, id, month, year).Some?
    ensures forall id :: id in patterns ==> PatternFor(entries, id, month, year) == Some(patterns[id])
  {
    patterns := map[];
    for n := 0 to |employees|
      invariant forall id :: id in patterns <==> Listed(employees[..n], id) && PatternFor(entries, id, month, year).Some?
      invariant forall id :: id in patterns ==> PatternFor(entries, id, month, year) == Some(patterns[id])
    {
      var emp := employees[n];
      assert employees[..n + 1] == employees[..n] + [emp];
      var working := SortByDay(WorkingEntries(entries, emp.id, month, year));
      if |working| > 0 {
        var p := AnalyzeCodes(Codes(working));
        patterns := patterns[emp.id := p];
      }
    }
    assert employees[..|employees|] == employees;
  }

  /** An employee has a pattern exactly when it has a working entry this month. */
  lemma PatternForSome(entries: seq<Entry>, id: int, month: int, year: int)
    ensures PatternFor(entries, id, month, year).Some? <==>
      exists e :: e in entries && e.employeeId == id && e.month == month && e.year == year && !IsOffCode(e.shift)
  {
    var w := WorkingEntries(entries, id, month, year);
    if |w| > 0 {
      assert w[0] in w;
    }
  }

  /** The pattern ignores L, WO and OFF: adding or removing such entries changes no pattern. */
  lemma OffCodesIgnored(entries: seq<Entry>, extra: seq<Entry>, id: int, month: int, year: int)
    requires forall e :: e in extra ==> IsOffCode(e.shift)
    ensures forall e :: e in WorkingEntries(entries + extra, id, month, year) <==> e in WorkingEntries(entries, id, month, year)
  {
  }
}
