// The saved-timetable browser (src/components/TimetableDisplay.tsx): the list
// filter, the calendar days of a month, the entries of one day, the status
// colours and the CSV text of the selected timetable.

module TimetableView {

  import opened Wrappers
  import opened Text
  import opened Seqs
  import opened Calendar
  import RoundRobin

  /** A saved timetable as the browser lists it; its entries have the generator's shape. */
  datatype SavedTimetable = SavedTimetable(projectName: string, month: string, year: int, entries: seq<RoundRobin.GeneratedEntry>)

  /** The three filters: project name containing the term (ignoring case), the month when one
      is chosen, and the year. */
  predicate Shown(t: SavedTimetable, searchTerm: string, selectedMonth: string, selectedYear: int) {
    Contains(ToLower(t.projectName), ToLower(searchTerm))
    && (selectedMonth == "" || t.month == selectedMonth)
    && t.year == selectedYear
  }

  function FilteredTimetables(timetables: seq<SavedTimetable>, searchTerm: string, selectedMonth: string, selectedYear: int): seq<SavedTimetable> {
    Filter(timetables, (t: SavedTimetable) => Shown(t, searchTerm, selectedMonth, selectedYear))
  }

  /** A timetable is listed exactly when all three filters pass, in the fetched order; with no
      term and no month the year alone decides. */
  lemma FilteredTimetablesFacts(timetables: seq<SavedTimetable>, searchTerm: string, selectedMonth: string, selectedYear: int)
    ensures var r := FilteredTimetables(timetables, searchTerm, selectedMonth, selectedYear);
      (forall t :: t in r <==> t in timetables && Shown(t, searchTerm, selectedMonth, selectedYear))
      && IsSubsequence(r, timetables)
      && (searchTerm == "" && selectedMonth == "" ==>
            forall t :: t in r <==> t in timetables && t.year == selectedYear)
  {
    if searchTerm == "" {
      forall t | t in timetables
        ensures Contains(ToLower(t.projectName), ToLower(searchTerm))
      {
        ContainsEmpty(ToLower(t.projectName));
      }
    }
  }

  /** new Date(year, monthIndex + 1, 0).getDate(): the length of the named month; a name not in
      the list (index -1) gives day 0 of January, that is 31 December of the year before. */
  function MonthLength(month: string, year: int): (n: int)
    ensures 28 <= n <= 31
  {
    var i := MonthIndex(month);
    var y := CalendarYear(year);
    if i == -1 then DaysInMonth(y - 1, 12) else DaysInMonth(y, i + 1)
  }

  /** generateCalendarDays: 1, 2, .., the length of the month. */
  function CalendarDays(month: string, year: int): (r: seq<int>)
    ensures |r| == MonthLength(month, year)
    ensures forall i :: 0 <= i < |r| ==> r[i] == i + 1
  {
    seq(MonthLength(month, year), i requires 0 <= i < MonthLength(month, year) => i + 1)
  }

  /** The days are exactly 1..n, increasing, and an unknown month name shows 31 days. */
  lemma CalendarDaysFacts(month: string, year: int)
    ensures var r := CalendarDays(month, year);
      (forall d :: d in r <==> 1 <= d <= |r|)
      && (forall i, j :: 0 <= i < j < |r| ==> r[i] < r[j])
      && (MonthIndex(month) == -1 ==> |r| == 31)
      && (MonthIndex(month) == 1 ==> (|r| == 29 <==> IsLeapYear(CalendarYear(year))))
  {
    var r := CalendarDays(month, year);
    forall d | 1 <= d <= |r|
      ensures d in r
    {
      assert r[d - 1] == d;
    }
  }

  /** getEntriesForDate: nothing without a selected timetable; otherwise the entries dated
      year-MM-dd, where MM is the clock's month. */
  function EntriesForDate(selected: Option<SavedTimetable>, day: nat, clockMonth: nat): seq<RoundRobin.GeneratedEntry> {
    if selected.None? then []
    else
      var t := selected.value;
      Filter(t.entries, (e: RoundRobin.GeneratedEntry) => e.date == DateText(t.year, clockMonth, day))
  }

  /** The day's entries are exactly the selected timetable's entries with that date text, in
      order. */
  lemma EntriesForDateFacts(selected: Option<SavedTimetable>, day: nat, clockMonth: nat)
    ensures selected.None? ==> EntriesForDate(selected, day, clockMonth) == []
    ensures selected.Some? ==>
      var t := selected.value;
      var r := EntriesForDate(selected, day, clockMonth);
      (forall e :: e in r <==> e in t.entries && e.date == DateText(t.year, clockMonth, day))
      && IsSubsequence(r, t.entries)
  {
  }

  /** The entries shown for a day come from that day only: two different days share none. */
  lemma EntriesForDateDisjoint(selected: Option<SavedTimetable>, day1: nat, day2: nat, clockMonth: nat)
    requires day1 != day2
    ensures forall e :: e in EntriesForDate(selected, day1, clockMonth) ==> e !in EntriesForDate(selected, day2, clockMonth)
  {
    if selected.Some? {
      var t := selected.value;
      var a, b := DateText(t.year, clockMonth, day1), DateText(t.year, clockMonth, day2);
      var pre := IntToString(t.year) + "-" + Pad2(clockMonth) + "-";
      assert a == pre + Pad2(day1) && b == pre + Pad2(day2);
      assert a != b by {
        if a == b {
          SameDayText(pre, day1, day2);
        }
      }
      forall e | e in EntriesForDate(selected, day1, clockMonth)
        ensures e !in EntriesForDate(selected, day2, clockMonth)
      {
        assert e.date == a;
      }
    }
  }

  /** Date texts with the same prefix agree only on the same day. */
  lemma SameDayText(pre: string, day1: nat, day2: nat)
    requires pre + Pad2(day1) == pre + Pad2(day2)
    ensures day1 == day2
  {
    var a := pre + Pad2(day1);
    assert a[|pre|..] == Pad2(day1);
    assert (pre + Pad2(day2))[|pre|..] == Pad2(day2);
  }

  const Gray := "bg-gray-100 text-gray-800"

  /** getStatusColor. */
  function StatusColor(status: string): string {
    if status == "scheduled" then "bg-blue-100 text-blue-800"
    else if status == "confirmed" then "bg-green-100 text-green-800"
    else if status == "completed" then "bg-purple-100 text-purple-800"
    else if status == "absent" then "bg-red-100 text-red-800"
    else Gray
  }

  /** The four statuses have four different colours, and gray is exactly what every other
      status gets. */
  lemma StatusColorFacts(status: string)
    ensures StatusColor(status) == Gray <==> status !in {"scheduled", "confirmed", "completed", "absent"}
    ensures forall a, b :: (a in {"scheduled", "confirmed", "completed", "absent"}
      && b in {"scheduled", "confirmed", "completed", "absent"} && a != b) ==> StatusColor(a) != StatusColor(b)
  {
  }

  /** exportToCSV: nothing without a selection, else the generator's CSV layout of the entries. */
  function ExportCsv(selected: Option<SavedTimetable>): Option<string> {
    if selected.None? then None else Some(RoundRobin.Csv(selected.value.entries))
  }

  /** Without commas or line breaks inside fields, the exported text has the header line and
      one line per entry. */
  lemma ExportCsvLines(t: SavedTimetable)
    requires forall e, k :: e in t.entries && 0 <= k < 5 ==>
      '\n' !in RoundRobin.CsvFields(e)[k] && ',' !in RoundRobin.CsvFields(e)[k]
    ensures var lines := Split(ExportCsv(Some(t)).value, '\n');
      |lines| == |t.entries| + 1 && lines[0] == RoundRobin.CsvHeader()
      && forall i :: 1 <= i <= |t.entries| ==> Split(lines[i], ',') == RoundRobin.CsvFields(t.entries[i - 1])
  {
    RoundRobin.CsvRoundTrip(t.entries);
  }
}
