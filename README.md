# Shift scheduler — a Dafny model

This project models the scheduling core of a small shift-planning web
application. A team lead keeps a monthly schedule of shift entries for a
handful of employees. Each entry is keyed by employee, day, month and year.
The operations:

- editing one cell by typing a shift code;
- assigning leave or week-off over a date range;
- a manual shift assignment over a date range, with an automatic rest day
  after every "AU" (night) shift;
- a pattern analyzer that turns an employee's month into runs of equal
  working shifts;
- an auto-fill that continues the current month by alternating between the
  morning and the night category;
- a next-month generator that carries the last run over into the following
  month;
- the per-month counters and the spreadsheet export.

Beside this single-screen planner the repository has a server-side timetable
service and a few smaller screens. The model covers:

- the round-robin timetable generator form and its CSV export;
- the timetable routes: generate or overwrite, look up, update one entry,
  and export as a sheet;
- the user record's permission check and login history;
- the password-strength meter;
- the skill, availability and search helpers of the employee directory;
- the saved-timetable browser;
- the 12-hour clock display;
- the colour of an activity in the admin log.

Modules and files:

| file | module | what it holds |
|---|---|---|
| `wrappers.dfy` | `Wrappers` | `Option` |
| `seqs.dfy` | `Seqs` | order-preserving filter, subsequences, flattening, counting |
| `text.dfy` | `Text` | trimming, case mapping, substring search, decimal printing and parsing, split/join |
| `calendar.dfy` | `Calendar` | proleptic Gregorian dates, days per month, weekday, next day, the two-digit-year rule, `yyyy-MM-dd` and `d-MMM` texts |
| `shifts.dfy` | `ShiftCatalog` | the fixed catalog of eleven shifts, first-match lookup, the morning/night switch |
| `schedule.dfy` | `Schedule` | employees, entries, keys, the replace-by-key store write, the month view, counters, the export grid |
| `rotation.dfy` | `Rotation` | run-length encoding of shift codes, `Math.round` of a quotient, the rotation state machine shared by generation and auto-fill |
| `analysis.dfy` | `PatternAnalysis` | the pattern analyzer (sort by day, scan into runs) |
| `fill.dfy` | `DayFill` | the day-by-day fill loop shared by generation and auto-fill |
| `generation.dfy` | `NextMonth` | next-month generation |
| `autofill.dfy` | `AutoFill` | the remainder-of-month auto-fill |
| `assignment.dfy` | `Assignment` | leave/week-off ranges, the manual assignment batch, the rest day after "AU" |
| `app.dfy` | `ScheduleScreen` | the screen's state as a class and every handler as a method on it |
| `timetable_generator.dfy` | `RoundRobin` | the generator form |
| `timetable_routes.dfy` | `TimetableRoutes` | the timetable service |
| `timetable_display.dfy` | `TimetableView` | the saved-timetable browser |
| `user_model.dfy` | `Accounts` | the user record's methods |
| `password_strength.dfy` | `PasswordStrength` | the strength meter |
| `employee_management.dfy` | `EmployeeDirectory` | the directory form helpers |
| `shift_management.dfy` | `ShiftClock` | the clock display |
| `admin_dashboard.dfy` | `ActivityColors` | the activity colours |

How the model represents the source:

- **State.** State the source keeps in React hooks is a class.
  `ScheduleScreen.ScheduleApp` holds the employees, the entries and the
  displayed month; `RoundRobin.GeneratorForm` and
  `TimetableRoutes.TimetableStore` follow the same pattern. Each handler is
  a method specified by a pure function of the old state.
- **Loops.** The source's loops are methods with loop invariants, proved
  equal to those functions. Examples: the day loop of generation, the
  consecutive-day scan, the round-robin loop, and the `findIndex` of an
  update.
- **Dates.** Dates are `(year, month, day)` values rather than JavaScript
  `Date` objects. A loop `for (d = start; d <= end; d.setDate(d.getDate() + 1))`
  becomes a walk along `Calendar.NextDate`.
- **Stale snapshots.** A React update that reads an old snapshot takes that
  snapshot as an explicit parameter. This shows up in two places:
  - The rest day after "AU" looks at the store from before the batch.
  - Auto-fill sees the entries of the batch it follows, not the state
    after the write.

The model follows the code where the code's behaviour looks unintended.
Each item below gives the evidence in the source itself:

- Hours are not set to 0 for off-category shifts. The leave and week-off
  forms write `hours: 0` (`src/App.tsx:480`, `src/App.tsx:527`), and so does
  generation for week-offs (`src/App.tsx:327`). But a cell edit stores
  `workingHours || 8` (`src/App.tsx:435`) and a manual assignment stores
  `workingHours` (`src/App.tsx:805`), whatever the shift's category.
- Auto-fill starts its counter at the length of the trailing run. When
  that run is 5 days or longer, it switches category before the loop
  (`src/App.tsx:637-647`) but does not reset the counter. The switch inside
  the loop does reset it (`src/App.tsx:703-711`). So the first filled
  working day gets the new category, and the loop switches back right
  after it (`src/App.tsx:700-712`). `AutoFill.AutoFillSwitchesBack` states
  this.
- Next-month generation appends its entries to the store
  (`src/App.tsx:364`) without removing entries already under the same keys.
  The manual assignment does remove them first (`src/App.tsx:817-821`).
  Key uniqueness after generation is proved only when the target month is
  still empty.
- The rest day after "AU" is checked against `allScheduleEntries`, the
  store from before the batch (`src/App.tsx:174-176`). Each call appends
  without that filter (`src/App.tsx:193`). Two consecutive "AU" days
  therefore leave two entries under the second day's key: the "AU" entry
  and its rest day. `ScheduleScreen.AdjacentAUDuplicates` states this.
- The saved-timetable browser lays out the days of the timetable's own
  month (`src/components/TimetableDisplay.tsx:53-61`). But it builds the
  date of a cell from the clock's current month
  (`src/components/TimetableDisplay.tsx:65`). The clock month is a
  parameter of `TimetableView.EntriesForDate`.

## Model

| member | source | states |
|---|---|---|
| `ShiftCatalog.FindFirst` | src/App.tsx:86-98 | `Array.find` over the catalog: the result is the first element that matches, and `None` means nothing matches |
| `ShiftCatalog.CatalogCategories` | src/App.tsx:86-98 | a catalog entry is morning, night or off exactly when its code is in the morning codes, the night codes or {L, WO, OFF} |
| `ShiftCatalog.CategoryCodesInCatalog` | src/App.tsx:86-98 | looking up a code by exact match succeeds exactly for the eleven catalog codes and returns that code's entry |
| `ShiftCatalog.CatalogCodesUnique` | src/App.tsx:86-98 | no two catalog entries share a code |
| `ShiftCatalog.FirstNightIsAU` | src/App.tsx:292-297 | the first night-category entry of the catalog is "AU" |
| `ShiftCatalog.FirstMorningIsIST` | src/App.tsx:292-297 | the first morning-category entry of the catalog is "IST" |
| `ShiftCatalog.SwitchFromMorning` | src/App.tsx:292-297 | switching from any morning code lands on "AU" |
| `ShiftCatalog.SwitchFromNight` | src/App.tsx:292-297 | switching from any night code lands on "IST" |
| `ShiftCatalog.SwitchCategoryClosedForm` | src/App.tsx:292-297 | the category switch, with the code itself as fallback, equals `Flip`: a working code goes to the first code of the other category, and an off code is unchanged |
| `ShiftCatalog.Flip` | src/App.tsx:640-647 | a morning code becomes a night code and vice versa; working codes land on "AU" or "IST"; off codes are unchanged |
| `ShiftCatalog.SwitchShift` | src/App.tsx:351-356 | the in-loop category switch returns `Flip(code)` |
| `ShiftCatalog.FoundWorking` | src/App.tsx:331-333 | finding a code whose category is not off holds exactly for the eight working codes |
| `ShiftCatalog.FindWorkingShift` | src/App.tsx:331-333 | the lookup in the generation loop yields a shift exactly for working codes, and that shift is the catalog entry of the code |
| `Calendar.DaysInMonth` | src/App.tsx:126 | `new Date(y, m + 1, 0).getDate()`: 28 to 31 days, and February has 29 exactly in a Gregorian leap year |
| `Calendar.Weekday` | src/App.tsx:305 | `getDay()` lies in 0..6 |
| `Calendar.WeekdayAnchor` | src/routes/timetableRoutes.ts:25 | the numbering is `getDay()`'s, 0 = Sunday: 1 January 1970 gets 4 (Thursday) and 1 January 2024 gets 1 (Monday) |
| `Calendar.WeekdayNext` | src/App.tsx:305 | the weekday of the next date is the weekday plus one, modulo 7 |
| `Calendar.NextDate` | src/App.tsx:464 | `setDate(getDate() + 1)` yields a valid date strictly after its input |
| `Calendar.NextDateIsSuccessor` | src/App.tsx:464 | nothing lies strictly between a date and its successor |
| `Calendar.WalkDaysMembers` | src/App.tsx:464-466 | the date loop visits exactly the days of the current month between start and end, inclusive |
| `Calendar.WalkDaysIncreasing` | src/App.tsx:464-466 | the date loop visits days in increasing order |
| `Calendar.CalendarYear` | src/routes/timetableRoutes.ts:16 | `new Date(year, …)` maps the years 0..99 to 1900..1999 and keeps every other year |
| `Calendar.MonthIndex` | src/components/TimetableGenerator.tsx:108-113 | `indexOf` over the English month names: the result is the position of the name, or -1 when the name is absent |
| `Calendar.EraYear` | src/routes/timetableRoutes.ts:26 | the year `format` prints: the year itself when positive, otherwise 1 minus the year, so never below 1 |
| `Calendar.FormatYmd` | src/routes/timetableRoutes.ts:26 | `format(day, 'yyyy-MM-dd')` of a valid date whose printed year is below 10000 yields ten characters with dashes at positions 4 and 7 |
| `Calendar.FormatYmdInjective` | src/routes/timetableRoutes.ts:26 | for years 1..9999, two dates have the same `yyyy-MM-dd` text exactly when they are equal |
| `Schedule.DateLabelInjective` | src/App.tsx:468 | the `d/m/yyyy` labels of two dates are equal exactly when the dates are equal, so matching on label and month key is matching on the entry key |
| `Schedule.MonthLabelInjective` | src/App.tsx:461 | the `m/yyyy` month keys are equal exactly when month and year are equal |
| `Schedule.WeekOffIsTwoConsecutiveDays` | src/App.tsx:310-314 | every week-off pattern rests on two consecutive weekdays |
| `Schedule.HoursOrDefault` | src/App.tsx:436 | `workingHours \|\| 8` is never 0 and keeps every non-zero value |
| `Schedule.FindEmployee` | src/App.tsx:161 | `employees.find` by id: the result is the first employee with that id, and `None` means no employee has it |
| `Schedule.FindEntry` | src/App.tsx:174-176 | finding an entry by key returns the first entry with that key, and `None` exactly when the key is absent |
| `Schedule.FindEntryUnique` | src/App.tsx:174-176 | in a store with unique keys, finding by an entry's key returns that entry |
| `Schedule.MonthEntries` | src/App.tsx:114-121 | the current-month view keeps, in order, exactly the entries of that month and year |
| `Schedule.MonthEntriesUnique` | src/App.tsx:114-121 | the month view of a store with unique keys has unique keys |
| `Schedule.WithoutKeys` | src/App.tsx:485-488 | removing the batch's keys keeps, in order, exactly the entries whose key is not in the batch |
| `Schedule.ReplaceByKeysSpec` | src/App.tsx:485-488 | the store write of a batch keeps keys unique, leaves every other key's entries alone, and makes every batch entry the one found under its key |
| `Schedule.WithoutEmployee` | src/App.tsx:204-205 | deleting an employee keeps, in order, exactly the entries of the other employees |
| `Schedule.WithoutEmployeeUnique` | src/App.tsx:204-205 | the deletion cascade keeps keys unique |
| `Schedule.MonthlyCalendar` | src/App.tsx:123-137 | one calendar day per day of the month, numbered from 1, each labelled with its `d/m/yyyy` date |
| `Schedule.CalendarDayNamesAdvance` | src/App.tsx:123-137 | each calendar day carries its weekday's name, and consecutive days have consecutive weekday names |
| `Schedule.CountsPartition` | src/App.tsx:140-157 | working days, leaves, week-offs and offs add up to the number of entries, and AU plus IST shifts do not exceed working days |
| `Schedule.TotalCountsAccount` | src/App.tsx:140-157 | the displayed totals of the month satisfy the same partition |
| `Schedule.HeaderRow` | src/App.tsx:552 | the export header is "Employee Name" followed by one `day\nname` cell per day of the month |
| `Schedule.EmployeeRow` | src/App.tsx:557-563 | an export row is the employee's name followed by the shift found under each day's key, or the empty text |
| `Schedule.ExportGrid` | src/App.tsx:551-564 | the sheet is the header followed by one row per employee, in order |
| `Schedule.CellTextUnique` | src/App.tsx:557-563 | in a store with unique keys, a cell shows the shift of the entry under its key, and is empty when the key is absent |
| `Rotation.RunLengthSound` | src/App.tsx:226-250 | the runs are maximal, expand back to the codes, are no more numerous than the codes, and end with the last code |
| `Rotation.RunLengthOfExpand` | src/App.tsx:226-250 | run-length encoding a sequence of maximal runs gives back those runs |
| `Rotation.RunLengthTotal` | src/App.tsx:226-250 | the run lengths sum to the number of codes |
| `Rotation.RunTextRoundTrip` | src/App.tsx:234-244 | a run written as `code:days` parses back to the same code and day count |
| `Rotation.RoundDiv` | src/App.tsx:249 | `Math.round(a / b)` is the nearest integer, with halves rounded up |
| `Rotation.StateAfterAdd` | src/App.tsx:347-358 | running the rotation for a days and then b days is running it for a + b days |
| `Rotation.WithinFirstBlock` | src/App.tsx:347-358 | before the threshold is reached the shift stays and the counter grows by one a day |
| `Rotation.FirstSwitch` | src/App.tsx:347-358 | once the counter reaches the threshold the shift flips and the counter restarts at 0 |
| `Rotation.FullBlock` | src/App.tsx:347-358 | from a fresh counter, threshold days later the shift has flipped |
| `Rotation.RotationClosedForm` | src/App.tsx:347-358 | after the first block and n whole blocks the shift has flipped n + 1 times, and the counter is the remainder |
| `Rotation.FlipNAlternates` | src/App.tsx:347-358 | flipping n times alternates between the categories by parity, and after the first flip lands on "AU" or "IST" |
| `Rotation.StateAfterWorking` | src/App.tsx:347-358 | a rotation that starts on a working code stays on working codes |
| `PatternAnalysis.SortByDaySorted` | src/App.tsx:218-223 | sorting the working entries by date yields entries in non-decreasing day order |
| `PatternAnalysis.SortByDayPermutes` | src/App.tsx:218-223 | the sort is a permutation of its input |
| `PatternAnalysis.WorkingEntries` | src/App.tsx:215-216 | the working entries are exactly the employee's entries of the month whose shift is not L, WO or OFF |
| `PatternAnalysis.AnalyzeCodes` | src/App.tsx:226-250 | the consecutive-day scan returns the pattern of the code sequence |
| `PatternAnalysis.PatternAccounting` | src/App.tsx:226-250 | the pattern lists the maximal runs as `code:days`, its total is the number of working days, its last shift is the last code, and its average is the rounded mean run length |
| `PatternAnalysis.AnalyzePatterns` | src/App.tsx:211-256 | an employee has a pattern exactly when listed and having some working entry that month, and the pattern is the one computed from those entries |
| `PatternAnalysis.PatternForSome` | src/App.tsx:216-218 | a pattern exists exactly when the employee has a working entry in the month |
| `PatternAnalysis.OffCodesIgnored` | src/App.tsx:216 | adding off-code entries does not change what the analyzer sees |
| `DayFill.FillShape` | src/App.tsx:303-361 | every generated entry belongs to the employee and month, lies in the day range, avoids taken keys and is auto-assigned; days increase strictly |
| `DayFill.FillUniqueKeys` | src/App.tsx:303-361 | the generated entries have unique keys |
| `DayFill.FillWeekOffs` | src/App.tsx:303-361 | every free week-off day gets a "WO" entry, and no other day does |
| `DayFill.FillRotation` | src/App.tsx:316-361 | the free working days carry the rotation's codes in order, and the end state is the rotation's state after that many days |
| `DayFill.FillIdle` | src/App.tsx:316-361 | starting from a non-working code writes only week-offs and leaves the state unchanged |
| `NextMonth.MonthAfter` | src/App.tsx:267 | the month after December is January of the next year; otherwise the month increments |
| `NextMonth.MonthBefore` | src/App.tsx:369-371 | the previous month is the inverse of the month after |
| `NextMonth.CarryOverOfRuns` | src/App.tsx:281-299 | a last run of fewer than 5 days continues with its code and count; otherwise generation starts on the other category with a count of 0 |
| `NextMonth.CarryOverWorking` | src/App.tsx:281-299 | the carried-over code is a working code |
| `NextMonth.GenerateForEmployee` | src/App.tsx:277-361 | the per-employee loop returns that employee's month plan |
| `NextMonth.EmployeePlanFacts` | src/App.tsx:303-361 | the plan has one entry per day of the month, in day order; "WO" falls exactly on week-off days with 0 hours; other days get a working code with the employee's hours |
| `NextMonth.GenerateNextMonth` | src/App.tsx:271-362 | the loop over employees returns the month plan |
| `NextMonth.MonthPlanOwners` | src/App.tsx:271-362 | every generated entry lies in the target month and belongs to a listed employee that has a pattern |
| `NextMonth.MonthPlanUnique` | src/App.tsx:271-362 | for employees with distinct ids, the month plan has unique keys |
| `NextMonth.AppendPlanUnique` | src/App.tsx:365 | appending the plan to a store whose target month is empty keeps keys unique |
| `AutoFill.TrailingRun` | src/App.tsx:628-635 | the backward count of consecutive equal codes is the length of the last run |
| `AutoFill.AutoDistribute` | src/App.tsx:601-721 | auto-fill returns the auto-fill plan of its snapshot |
| `AutoFill.FillRestOfMonth` | src/App.tsx:650-715 | the day loop from the day after the last working entry to month end returns the fill of those days |
| `AutoFill.AutoFillPlanFills` | src/App.tsx:614-715 | with three or more working entries, the plan is the fill from the day after the last working day, starting from the trailing run, at threshold 5 |
| `AutoFill.LastWorkingDay` | src/App.tsx:651 | the last working entry's day lies within the month |
| `AutoFill.AutoFillFacts` | src/App.tsx:614-715 | the plan is empty for an unknown employee or fewer than 3 working entries; otherwise it has unique keys, all free and after the last working day, with "WO" exactly on week-off days |
| `AutoFill.AutoFillSwitchesBack` | src/App.tsx:637-647 | after the switch before the loop the counter is still 5 or more, so one working day later the loop switches back to "IST" or "AU" |
| `Assignment.CollectRange` | src/App.tsx:451-542 | the leave or week-off loop returns the range plan |
| `Assignment.RangePlanFacts` | src/App.tsx:451-542 | the range plan has unique keys and holds an "L" (or "WO") entry with 0 hours for exactly the days of the current month between start and end |
| `Assignment.CollectAssignment` | src/App.tsx:760-814 | the assignment loop returns the batch, and the entries of the snapshot that share a key with it |
| `Assignment.AssignedDaysSpec` | src/App.tsx:764-781 | a day is assigned exactly when it lies in the month and the distribution admits it: auto mode skips week-off days, manual mode takes only the listed days |
| `Assignment.ManualEntriesFacts` | src/App.tsx:760-810 | the batch has unique keys, and holds the shift with the employee's raw `workingHours` for exactly the assigned days between start and end |
| `Assignment.ExistingSpec` | src/App.tsx:782-816 | confirmation is asked exactly when some batch key already holds an entry, and the entries reported are those entries |
| `Assignment.FollowOnSpec` | src/App.tsx:160-196 | the day after an AU shift gets an "OFF" entry with 0 hours exactly when the employee exists, that day is in the month, and the snapshot has no entry under its key |
| `ScheduleScreen.MaxId` | src/App.tsx:384 | the largest id, or 0 when there are no employees |
| `ScheduleScreen.AddEmployeeFreshId` | src/App.tsx:378-399 | a blank name adds nothing; otherwise one employee is appended whose id exceeds every existing id, so ids stay distinct |
| `ScheduleScreen.WithoutEmployeeId` | src/App.tsx:199-208 | deleting removes exactly the employees with that id |
| `ScheduleScreen.CellEditCases` | src/App.tsx:401-448 | an unknown employee, a cancelled prompt or an unknown code leaves the store alone; otherwise the catalog entry whose upper-cased code equals the upper-cased answer is stored |
| `ScheduleScreen.CellEditClears` | src/App.tsx:412-417 | an empty answer removes the cell's entry and nothing else |
| `ScheduleScreen.StoreShiftFacts` | src/App.tsx:419-447 | storing a shift keeps keys unique and puts the code, with hours `workingHours \|\| 8`, under the cell's key; only that key and the next day's can change |
| `ScheduleScreen.CellEditDates` | src/App.tsx:401-448 | a cell edit keeps every entry's date inside its month |
| `ScheduleScreen.ManualCases` | src/App.tsx:724-830 | a rejected request or a refused confirmation leaves the store alone; otherwise the batch is written, followed by the rest days and the auto-fill |
| `ScheduleScreen.ManualAborts` | src/App.tsx:724-751 | a missing field, an unknown employee or shift, or a refused confirmation leaves the store alone |
| `ScheduleScreen.ManualUnique` | src/App.tsx:724-830 | an accepted non-AU batch keeps keys unique, and every written batch entry is the one found under its key |
| `ScheduleScreen.ApplyStoreUnique` | src/App.tsx:811-830 | writing a non-AU batch and its auto-fill keeps keys unique |
| `ScheduleScreen.ApplyStoreDates` | src/App.tsx:811-830 | writing a batch keeps every entry's date inside its month |
| `ScheduleScreen.FollowOnsFacts` | src/App.tsx:160-196 | every rest day is an auto-assigned "OFF" for the same employee, under a key that was free in the snapshot and that is the day after a batch entry |
| `ScheduleScreen.FollowOnsContain` | src/App.tsx:825-830 | every batch day whose next day is free and in the month gets its rest day |
| `ScheduleScreen.RestDaysAfterAU` | src/App.tsx:825-830 | the loop over the batch returns the rest days of the batch |
| `ScheduleScreen.AdjacentAUDuplicates` | src/App.tsx:160-196 | two consecutive AU days in one batch leave two entries under the second day's key |
| `ScheduleScreen.AnalyzedPatterns` | src/App.tsx:211-256 | the analyzer returns the patterns of the current month |
| `ScheduleScreen.NextMonthFacts` | src/App.tsx:259-375 | with no data this month the store is unchanged; otherwise the old store is kept and the appended entries lie in the next month, each for an employee who worked this month; keys stay unique when the next month was empty |
| `ScheduleScreen.ScheduleApp.AddEmployee` | src/App.tsx:378-399 | the employee list becomes the list with the new employee added; nothing else changes |
| `ScheduleScreen.ScheduleApp.DeleteEmployee` | src/App.tsx:199-208 | after confirmation the employee and all their entries are removed; otherwise nothing changes |
| `ScheduleScreen.ScheduleApp.CellEdit` | src/App.tsx:401-448 | the entries become the cell-edit store; nothing else changes |
| `ScheduleScreen.ScheduleApp.AddRange` | src/App.tsx:451-542 | a missing employee or date leaves the entries alone; otherwise the range plan is written by key |
| `ScheduleScreen.ScheduleApp.ApplyManualAssignment` | src/App.tsx:724-830 | the entries become the manual-assignment store |
| `ScheduleScreen.ScheduleApp.WriteAssignment` | src/App.tsx:811-830 | the entries become the batch written by key, then the rest days and the auto-fill |
| `ScheduleScreen.ScheduleApp.GoToNextMonth` | src/App.tsx:259-375 | the month moves forward one, and the entries gain the generated next month |
| `ScheduleScreen.ScheduleApp.GoToPreviousMonth` | src/App.tsx:369-371 | the month moves back one, and nothing else changes |
| `RoundRobin.Toggle` | src/components/TimetableGenerator.tsx:81-97 | the toggled id is present afterwards exactly when it was absent before; every other id is unchanged |
| `RoundRobin.ToggleFacts` | src/components/TimetableGenerator.tsx:81-97 | toggling keeps ids distinct, toggling twice restores the list, and adding appends at the end |
| `RoundRobin.IncludedWeekdays` | src/components/TimetableGenerator.tsx:122-129 | with five working days only Monday to Friday are scheduled; otherwise every day is |
| `RoundRobin.IncludedUpToFacts` | src/components/TimetableGenerator.tsx:120-129 | the scheduled days are exactly the included days, in increasing order |
| `RoundRobin.PlanLayout` | src/components/TimetableGenerator.tsx:120-145 | the plan has one entry per scheduled day and shift, laid out day by day |
| `RoundRobin.PlanMembership` | src/components/TimetableGenerator.tsx:130-140 | an entry is in the plan exactly when it is the rotated member for some scheduled day and shift |
| `RoundRobin.PlanEntries` | src/components/TimetableGenerator.tsx:130-140 | every entry pairs a selected member and shift on a scheduled day, with status "scheduled" |
| `RoundRobin.RunPlan` | src/components/TimetableGenerator.tsx:99-152 | the generator loop returns the outcome of the plan |
| `RoundRobin.DayBlock` | src/components/TimetableGenerator.tsx:130-140 | the inner loop returns that day's entries |
| `RoundRobin.CsvRoundTrip` | src/components/TimetableGenerator.tsx:191-204 | splitting the CSV on newlines gives the header and one line per entry, and splitting each line on commas gives back its fields |
| `RoundRobin.GeneratorForm.ToggleEmployee` | src/components/TimetableGenerator.tsx:81-88 | the selected employees are toggled; nothing else changes |
| `RoundRobin.GeneratorForm.ToggleShift` | src/components/TimetableGenerator.tsx:90-97 | the selected shifts are toggled; nothing else changes |
| `RoundRobin.GeneratorForm.GenerateTimetable` | src/components/TimetableGenerator.tsx:99-152 | the outcome is that of the form; the generated list is replaced only on success |
| `TimetableRoutes.FirstAssignment` | src/routes/timetableRoutes.ts:39-41 | the assignment found is the first one for the employee and date, and `None` means there is none |
| `TimetableRoutes.FirstIsEarliest` | src/routes/timetableRoutes.ts:39-41 | when the earliest matching assignment sits at position i, the search returns exactly that assignment |
| `TimetableRoutes.DayEntryCases` | src/routes/timetableRoutes.ts:28-50 | a day with an assignment takes its shift and status ("scheduled" by default); a day without one is "OFF" with status "off" |
| `TimetableRoutes.GridLayout` | src/routes/timetableRoutes.ts:23-54 | the generated entries hold one entry per employee and day, employee by employee |
| `TimetableRoutes.BuildGrid` | src/routes/timetableRoutes.ts:23-54 | the nested loops return the grid |
| `TimetableRoutes.TimetableStore.Generate` | src/routes/timetableRoutes.ts:11-78 | an invalid month saves nothing; otherwise the timetable under (month, year, project) is created, or its entries overwritten |
| `TimetableRoutes.TimetableStore.Find` | src/routes/timetableRoutes.ts:81-98 | the lookup returns the timetable under the key, or `None` when there is none |
| `TimetableRoutes.FindIndex` | src/routes/timetableRoutes.ts:186-188 | `findIndex` returns the first index matching the employee and date, or -1 |
| `TimetableRoutes.UpsertFacts` | src/routes/timetableRoutes.ts:186-196 | the first matching entry is replaced, or the new entry appended when there is none; every other entry is unchanged |
| `TimetableRoutes.UpsertLookup` | src/routes/timetableRoutes.ts:186-196 | after the update, the first entry for that employee and date is the new entry |
| `TimetableRoutes.UpsertIdempotent` | src/routes/timetableRoutes.ts:186-196 | repeating the same update changes nothing |
| `TimetableRoutes.TimetableStore.UpdateEntry` | src/routes/timetableRoutes.ts:176-196 | an unknown timetable is reported and left alone; otherwise its entries are upserted |
| `TimetableRoutes.HeaderRow` | src/routes/timetableRoutes.ts:127 | the header is "Employee" followed by one `d-MMM` cell per day |
| `TimetableRoutes.SheetShape` | src/routes/timetableRoutes.ts:127-154 | the sheet has the header and one row per employee; each day cell shows the entry's shift, or "Off" when there is none |
| `TimetableRoutes.ExportShowsGenerated` | src/routes/timetableRoutes.ts:23-54 | exporting a freshly generated timetable shows each day's generated shift |
| `TimetableRoutes.BuildSheet` | src/routes/timetableRoutes.ts:127-157 | the export loops return the sheet |
| `TimetableRoutes.TimetableStore.Export` | src/routes/timetableRoutes.ts:101-157 | an unknown timetable exports nothing; otherwise the sheet of its entries |
| `Accounts.FindShared` | src/models/User.ts:107-109 | the account found is the first with the id, and `None` means there is none |
| `Accounts.PermissionFacts` | src/models/User.ts:106-118 | no account gives no permission; otherwise the permission holds exactly when the first such account lists it or lists "admin" |
| `Accounts.AdminGrantsAll` | src/models/User.ts:113-114 | an "admin" account grants every permission |
| `Accounts.KeepLastFacts` | src/models/User.ts:121-136 | the history ends with the new login and keeps at most the last 10 logins, in order |
| `Accounts.AfterLoginsKeepsRecent` | src/models/User.ts:125-135 | after any number of logins the history is the last 10 logins |
| `Accounts.User.TrackLogin` | src/models/User.ts:121-136 | the last-login time is now, the user is active, and the history is trimmed to the last 10 |
| `Text.Utf16LengthBmp` | src/components/Login.tsx:53 | `.length` counts UTF-16 code units: it equals the number of characters exactly when none lies outside the Basic Multilingual Plane |
| `PasswordStrength.CheckPasswordStrength` | src/components/Login.tsx:44-108 | the meter's result equals the expected strength of the password |
| `PasswordStrength.ScoreFacts` | src/components/Login.tsx:65-105 | the score is a multiple of 25; it is 100, labelled "Strong" with "Excellent password!", exactly when all four criteria hold; a lower score has advice |
| `PasswordStrength.MissingFacts` | src/components/Login.tsx:93-102 | the advice lists exactly the unmet criteria, in their fixed order, and their number plus the met ones is 4 |
| `EmployeeDirectory.AddSkillFacts` | src/components/EmployeeManagement.tsx:138-146 | a blank or present skill changes nothing; otherwise the trimmed skill is appended and the input cleared |
| `EmployeeDirectory.RemoveSkill` | src/components/EmployeeManagement.tsx:148-153 | removing a skill deletes every copy of it and keeps the others in order |
| `EmployeeDirectory.RemoveUndoesAdd` | src/components/EmployeeManagement.tsx:138-153 | removing a skill just added restores the skills |
| `EmployeeDirectory.UpdateAvailabilityFacts` | src/components/EmployeeManagement.tsx:155-163 | the chosen day takes the new value; every other day and field is unchanged |
| `EmployeeDirectory.FilteredEmployeesFacts` | src/components/EmployeeManagement.tsx:165-170 | the filter keeps, in order, exactly the employees whose name, id, e-mail or department contains the term once both are lower-cased; an empty term keeps all |
| `TimetableView.FilteredTimetablesFacts` | src/components/TimetableDisplay.tsx:46-51 | the filter keeps, in order, exactly the timetables matching name, month and year |
| `TimetableView.CalendarDaysFacts` | src/components/TimetableDisplay.tsx:53-61 | the calendar lists 1..n in order; an unknown month name gives 31 days; February has 29 exactly in leap years |
| `TimetableView.EntriesForDateFacts` | src/components/TimetableDisplay.tsx:63-67 | without a selection there are no entries; otherwise the entries whose date is the cell's date text, in order |
| `TimetableView.EntriesForDateDisjoint` | src/components/TimetableDisplay.tsx:63-67 | two different days show disjoint entries |
| `TimetableView.StatusColorFacts` | src/components/TimetableDisplay.tsx:69-77 | the gray class is given exactly to unknown statuses, and the four known statuses get distinct classes |
| `TimetableView.ExportCsvLines` | src/components/TimetableDisplay.tsx:79-92 | the CSV splits back into the header and each entry's five fields |
| `ShiftClock.DisplayHourFacts` | src/components/ShiftManagement.tsx:112-118 | the 12-hour display lies in 1..12, shows midnight and noon as 12, and together with AM/PM recovers the hour |
| `ShiftClock.FormatTimeOfHour` | src/components/ShiftManagement.tsx:112-118 | formatting `HH:mm` gives the 12-hour display with the right AM/PM suffix |
| `ShiftClock.FormatTimeParts` | src/components/ShiftManagement.tsx:113-114 | a time `h:m` with one colon is shown from `parseInt` of the hour text and the minutes text as it is |
| `ShiftClock.ClockTextOfHour` | src/components/ShiftManagement.tsx:115-117 | a non-negative hour is shown as its remainder by 12, or 12 when that is 0, with "PM" from 12 on |
| `ShiftClock.FormatTimeLenientHours` | src/components/ShiftManagement.tsx:112-118 | hour texts are read as `parseInt` reads them: " 7:30" shows "7:30 AM", "+13:05" "1:05 PM", "-5:30" "-5:30 AM" (the remainder keeps the sign) and "0x1A:00" "2:00 PM" |
| `Text.ParseIntDecimal` | src/components/ShiftManagement.tsx:114 | `parseInt` reads a non-empty run of decimal digits, zero-filled or not, as its decimal value |
| `Text.ParseIntSkipsSpace` | src/components/ShiftManagement.tsx:114 | `parseInt` skips leading whitespace |
| `Text.ParseIntSign` | src/components/ShiftManagement.tsx:114 | a leading "+" leaves the reading of the rest as it is, a leading "-" negates it, and NaN stays NaN |
| `Text.ParseIntHex` | src/components/ShiftManagement.tsx:114 | "0x" followed by hexadecimal digits is read in radix 16 |
| `Text.TruncRem` | src/components/ShiftManagement.tsx:116 | JavaScript's `%` by a positive divisor: the result lies strictly between the negated divisor and the divisor, and has the sign of the dividend |
| `Text.TruncRemCongruent` | src/components/ShiftManagement.tsx:116 | `hour % 12` is congruent to the hour modulo 12 |
| `Text.ParseNatToString` | src/App.tsx:283 | `parseInt` reads back the decimal text of a day count |
| `ActivityColors.ActionColorFacts` | src/components/AdminDashboard.tsx:274-289 | the colour ignores case; the blue-grey default is given exactly to unknown actions; the five known actions get distinct colours |

## Left out

- Rendering, modals, alerts and `prompt`/`confirm` dialogs are not modelled. A dialog's answer is a parameter of the handler.
- `setTimeout` delays are not modelled.
- React's batching of state updates is modelled only through explicit snapshot parameters.
- Entry ids built from `Date.now()` are not modelled: entries are identified by their key. Shift names and colours copied onto entries are kept as fields, but no property depends on them.
- JavaScript `Date` parsing of the date-picker strings and time zones are not modelled. A date that does not parse becomes a missing date (`None`) or an empty loop.
- Spreadsheet styling, column widths, `XLSX.writeFile`, Blob downloads and the DOM link click are not modelled. The export is modelled as the grid of cell texts.
- The HTTP layer is not modelled: axios calls, Express request parsing, status codes, MongoDB queries and `save()`. Loading employees and shifts becomes a parameter. A timetable is stored in a map keyed by (month, year, project).
- The `/generate` route's validation and error responses are not modelled beyond an invalid month.
- `TimetableRoutes.TimetableStore.UpdateEntry`: looks the timetable up by its (month, year, project) key rather than by the MongoDB document id.
- `TimetableRoutes.TimetableStore.Export`: takes the active employees and shifts as parameters instead of querying them.
- Password hashing, token signing and the login/registration submit are not modelled. They are calls into libraries with no visible logic.
- The compiled copies under `dist/` and `vercel-build.js` are not modelled. The compiled copies duplicate the sources, and `vercel-build.js` is deployment glue.
- `Text.ParseInt`: reads the digits as an exact integer. JavaScript's `parseInt` returns a double, so a text of more than 15 significant digits is rounded there, and a value of 10^21 or more prints in exponent form in the clock display.
- The clock is not modelled. `Accounts.User.TrackLogin` and the employee form take the current time or date as a parameter.
- `ScheduleScreen.ManualUnique`: key uniqueness is proved only for non-"AU" batches. An "AU" batch can leave duplicate keys, as `ScheduleScreen.AdjacentAUDuplicates` shows.
- `ScheduleScreen.NextMonthFacts`: key uniqueness is proved only when the target month was empty. The source appends without clearing it.
- `Text.ToLower` and `Text.ToUpper`: map the ASCII letters only. JavaScript's `toLowerCase` and `toUpperCase` follow Unicode case mapping, so "MÜLLER" lowers to "müller" there but to "mÜller" here. Unicode case tables are not modelled.
- `ScheduleScreen.CellEditCases`: the code answer is matched with the ASCII-only `Text.ToUpper`. An answer such as "ıst" (dotless i) upper-cases to the catalog code "IST" in the source but not here.
- `ScheduleScreen.ScheduleApp.CellEdit`: the same ASCII-only match as `ScheduleScreen.CellEditCases`.
- `EmployeeDirectory.FilteredEmployeesFacts`: the search lowers ASCII letters only, so a search differing only in the case of a non-ASCII letter ("MÜLLER" for "Müller") matches in the source but not here.
- `TimetableView.FilteredTimetablesFacts`: the project-name search lowers ASCII letters only, with the same gap.
- `ActivityColors.ActionColorFacts` and `TimetableView.StatusColorFacts`: the colours are compared only as strings; how they are rendered is not modelled.
