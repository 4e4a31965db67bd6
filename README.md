# FamíliaTask task logic in Dafny

FamíliaTask is a family task board. Its page component (`app/page.tsx`) holds
the whole task logic, and this project models it:

- the status a task is shown with (`getTaskStatus`: completed, overdue or the
  stored status);
- the task list under the *all* / *today* / *week* filter, with its ordering
  (overdue first, then pending, in progress and completed, each group by due
  date);
- the overdue badge count;
- the columns the completion toggle writes;
- the monthly report: the tasks due in the month, their status counts and
  completion rate, and the per-member, per-category and per-priority
  breakdowns;
- the previous/next month buttons of the report.

The records are those of `lib/supabase.ts`: `TaskStatus` (line 9),
`TaskPriority` (line 10), `Task` (lines 46-70) and `TaskAssignment`
(lines 72-79). Each is reduced to the columns the logic reads.

Modules:

- `Wrappers` (`wrappers.dfy`): `Option`, for nullable columns.
- `Calendar` (`calendar.dfy`): JavaScript time values as integer
  milliseconds. `new Date(y, m, d, h, mi, s)` is ECMAScript's
  `MakeDay`/`MakeTime` over the proleptic Gregorian calendar, with month and
  day overflow carried into the next month or year (day 0 is the previous
  month's last day). Years 0..99 are read as 1900..1999.
- `Seqs` (`seqs.dfy`): `Array.prototype.filter` and `map`, with the
  membership, sub-multiset and partition facts.
- `Sorting` (`sorting.dfy`): `Array.prototype.sort`, which is stable, for a
  comparator that compares a two-part key. It is an insertion sort, proved
  sorted, a permutation and stable, and proved to be the *only* sorted,
  stable arrangement.
- `Tasks` (`tasks.dfy`): the shown status, the filtered and sorted list, the
  overdue count, and the toggle.
- `Report` (`report.dfy`): the monthly report. Descending sorts (`b.rate -
  a.rate`, `b.total - a.total`) are ascending sorts on the negated key.
- `Navigation` (`navigation.dfy`): the `reportMonth`/`reportYear` state pair
  as a class whose two methods update it in place.

"Now" is a parameter wherever the code reads the clock. `Math.round(c / t *
100)` is integer rounding to the nearest whole number, with halves rounded
up: `(200c + t) div 2t`.

In two places the model follows the code where a reader might expect otherwise:

- A task is overdue when the instant of its due date lies before now. The
  due time and the end of the due day play no part, because
  `getTaskStatus` (`app/page.tsx:262-270`) reads only `due_date`.
- The report window ends at 23:59:59.000 of the month's last day, because
  that is how `app/page.tsx:343` builds it. The last 999 ms of a month
  therefore belong to no month's report (`Report.MonthWindowsDisjoint`).

## Model

| member | source | states |
|---|---|---|
| Calendar.DaysInYear | app/page.tsx:342-343 | a year has 366 days exactly when it is a Gregorian leap year, 365 otherwise |
| Calendar.DaysInMonth | app/page.tsx:343 | February has 29 days in leap years and 28 otherwise; April, June, September and November have 30; the other seven months have 31 |
| Calendar.DaysBeforeMonth | app/page.tsx:342 | the days before month m of a year number between 28m and 31m |
| Calendar.MonthsFillYear | app/page.tsx:343 | the twelve month lengths add up to the year's length |
| Calendar.DayFromYearStep | app/page.tsx:343 | the first day of the next year is one year length after this year's first day, so month overflow into the next year lands on the right day |
| Calendar.FullYear | app/page.tsx:342 | the `Date` constructor reads years 0..99 as 1900..1999 and leaves others as given |
| Calendar.MakeDay | app/page.tsx:342-343 | for a month in 0..11, the day number is the year's first day plus the days before the month plus the day less one; months 12..23 land in the next year |
| Calendar.MakeTime | app/page.tsx:343 | a time of day with hours 0..23, minutes and seconds 0..59 lies within the day, at most one second before its end |
| Calendar.LocalInstant | app/page.tsx:342-343 | with an in-range time of day, the constructed instant falls on the day MakeDay gives for the (reinterpreted) year, month and day |
| Calendar.MonthStart | app/page.tsx:342 | `new Date(y, m, 1)` is midnight of the month's first day: the year's first day plus the days before the month |
| Calendar.MonthEnd | app/page.tsx:343 | `new Date(y, m + 1, 0, 23, 59, 59)` is 23:59:59 of the month's last day |
| Calendar.NextWindowFollows | app/page.tsx:342-343 | the next month's window starts one second after this one ends, across December too, except where the next year is reinterpreted (-1 to 0, 99 to 100) |
| Calendar.StartOfDay | app/page.tsx:274 | today's local midnight is a whole day number, at or before now and less than one day before it |
| Calendar.DayZeroIsLastDay | app/page.tsx:343 | day 0 of the next month is the last day of this month, across December too |
| Calendar.MonthWindow | app/page.tsx:342-343 | the report window runs from midnight of day 1 to 23:59:59 of the last day; it spans the month's length less one second; the next month starts one second after it ends |
| Seqs.Filter | app/page.tsx:278-290 | a filter keeps only elements of the input that pass, and is no longer than the input |
| Seqs.Map | app/page.tsx:359-361 | a map keeps the length and applies the function to each element in place |
| Seqs.FilterMembers | app/page.tsx:278-290 | an element is kept exactly when it occurs in the input and passes |
| Seqs.FilterKeepsAll | app/page.tsx:279 | a filter every element passes returns the input unchanged |
| Seqs.FilterSubMultiset | app/page.tsx:278-290 | a filter never duplicates an element |
| Seqs.FilterOfWeaker | app/page.tsx:354-355 | filtering by a stronger test selects a sub-multiset of what a weaker test selects, and is the weaker result filtered again |
| Seqs.FilterSplit | app/page.tsx:353-355 | two complementary tests split a sequence; their counts add up to its length |
| Seqs.FilterSplit3Counts | app/page.tsx:391-395 | under three mutually exclusive, exhaustive tests, each value's occurrences in the three results add up to its occurrences in the input |
| Seqs.FilterSplit3 | app/page.tsx:391-395 | three mutually exclusive, exhaustive tests partition the sequence as a multiset and by length |
| Sorting.Insert | app/page.tsx:291-299 | inserting adds exactly the one element to the multiset |
| Sorting.InsertSorted | app/page.tsx:291-299 | inserting into a sorted sequence keeps it sorted |
| Sorting.SortBy | app/page.tsx:291-299 | the sort result is ordered by the key and is a permutation of the input |
| Sorting.WithKeyMembers | app/page.tsx:291-299 | the elements of one key are exactly the input's elements with that key |
| Sorting.InsertWithKey | app/page.tsx:291-299 | an inserted element goes in front of the existing elements of its key, and no other key's order changes |
| Sorting.SortByStable | app/page.tsx:291-299 | the sort is stable: for every key, its elements keep their input order |
| Sorting.SortedUnique | app/page.tsx:291-299 | two sorted sequences with the same elements, in the same order, for every key are equal |
| Sorting.StableSortIsSortBy | app/page.tsx:291-299 | any sorted, stable arrangement of the input is the model's sort result, so the model agrees with every stable sort |
| Tasks.StatusAt | app/page.tsx:262-270 | a completed task shows as completed; a task shows overdue exactly when it is not completed and has a due instant before now; otherwise it shows its stored status |
| Tasks.OverdueStaysOverdue | app/page.tsx:262-270 | an overdue task stays overdue at every later instant; a task not overdue later was not overdue earlier either |
| Tasks.DueKey | app/page.tsx:298 | the secondary sort key is the due instant, and 0 for an undated task (`a.due_date \|\| 0`) |
| Tasks.Shown | app/page.tsx:278-290 | a task is shown under all always; under today or week exactly when it is dated and due from today's midnight to before midnight one day or seven days later (the undated branch never shows a task) |
| Tasks.ListKey | app/page.tsx:291-299 | comparing two tasks' keys gives the sign of the list's comparator as written (`Tasks.CompareTasks`): not after exactly when it is ≤ 0, strictly before exactly when it is < 0 |
| Tasks.Rank | app/page.tsx:292 | the list rank lies in 0..3 |
| Tasks.RankOrder | app/page.tsx:292 | overdue < pending < in progress < completed, and different shown statuses have different ranks |
| Tasks.FilteredTasks | app/page.tsx:272-300 | the list is ordered by the comparator and is a permutation of the tasks the filter selects |
| Tasks.FilteredTasksMembers | app/page.tsx:273-290 | under all, every task is shown; under today and week, only dated tasks are shown, due from today's midnight to before midnight one day (today) or seven days (week) later |
| Tasks.FilteredTasksSubmultiset | app/page.tsx:278-290 | the list adds and duplicates no task and is no longer than the task list |
| Tasks.AllShowsEverything | app/page.tsx:279 | the all list holds every task exactly as often as it occurs |
| Tasks.TodayWithinWeek | app/page.tsx:274-288 | every task of the today list is in the week list |
| Tasks.FilteredTasksOrder | app/page.tsx:291-299 | shown rank never decreases along the list; within a rank, the due instant (undated as 0) never decreases; the comparator is ≤ 0 for every earlier/later pair |
| Tasks.FilteredTasksStable | app/page.tsx:291-299 | tasks that compare equal keep their stored order |
| Tasks.FilteredTasksIsStableSort | app/page.tsx:291-299 | any sorted, stable arrangement of the selected tasks is exactly the list |
| Tasks.IsOverdueAt | app/page.tsx:303 | the badge's test holds exactly for tasks not completed with a due instant before now |
| Tasks.IsOpen | app/page.tsx:355 | pending or in progress is exactly not completed |
| Tasks.OverdueCount | app/page.tsx:302-304 | the overdue count is at most the number of tasks |
| Tasks.OverdueCountBounds | app/page.tsx:302-304 | only pending and in-progress tasks count as overdue, and the count never drops as time passes |
| Tasks.OverdueCountZero | app/page.tsx:302-304 | the count is zero exactly when no task shows as overdue |
| Tasks.ToggleUpdate | app/page.tsx:306-315 | a completed task becomes pending and any other completed; the completion time and the actor are set exactly when the new status is completed, and cleared otherwise |
| Tasks.Apply | app/page.tsx:309-315 | the update writes status, completion time and actor, and leaves id, category, priority and due date as they were |
| Tasks.Toggled | app/page.tsx:306-315 | the toggled row is pending if it was completed and completed otherwise; completed rows carry now and the actor, pending rows carry neither; id, category, priority and due date are unchanged |
| Tasks.ToggleKeepsRecord | app/page.tsx:306-315 | after a toggle, the completion columns agree with the status, and a task just completed never shows as overdue |
| Tasks.ToggleTwice | app/page.tsx:306-315 | toggling twice leaves a completed task completed, with the second toggle's time and actor, and turns a pending or in-progress task into a pending one with the completion columns cleared |
| Report.Rate | app/page.tsx:356 | the rate is 0 for an empty total, and otherwise the percentage rounded to the nearest integer with halves up; it lies in 0..100 when completed ≤ total |
| Report.RateMonotone | app/page.tsx:356 | more completed tasks never give a lower rate |
| Report.RateExtremes | app/page.tsx:356 | all done gives 100 and none done gives 0 |
| Report.InMonth | app/page.tsx:346-350 | for a month in 0..11, a task is in the month exactly when it is dated and due from midnight of the first day to 23:59:59 of the last day |
| Report.IsCompleted | app/page.tsx:353 | completed is exactly not open |
| Report.MonthTasks | app/page.tsx:345-350 | the month tasks are no more than the tasks |
| Report.TaskIdsOf | app/page.tsx:360-361 | a task id is among a member's ids exactly when an assignment row links that task to the member; there are no more ids than rows |
| Report.AssignedTo | app/page.tsx:362 | the `includes` test holds for a task exactly when an assignment row links it to the member |
| Report.MemberStatOf | app/page.tsx:359-373 | a member's completed count is at most their total, which is at most the month's, and their rate lies in 0..100 |
| Report.CategoryStatOf | app/page.tsx:377-387 | a category's completed count is at most its total, which is at most the month's, and its rate lies in 0..100 |
| Report.ReportData | app/page.tsx:341-408 | the total is the number of month tasks; completed, pending and overdue each are at most the total; the completion rate lies in 0..100 |
| Report.MonthTasksWindow | app/page.tsx:342-350 | a task is in the month exactly when it is dated and due from midnight of the month's first day to 23:59:59 of its last day, both ends included |
| Report.MonthWindowsDisjoint | app/page.tsx:342-349 | no task is in two consecutive months, December and the next January included; one due in the last 999 ms of a month is in neither (except at the reinterpreted years -1 and 99) |
| Report.CenturyWindowsApart | app/page.tsx:342-343 | December of year 99 and January of year 100, and December of -1 and January of year 0, share no task |
| Report.ReportCounts | app/page.tsx:352-356 | completed + pending = total; overdue ≤ pending; the rate is the rounded share of completed tasks, 0 with no tasks and 100 when all are done |
| Report.PriorityPartition | app/page.tsx:390-395 | the high, medium and low buckets hold only tasks of their priority and together are exactly the month's tasks |
| Report.MemberStats | app/page.tsx:359-374 | the member breakdown is, as a multiset and by count, exactly the member statistics with a positive total, one per listed member; it is sorted by rate, highest first |
| Report.MemberStatsStable | app/page.tsx:374 | members of equal rate keep the member list's order |
| Report.MemberStatsRows | app/page.tsx:359-374 | a row is in the member breakdown exactly when it is some member's statistics with a positive total |
| Report.MemberStatsOrder | app/page.tsx:374 | member rows are ordered by rate, highest first |
| Report.MemberHasTasks | app/page.tsx:359-374 | a member's total is positive exactly when some month task is assigned to them |
| Report.MemberStatsEntries | app/page.tsx:359-374 | every member row belongs to a listed member, has a positive total, completed ≤ total and a rate in 0..100; a member has a row exactly when a month task is assigned to them |
| Report.CategoryStats | app/page.tsx:377-388 | the category breakdown is, as a multiset and by count, exactly the category statistics with a positive total, one per listed category; it is sorted by task count, largest first |
| Report.CategoryStatsStable | app/page.tsx:388 | categories of equal task count keep the category list's order |
| Report.CategoryStatsRows | app/page.tsx:377-388 | a row is in the category breakdown exactly when it is some category's statistics with a positive total |
| Report.CategoryStatsOrder | app/page.tsx:388 | category rows are ordered by task count, largest first |
| Report.CategoryHasTasks | app/page.tsx:377-388 | a category's total is positive exactly when some month task has that category |
| Report.CategoryStatsEntries | app/page.tsx:377-388 | every category row belongs to a listed category, has a positive total, completed ≤ total and a rate in 0..100; a category has a row exactly when a month task has it |
| Navigation.MonthIndex | app/page.tsx:625-641 | with a month in 0..11, the index divided by 12 is the year and its remainder is the month |
| Navigation.MonthIndexInjective | app/page.tsx:625-641 | with months in 0..11, the index year·12 + month determines both year and month |
| Navigation.ReportPeriod.constructor | app/page.tsx:87-88 | the report starts at the given month in 0..11 and year |
| Navigation.ReportPeriod.PrevMonth | app/page.tsx:625-632 | January goes to December of the previous year and any other month to the one before; the month stays in 0..11 and the month index drops by one |
| Navigation.ReportPeriod.NextMonth | app/page.tsx:634-641 | December goes to January of the next year and any other month to the one after; the month stays in 0..11 and the month index rises by one |
| Navigation.PrevThenNext | app/page.tsx:625-641 | previous then next restores both month and year |
| Navigation.NextThenPrev | app/page.tsx:625-641 | next then previous restores both month and year |

## Left out

- Data loading, saving and the data store client are not modelled. This
  covers `loadUserData`, the `update` call of the toggle, authentication,
  the notification timer, the browser, and the HTML and PDF report output.
  The toggle is modelled as the row update it sends and the row it produces.
- Parsing of due dates is not modelled. The JavaScript `Date` parsing of
  `due_date` strings is replaced by the instant they denote, and a string
  that does not parse (an invalid `Date`) is not modelled.
- Timezones and daylight saving are not modelled: local time is taken to
  equal the timeline. So `setDate(getDate() + 7)` is exactly seven days of
  milliseconds.
- Reading the clock is not modelled; `now` is a parameter. `getTaskStatus`
  reads the clock once per call, so inside one sort or count the code may
  see slightly different instants; the model uses one instant throughout.
  The starting month and year of the report come from the clock and are
  constructor arguments.
- Calendar.StartOfDay: the `today` of the task list is built with
  `new Date(getFullYear(), …)`, which would reinterpret a current year
  0..99; the model takes the midnight of the current day directly.
- Report.Rate: `completed / total * 100` is floating point before
  `Math.round`. The model uses exact rational rounding, which can differ
  from the floating-point result only where the product lands next to a
  half.
- JavaScript limits time values to ±8.64e15 ms. Beyond that a `Date` is
  invalid, every comparison with it is false and the report is empty. The
  model's instants are unbounded, so this is not modelled; it is out of
  reach of the month buttons in practice.
- Only the three statuses and three priorities of `lib/supabase.ts` are
  modelled. Other strings in those columns are not.
- Recurrence, reminders, due times and the other task columns are not
  modelled. The task list logic never reads them.
- The acting member of the toggle is a parameter. When no member is
  signed in (`currentMember?.id` is undefined), it is `None`.
- React state batching is not modelled. The two setters of each month
  button are taken as one update of the pair.
