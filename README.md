# Attendance bot: a verified model of its attendance core

The bot answers slash commands in a Discord server and keeps one collection
of attendance records: user id, user name, type ('출근' check-in or '퇴근'
check-out) and timestamp. This project models the handlers that read and
write that collection:

- '출근' refuses a second check-in on the same local day and otherwise
  stores one.
- '퇴근' looks for today's check-in first and then for today's check-out.
  It stores a check-out only when there is a check-in and no check-out yet,
  and it reports the work time.
- '기록' resolves an option to an inclusive time window. The option is
  today (the default), this week (Sunday to Saturday), this month, or a
  date. The handler reads the user's records in that window in ascending
  time order and groups them by local day, one row per day.
- '삭제' removes all of the user's records on one date. It fails when the
  date does not parse or when nothing was removed.

The model also covers the pure helpers the handlers rely on:

- `calculateWorkHours`
- the JavaScript `Date` arithmetic behind the windows (`setHours`,
  `setDate`/`getDate`/`getDay`, and `new Date(y, m, d, ...)` with month
  overflow and day 0)
- the lotto command's number generator and its ball colours

Layout:

| file | module | contents |
|---|---|---|
| `calendar.dfy` | `Calendar` | instants as integer milliseconds on the local timeline; Gregorian day numbers; the `Date` operations |
| `worktime.dfy` | `WorkTime` | `calculateWorkHours` over integer milliseconds |
| `events.dfy` | `Options`, `Events` | the record type and the queries `findOne`, `find().sort()` and `deleteMany` as functions on a sequence |
| `ranges.dfy` | `Ranges` | the report and delete windows |
| `report.dfy` | `Report` | the `recordsByDate` grouping and its loop |
| `attendance.dfy` | `Attendance` | the four handlers as step functions and as methods of the `AttendanceStore` class; the store invariant |
| `sequences.dfy` | `Sequences` | sequences without repeats and the size of their set of values |
| `lotto.dfy` | `Lotto` | `generateLottoNumbers` with the random draws as input; `getLottoBallColor` |

Each handler is written twice:

- as a step function on the stored events, such as `CheckInStep` or
  `DeleteStep`;
- as a method of `AttendanceStore`, which does the same work through the
  methods `FindOne`, `Find`, `Save` and `DeleteMany`. `FindOne`, `Find` and
  `DeleteMany` are loops over the collection; `Save` appends one record.

Each handler method is proved equal to its step function. The lemmas state
the handlers' promises about the step functions. They also show that one
store invariant holds after any sequence of commands:

- each user has at most one check-in and at most one check-out per local day;
- every check-out has a check-in on the same day.

Instants are integer milliseconds on the server's local timeline. `DayOf(t)`
is the local day number, counted from 1970-01-01, and rounded down.

`calculateWorkHours` does not clamp a negative duration. The model keeps
that, and `WorkTime.WorkHoursOfNegative` states what then comes out
(negative hours, minutes in -60..0).

A report lists one embed field per day, and a Discord embed takes at most
25 fields. Adding a 26th field throws, and the report's `catch` replies
with the failure embed. `Attendance.MaxEmbedFields` and the outcome
`ReportFailed` model this. Only a '이번달' report can hit the limit
(`Attendance.ShortReportsFit`).

## Model

| member | source | states |
|---|---|---|
| Calendar.SetHours | index.js:160-161 | `setHours(h, m, s, ms)`: the same local day at the given time of day; its properties are stated by `StartOfDayAt`, `EndOfDayAt` and `DayWindow` |
| Calendar.StartOfDay | index.js:160 | `today.setHours(0, 0, 0, 0)`; stated by `StartOfDayAt` and `DayWindow` |
| Calendar.EndOfDay | index.js:161 | `today.setHours(23, 59, 59, 999)`; stated by `EndOfDayAt` and `DayWindow` |
| Calendar.WeekDay | index.js:284 | `getDay()`: 0 for Sunday to 6 for Saturday; stated by `WeekStartIsSunday` |
| Calendar.GetDate | index.js:286 | `getDate()`: the day of the month; stated by `CivilFromDays` and `SetDateShift` |
| Calendar.SetDate | index.js:286 | `setDate(n)` with month overflow; stated by `SetDateShift` |
| Calendar.MakeDay | index.js:295-296 | the day number of `new Date(y, m, d)`, with month overflow and day 0; stated by `DayZeroOfNextMonth` and `MonthBounds` |
| Calendar.NewDate | index.js:295-296 | `new Date(y, m, d, h, mi, s, ms)`; stated by `MonthBounds` |
| Calendar.DayWindow | index.js:160-161 | the window from `setHours(0,0,0,0)` to `setHours(23,59,59,999)` holds exactly the instants on the same local day, no more and no fewer |
| Calendar.StartOfDayAt | index.js:160 | `setHours(0,0,0,0)` is midnight of the instant's own day |
| Calendar.EndOfDayAt | index.js:161 | `setHours(23,59,59,999)` is the last millisecond of the instant's own day |
| Calendar.DaysWindow | index.js:287-291 | from midnight of day a to the last millisecond of day b holds exactly the instants of days a..b |
| Calendar.TimeOfDay | index.js:160-161 | the time of day lies in 0..86 399 999 and, with the day number, rebuilds the instant |
| Calendar.DaysInMonth | index.js:296 | every month has 28..31 days; it has 29 exactly in February of a leap year |
| Calendar.MonthsFillYear | index.js:296 | the twelve months add up to the year's length (365 or 366) |
| Calendar.YearStartClosedForm | index.js:295-296 | the recursive day count of a year's first day equals the closed form 365·(y−1970) plus the leap days |
| Calendar.CivilFromDays | index.js:295-296 | `getFullYear`/`getMonth`/`getDate` of a day give a valid date that maps back to that same day |
| Calendar.CivilRoundTrip | index.js:295-296 | a valid date turned into a day number and back gives the same date |
| Calendar.WeekStartIsSunday | index.js:284-286 | going back `getDay()` days always lands on a Sunday |
| Calendar.DayZeroOfNextMonth | index.js:296 | `new Date(y, month + 1, 0)` is the last day of the month, December included |
| Calendar.SetDateShift | index.js:286 | `setDate(n)` moves `n - getDate()` whole days across any month boundary and keeps the time of day |
| WorkTime.CalculateWorkHours | index.js:38-45 | `calculateWorkHours`; stated by `WorkHoursOfNonNegative`, `WorkHoursUnique`, `WorkHoursOfNegative` and `NineToHalfPastSix` |
| WorkTime.HourRemainder | index.js:39-40 | JavaScript's `%` by one hour: it has the sign of the difference and is less than one hour in size |
| WorkTime.HourRemainderSplits | index.js:39-40 | the remainder is the difference minus its whole hours, counted toward zero, for either sign |
| WorkTime.WorkHoursOfNonNegative | index.js:38-45 | for end ≥ start: hours ≥ 0, minutes in 0..59, and whole hours plus whole minutes are the largest such amount not exceeding the difference |
| WorkTime.WorkHoursUnique | index.js:38-45 | any hours/minutes pair with that bracketing is the result (the reading is unique) |
| WorkTime.NineToHalfPastSix | index.js:38-45 | 09:00 to 18:30 gives 9 hours 30 minutes |
| WorkTime.WorkHoursOfNegative | index.js:38-45 | for end < start (no clamping): hours are negative and minutes lie in -60..0 |
| Events.FirstMatch | index.js:167-174 | `findOne`: None exactly when no record matches; otherwise the earliest matching record in store order |
| Events.Filter | index.js:315-320 | `find` before sorting keeps exactly the user's records inside the window |
| Events.Remove | index.js:396-402 | `deleteMany` keeps exactly the records outside the user's window |
| Events.RemoveSplits | index.js:396-402 | what `deleteMany` removes is, as a multiset, exactly what `find` returns; kept plus removed is the whole store |
| Events.FilterRemoveAppend | index.js:396-402 | each record goes either to what `find` returns or to what `deleteMany` keeps, never both |
| Events.RemoveNothingIff | index.js:404 | the deleted count is zero exactly when no record of the user lies in the window |
| Events.InsertByTime | index.js:321 | inserting into a time-sorted list keeps it sorted and adds exactly that element |
| Events.SortByTime | index.js:321 | `.sort({timestamp: 1})` yields an ascending permutation of its input |
| Events.Select | index.js:315-321 | the report reads an ascending permutation of exactly the user's records in the window |
| Events.CountOnDay | index.js:167-174 | the count of a user's records of one type on one day is zero exactly when there are none |
| Events.CountOnDayRemove | index.js:396-402 | deleting never raises any user's per-day count of any type |
| Events.AtMostOneOnDay | index.js:210-217 | with a count of at most one, any two such records are the same record |
| Events.DayMatch | index.js:160-174 | a record matches the today window exactly when it belongs to this user and type on today's local day |
| Ranges.ReportOption | index.js:275 | a missing or empty option reads as '오늘'; stated by `TodayIsDefault` |
| Ranges.ResolveReportRange | index.js:275-313 | the report window for '오늘', '이번주', '이번달' or a date, refused otherwise; stated by `TodayIsDefault`, `WeekRangeSpec`, `MonthRangeSpec`, `DayRangeExact` and `ReportInvalidIff` |
| Ranges.ResolveDeleteRange | index.js:380-394 | the delete window of a parsed date, refused otherwise; stated by `DayRangeExact` and `DeleteOutcomes` |
| Ranges.WeekRange | index.js:283-291 | the '이번주' window; stated by `WeekRangeSpec`, `WeekRangeShape`, `WeekStart` and `WeekEnd` |
| Ranges.MonthRange | index.js:294-296 | the '이번달' window; stated by `MonthRangeSpec` and `MonthBounds` |
| Ranges.DayRange | index.js:310-311 | a parsed date's window; stated by `DayRangeExact` |
| Ranges.DayRangeExact | index.js:310-311 | a parsed date's window holds exactly the instants of its local day |
| Ranges.TodayIsDefault | index.js:275-282 | a missing, empty or '오늘' option gives today's window, which is exactly the current local day |
| Ranges.WeekRangeSpec | index.js:283-291 | '이번주' spans seven whole days, from midnight of the Sunday on or before today to the last millisecond of Saturday |
| Ranges.WeekRangeShape | index.js:284-291 | the week's start is midnight of today minus `getDay()` days, and its end is six days later at 23:59:59.999 |
| Ranges.WeekStart | index.js:284-287 | `setDate(getDate() - getDay())` then `setHours(0,0,0,0)` gives midnight of the week's first day |
| Ranges.WeekEnd | index.js:289-291 | `setDate(getDate() + 6)` then `setHours(23,59,59,999)` gives the last millisecond six days later |
| Ranges.MonthRangeSpec | index.js:294-296 | '이번달' spans from midnight of the 1st to the last millisecond of the month's last day: exactly the instants in today's year and month |
| Ranges.MonthBounds | index.js:295-296 | `new Date(y, m, 1)` and `new Date(y, m + 1, 0, 23, 59, 59, 999)` are the first and last instants of the month |
| Ranges.InMonthIff | index.js:295-296 | the days from the 1st to the last day of a month are exactly the days whose civil month it is |
| Ranges.ReportInvalidIff | index.js:298-308 | the report is refused exactly when the option is not a keyword and does not parse as a date |
| Ranges.WeekOfJuneTwelfth2024 | index.js:283-291 | with 2024-06-12 (a Wednesday) as today, the week is 2024-06-09 00:00 to 2024-06-15 23:59:59.999 |
| Ranges.MonthOfJuneTwelfth2024 | index.js:294-296 | with 2024-06-12 as today, the month is 2024-06-01 00:00 to 2024-06-30 23:59:59.999 |
| Report.Place | index.js:345 | `recordsByDate[date][record.type] = record`: the record overwrites its type's slot; stated by `GroupSlots` |
| Report.AddRecord | index.js:341-345 | one step of the first `forEach`: a new day gets an empty slot pair at the end of the key order, then the record is placed; stated by `GroupKeys`, `GroupSlots` and `GroupFirstSeenOrder` |
| Report.GroupOf | index.js:339-346 | `recordsByDate` after the first `forEach`; stated by `GroupKeys`, `GroupSlots`, `GroupFirstSeenOrder` and `GroupOrderAscending` |
| Report.Summarize | index.js:350-359 | one day's row: the slots and the work time when both exist; stated by `RowsSlots` |
| Report.Rows | index.js:349-362 | the rows of the second `forEach`; stated by `RowsDays`, `RowsFollowOrder`, `RowsCoverDays`, `RowsSlots` and `RowsWithinDays` |
| Report.FirstSeen | index.js:341-344 | the position where a day first appears in the records |
| Report.LastOfKind | index.js:345 | the last record of a day and type, or None when there is none |
| Report.GroupKeys | index.js:340-346 | the dictionary keys are distinct, they are exactly the days present, and order and map agree |
| Report.GroupSlots | index.js:340-346 | each day's slot holds the last check-in and the last check-out of that day (a later record overwrites) |
| Report.GroupFirstSeenOrder | index.js:340-346 | the keys are in order of first appearance |
| Report.GroupOrderAscending | index.js:321-346 | for time-sorted records the days come out strictly ascending |
| Report.RowsDays | index.js:349-362 | one row per day present, each day exactly once, in first-seen order (ascending for sorted records) |
| Report.RowsFollowOrder | index.js:349 | row k is about the k-th dictionary key, one row per key |
| Report.RowsCoverDays | index.js:349-362 | every day present in the records has a row, and every row is about such a day |
| Report.RowsSlots | index.js:349-362 | a row shows the day's last check-in and check-out, and a work time exactly when both exist, computed from those two |
| Report.RowsWithinDays | index.js:339-362 | records spread over n consecutive days give at most n rows |
| Report.DistinctDaysBound | index.js:340-346 | distinct day keys drawn from n consecutive days number at most n |
| Report.GroupByDay | index.js:339-362 | the two `forEach` loops produce exactly the rows specified by `Rows` |
| Attendance.AttendanceStore.FindOne | index.js:167-174 | the loop returns the first matching record in store order (`FirstMatch`) |
| Attendance.AttendanceStore.Find | index.js:315-321 | the loop and the sort return exactly `Select`: the user's records in the window, ascending |
| Attendance.AttendanceStore.Save | index.js:186-194 | the new record goes after all existing ones, nothing else changes |
| Attendance.AttendanceStore.DeleteMany | index.js:396-402 | the collection becomes `Remove` of the old one; the count is the number of removed records |
| Attendance.AttendanceStore.CheckIn | index.js:165-206 | reply and new collection are exactly those of `CheckInStep` |
| Attendance.AttendanceStore.CheckOut | index.js:208-272 | reply and new collection are exactly those of `CheckOutStep` |
| Attendance.AttendanceStore.Report | index.js:274-377 | the reply is exactly `ReportOf`, and the collection is not modified |
| Attendance.AttendanceStore.Delete | index.js:379-422 | reply and new collection are exactly those of `DeleteStep` |
| Attendance.CheckInStep | index.js:165-206 | the '출근' handler's reply and new collection; stated by `CheckInOutcomes`, `SecondCheckInRefused` and `CheckInPreserves` |
| Attendance.CheckOutStep | index.js:208-272 | the '퇴근' handler's reply and new collection; stated by `CheckOutOutcomes`, `CheckOutUsesTheCheckIn` and `CheckOutPreserves` |
| Attendance.ReportOf | index.js:274-377 | the '기록' handler's reply; stated by `ReportOutcomes`, `ShortReportsFit` and `DeleteThenReportEmpty` |
| Attendance.DeleteStep | index.js:379-422 | the '삭제' handler's reply and new collection; stated by `DeleteOutcomes`, `DeleteCount` and `DeletePreserves` |
| Attendance.TodayMatches | index.js:160-174 | the today `findOne` finds nothing exactly when the user has no record of that type today; what it finds is from today |
| Attendance.CheckInOutcomes | index.js:165-206 | refused exactly when a check-in exists today; a refusal leaves the store as it was and shows that check-in's time; otherwise exactly one check-in at now is appended |
| Attendance.SecondCheckInRefused | index.js:165-206 | a second check-in on the same day is refused, leaves the store as it was, and shows the first check-in's time |
| Attendance.CheckOutOutcomes | index.js:208-272 | with no check-in today the reply is "no check-in", even if a check-out exists; with both the reply is "already checked out"; a failure changes nothing; a success appends one check-out at now, with the work time from a same-day check-in |
| Attendance.OnceAppend | index.js:186-194 | appending a record of a user, type and day with none stored keeps every per-day count at most one |
| Attendance.BackedAppend | index.js:250-257 | appending keeps every check-out backed when the new record is a backed check-out or not a check-out |
| Attendance.CheckInPreserves | index.js:165-206 | check-in preserves the store invariant |
| Attendance.CheckOutPreserves | index.js:208-272 | check-out preserves the store invariant |
| Attendance.DeletePreserves | index.js:379-422 | delete preserves the invariant: it removes whole days of one user, so a remaining check-out keeps its check-in |
| Attendance.CheckOutUsesTheCheckIn | index.js:210-259 | under the invariant, the work time is measured from the day's only check-in |
| Attendance.ApplyPreserves | index.js:163-422 | any single command preserves the invariant |
| Attendance.RunPreservesConsistency | index.js:163-422 | any sequence of commands preserves the invariant |
| Attendance.ReachableConsistent | index.js:163-422 | every collection reachable from an empty one satisfies the invariant |
| Attendance.ReportOutcomes | index.js:274-377 | refused exactly on an unreadable option; "no records" exactly when the user has no record in the window; failed exactly when the selected records fall on more than 25 distinct days; otherwise 1..25 rows, built from the ascending selection |
| Attendance.ShortReportsFit | index.js:279-362 | a report for today, this week or a date never fails for lack of embed fields |
| Attendance.DeleteOutcomes | index.js:379-422 | refused (store unchanged) exactly when the date does not parse; otherwise removes exactly the user's records of that local day and keeps all others; "nothing to delete" exactly when there were none; the count is the number removed |
| Attendance.DeleteCount | index.js:396-418 | the store after a delete and the user's records of that day make up the old store, as multisets; the count shown equals the number of those records |
| Attendance.DeleteThenReportEmpty | index.js:298-331 | after deleting a date, a report for the same date says "no records" |
| Lotto.BallColor | index.js:57-63 | `getLottoBallColor`: the first of the bounds 10, 20, 30, 40 the number does not exceed picks the colour, else black; stated by `BallColorByDecade` and `BallColorMonotone` |
| Lotto.BallColorByDecade | index.js:57-63 | for 1..45 the colour is red, yellow, green, blue or black by the decade (n − 1) / 10 |
| Lotto.BallColorMonotone | index.js:57-63 | larger numbers never get an earlier colour |
| Lotto.AscendingFrom | index.js:53 | the set's members from k upward, strictly ascending, nothing else |
| Lotto.SortedNumbers | index.js:53 | `Array.from(numbers).sort((a, b) => a - b)` lists every number once, in strictly ascending order, with the same count as the set |
| Lotto.GenerateLottoNumbers | index.js:48-54 | when six distinct numbers appear, it returns them strictly ascending, all in 1..45, exactly the set drawn, and it stops at the first draw that fills the set; None exactly when the draws run out first |
| Lotto.TwoDigits | index.js:428 | `padStart(2, '0')` gives two decimal digits |
| Lotto.TwoDigitsRoundTrip | index.js:428 | the two-digit label reads back as the number |

## Left out

- Calendar.NewDate: the model assumes instants inside the JavaScript `Date` range and years outside 0–99. It does not model two constructor rules: years 0–99 becoming 1900–1999, and TimeClip's Invalid Date beyond ±8.64e15 ms. `Calendar.SetHours` and `Calendar.SetDate` likewise work on unbounded integers without TimeClip. So `Ranges.MonthRange` and `Ranges.MonthRangeSpec` describe the source only within those bounds, which every real clock reading meets.
- The Discord client and everything it does: command registration, `interaction.reply` and embed construction, including colours and titles. This is transport and presentation. The model keeps what the replies carry as outcome datatypes.
- The database connection and its internals. The collection is an in-memory sequence of records in insertion order. `findOne` returns the first match in that order. The sort is stable; the database's order among equal timestamps is not specified.
- `formatDate` and `formatTime`, which are locale formatting. The grouping key is the local day number instead of the formatted date. The formatted date is a one-to-one function of that day, so the grouping is the same.
- Parsing a date string with `new Date(string)`, and the `isNaN` test. These become a parameter `parse: string -> Option<int>`. The time zone is fixed; there are no daylight-saving shifts.
- The two separate `new Date()` readings `now` and `today` (index.js:158-159). The model takes them as one clock reading, so a command that runs across midnight is not modelled.
- Concurrent commands. Two check-ins racing between `findOne` and `save` could both be stored; each command runs to completion before the next starts.
- The report's `catch` (index.js:365-375) is modelled only for the embed-field overflow (`ReportFailed`); no other exception can arise in the model.
- The outer `catch` for storage and reply errors (index.js:471-481). Storage never fails in the model.
- Floating point in `calculateWorkHours`. The model uses exact integer milliseconds, so a fraction that rounds below a whole minute in binary floating point is not modelled.
- Lotto.GenerateLottoNumbers: the source draws until it has six numbers and never gives up. The model takes a finite list of draws and returns None if it runs out first.
- The '점심' command (`recommendMenu`, `menuData`, `categoryEmoji`), which is a random menu pick outside the attendance core.
- The lotto reply text (colour emoji, spaces and joining); only the colour choice and the two-digit padding are modelled.
