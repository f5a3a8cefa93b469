# Work-hours tracker: a verified model of its core

This project models the core of the work-hours tracker in Dafny. The tracker is an Express/Prisma
backend with a React frontend, where employees log daily hours per project and managers
review team overtime. It models:

- **Daily overtime.** A day's hours are split at 8. Overtime is divided into a first tier of
  up to 2 hours (paid ×1.33) and a second tier (×1.66). The backend pay formula has no hourly
  rate. The result is upserted into the daily-overtime table, with up to 3 attempts on a
  unique-key conflict.
- **Calendar arithmetic.** The Gregorian leap rule, weekdays, the workday test and the walk
  back over the last N workdays. The month range reads each field of the month text as
  JavaScript's `Number` does (the string numeric grammar of section 7.1.4.1.1 of ECMA-262)
  and follows JavaScript `Date` normalisation.
  Dates are formatted in the extended calendar-date form of ISO 8601:2004 (section 4.1.2.2
  for YYYY-MM-DD, section 4.1.2.3 for YYYY-MM).
- **Time-entry routes.** The batch save (split into creates and updates, the not-found
  check, the Prisma error-code mapping), the daily summary and the monthly overview.
- **Manager service.** Team summaries (total overtime, its cost, the average daily
  overtime) and the per-member overview (monthly overtime and the last-7-workdays average).
- **Reply envelopes.** The error-code → HTTP status map (RFC 9110 section 15; 429 from
  RFC 6585 section 4) and the `sendOk` / `sendFail` / `sendUnexpected` envelopes.
- **Users.** The salary → hourly-rate rule of user registration and update, and the two
  zod user schemas (server and browser).
- **Access middleware.** `requireAuth`, `requireRole` and `requireAnyRole`, which test
  roles by substring.
- **The two login forms.** The email pattern, the form check, clearing on input, and the
  response → message rules.
- **The log-hours editor.** Adding, changing, deleting, cancelling and saving rows, the
  validity and availability tests, and the browser's overtime preview.
- **The session store.** A table of sessions keyed by id, with an expiry, cleanup,
  logout-everywhere and statistics.

## How the model represents things

- Each database table is an in-memory sequence of rows. The session table is a map keyed
  by session id.
- Prisma `Decimal` values and JavaScript numbers are exact reals.
- Calendar dates are civil dates (`Calendar.CivilDate`) with a day number counted from
  1970-01-01. JavaScript `Date` values are a UTC day plus milliseconds into it.
- Some inputs are parameters of the operations:
  - the current time;
  - the ids the database assigns;
  - the failures the database raises (as injected faults or a sequence of attempt outcomes);
  - the password hash;
  - the trace id;
  - the results of the library parsers (`Date.parse`, zod's email check, `parseFloat`).

One module per source file:

| module | file |
|---|---|
| `Common` | generic sums, filters and distinctness |
| `Text` | digit strings, `parseInt`, `split`/`join`, `includes`, UTF-16 `length` |
| `JsNumbers` | JavaScript's `Number(text)`, used by `calendarUtils.ts` |
| `Tables` | rows and keys of the tables |
| `Calendar` | `calendarUtils.ts` |
| `Overtime` | `overtime.ts` |
| `Http` | `http.ts` |
| `TimeEntries` | `routes/timeEntries.ts` |
| `Manager` | `managerService.ts` |
| `Users` | `userService.ts` |
| `UserSchemas` | both `userSchemas.ts` |
| `Auth` | `middleware/auth.ts` |
| `Login` | `LoginPage.tsx` and `Login.tsx` |
| `EntryRow` | `EntryRow.tsx` |
| `LogHours` | `LogHoursForm.tsx` |
| `Sessions` | `prismaSessionStore.ts` |

Where the code differs from what the surrounding material describes, the model follows the code:

- **`daysWorked` includes weekends.** It counts every distinct entry date in the month,
  weekends included.
- **The batch save can partly commit.** The batch transaction returns its result from
  `finally`, so a failed update does not throw out of the transaction callback, and
  Prisma commits. What that commit keeps depends on where the failure arose. A missing
  row (P2025) is reported by Prisma without a failing SQL statement, so the rows written
  before it stay. A failure the database raises, such as a unique-key violation (P2002),
  makes PostgreSQL abort the whole transaction, so nothing stays. The model takes the
  first reading for every failure: it records the failure reply and the partly written
  table. The route then sends a failure followed by a success.
- **Overtime reads the `hours` column.** The sync in `overtime.ts:52,56` selects and sums
  a field `hoursWorked`, while the time-entry routes (`timeEntries.ts`) and the seed data
  write the entry's hours as `hours`. The Prisma schema is not part of this model. The
  model has one hours column and reads it in both places.
- **Password lengths count UTF-16 code units.** The login forms compare
  `password.length` with 6. `Text.JsLength` counts a character beyond U+FFFF as two
  units, as JavaScript does.
- **`get` returns the stored text.** The session store's `get` hands back the stored JSON
  text as it is, without parsing it.
- **The browser schema uses the backend's role list.** That schema imports its role list
  from a module that does not define it, so the model uses the backend's three roles.
- **A session without a user keeps its stored user.** When the session has no user,
  `set` leaves an existing row's `userId` unchanged (Prisma does not write an undefined
  field) and creates a new row without one.

## Model

| member | source | states |
|---|---|---|
| Overtime.DayTotalOrderIndependent | apps/backend/src/utils/overtime.ts:50-58 | the day total of a user's entries does not depend on the order the rows come back in |
| Overtime.OvertimeHours | apps/backend/src/utils/overtime.ts:60-62 | overtime is never negative, is 0 for a day of at most 8 hours, and adds up with the threshold to the total above it |
| Overtime.Tier1 | apps/backend/src/utils/overtime.ts:64-67 | the first tier is at most 2 and at most the overtime, never negative, and equals one of the two |
| Overtime.Tier2 | apps/backend/src/utils/overtime.ts:68-70 | the second tier is the overtime beyond 2 (else 0), and the two tiers add up to the overtime |
| Overtime.OvertimePay | apps/backend/src/utils/overtime.ts:72-75 | the pay is never negative and is 0 exactly when there is no overtime |
| Overtime.PayMonotone | apps/backend/src/utils/overtime.ts:55-75 | a longer day never gives less overtime or less pay |
| Overtime.ElevenHourDay | apps/backend/src/utils/overtime.ts:7-9 | an 11-hour day gives 3 overtime hours split 2 + 1 and paid 4.32 (no hourly rate) |
| Overtime.Upsert | apps/backend/src/utils/overtime.ts:23-27 | the upsert keeps the (userId, date) key unique, holds the written row, keeps every row of other keys and adds at most one row |
| Overtime.UpsertIdempotent | apps/backend/src/utils/overtime.ts:23-27 | upserting the same row twice leaves what one upsert leaves (the values are replaced, not added) |
| Overtime.UpsertKeyRow | apps/backend/src/utils/overtime.ts:23-27 | after an upsert the key's only row is the row written |
| Overtime.SafeUpsertOvertimeSummary | apps/backend/src/utils/overtime.ts:14-37 | at most 3 attempts; every attempt before the last hit a conflict; success after the first successful attempt; a non-conflict error, or a conflict on the third attempt, is raised; the table changes only on success |
| Overtime.SyncOvertimeSummary | apps/backend/src/utils/overtime.ts:45-84 | a successful sync leaves the table with the day's row upserted; a failed one leaves it as it was; the key stays unique |
| Overtime.SyncIdempotent | apps/backend/src/utils/overtime.ts:77-83 | syncing twice with unchanged entries leaves the table one sync left |
| Overtime.SyncedRowMatchesEntries | apps/backend/src/utils/overtime.ts:55-83 | after a sync the day's row holds the overtime and pay of the day's total |
| Calendar.DaysInMonth | apps/backend/src/utils/calendarUtils.ts:27 | months have 28 to 31 days; February has 29 exactly in a leap year; the 30- and 31-day months are as in the Gregorian calendar |
| Calendar.YearLength | apps/backend/src/utils/calendarUtils.ts:24-28 | a year has 366 days exactly when it is a leap year |
| Calendar.PrevDayNumber | apps/backend/src/utils/calendarUtils.ts:19 | stepping back one civil day lowers the day number by exactly 1, across month and year ends |
| Calendar.WeekdayOfPrevDay | apps/backend/src/utils/calendarUtils.ts:6 | the day before has the previous weekday |
| Calendar.MonthBoundsSpan | apps/backend/src/utils/calendarUtils.ts:24-28 | the range starts on day 1 and ends on the last day of the same month, so start is not after end |
| Calendar.ToISODateIsDate | apps/backend/src/utils/calendarUtils.ts:31-33 | the text before the "T" of the ISO string is the whole YYYY-MM-DD date |
| Calendar.IsoDateRoundTrip | apps/backend/src/utils/calendarUtils.ts:31-33 | for four-digit years the YYYY-MM-DD text reads back as the same date |
| Calendar.CurrentMonthSplit | apps/backend/src/utils/calendarUtils.ts:35-38 | the current-month text splits at "-" into the year's digits and the two-character month; a negative year gives an empty first field before them |
| Calendar.CurrentMonthField | apps/backend/src/utils/calendarUtils.ts:37 | the month field is two digits whose value is the month, in 01..12 |
| Calendar.CurrentMonthRange | apps/backend/src/utils/calendarUtils.ts:24-38 | reading the current-month text back with `getMonthRange` gives that month's first and last day |
| Calendar.MonthRangeOfFields | apps/backend/src/utils/calendarUtils.ts:24-29 | two fields without a "-" that `Number` reads as integers y and m give the range from day 1 of month m of year y to its last day, with months outside 1..12 carried into other years |
| Calendar.MonthRangeOfNaN | apps/backend/src/utils/calendarUtils.ts:24-29 | a field that `Number` reads as NaN gives an invalid date, so no range |
| Calendar.SpacedMonthField | apps/backend/src/utils/calendarUtils.ts:24-29 | white space around the month digits does not change the range |
| Calendar.SignedMonthField | apps/backend/src/utils/calendarUtils.ts:24-29 | a "+" before the month digits does not change the range |
| Calendar.ZeroFractionMonthField | apps/backend/src/utils/calendarUtils.ts:24-29 | a month written with a point and zeros ("05.00") gives the range of the whole month |
| Calendar.ExponentMonthField | apps/backend/src/utils/calendarUtils.ts:24-29 | a month written with an exponent ("1e1") gives the range of the month digits times that power of ten |
| JsNumbers.DigitsRead | apps/backend/src/utils/calendarUtils.ts:25 | `Number` reads a run of decimal digits as their value |
| JsNumbers.SignedDigitsRead | apps/backend/src/utils/calendarUtils.ts:25 | a sign before the digits negates the value for "-" and keeps it for "+" |
| JsNumbers.DecimalRead | apps/backend/src/utils/calendarUtils.ts:25 | digits, a point and digits (either side may be empty, not both) read as all the digits scaled down by the fraction's length |
| JsNumbers.ZeroFractionRead | apps/backend/src/utils/calendarUtils.ts:25 | a fraction of zeros does not change the value of the digits before it |
| JsNumbers.ExponentRead | apps/backend/src/utils/calendarUtils.ts:25 | digits, "e" and digits read as the first digits times ten to the power of the second |
| JsNumbers.RadixRead | apps/backend/src/utils/calendarUtils.ts:25 | "0x", "0o" or "0b" followed by digits of that base reads as their value in the base |
| JsNumbers.NotNumeric | apps/backend/src/utils/calendarUtils.ts:25 | a text whose first non-space character cannot start a literal reads as NaN |
| JsNumbers.SpaceAroundIgnored | apps/backend/src/utils/calendarUtils.ts:25 | white space at either end does not change what `Number` reads |
| JsNumbers.BlankIsZero | apps/backend/src/utils/calendarUtils.ts:25 | an empty or all-space text reads as 0 |
| Calendar.WorkdayIsWeekday | apps/backend/src/utils/calendarUtils.ts:3-9 | with the holiday list empty, the workdays are exactly Monday to Friday |
| Calendar.GetLastNWorkdays | apps/backend/src/utils/calendarUtils.ts:11-22 | exactly n dates, all workdays, strictly ascending, none after the end date; the last is the end date exactly when it is a workday; no workday between the first and the end is skipped |
| Http.Status | apps/backend/src/utils/http.ts:19-32 | every status lies in 400..599; 500 exactly for INTERNAL_ERROR and DATABASE_ERROR, 401 exactly for the two credential codes, 400 exactly for the three request codes |
| Http.CodeNameRoundTrip | apps/backend/src/utils/http.ts:5-16 | each of the 11 code names reads back as its code, so the names are distinct |
| Http.StatusOfName | apps/backend/src/utils/http.ts:40 | a name outside the map falls back to 500; a mapped name gets its code's status |
| Http.SendFail | apps/backend/src/utils/http.ts:34-47 | a failure envelope with the code, message and details given, sent with the code's status |
| Http.SendOk | apps/backend/src/utils/http.ts:49-60 | a success envelope; the message defaults to "OK", the data to the empty object and the status to 200 |
| Http.SendUnexpected | apps/backend/src/utils/http.ts:63-70 | status 500, code INTERNAL_ERROR, message "Something went wrong", details holding the trace id and the error |
| TimeEntries.RoundHundredths | apps/backend/src/routes/timeEntries.ts:28 | the stored hours are a whole number of hundredths within half a hundredth of the submitted value, non-negative for non-negative input and unchanged when already in hundredths |
| TimeEntries.RoundIdempotent | apps/backend/src/routes/timeEntries.ts:80 | rounding an already rounded value changes nothing |
| TimeEntries.PartitionExact | apps/backend/src/routes/timeEntries.ts:22-30 | every submitted entry lands in exactly one part: entries without an id are created, entries with one are updated |
| TimeEntries.NotFoundIds | apps/backend/src/routes/timeEntries.ts:31-42 | exactly the update ids that no row has, each once |
| TimeEntries.BatchErrorStatus | apps/backend/src/routes/timeEntries.ts:94-115 | 409 exactly for P2002 and P2003, 404 exactly for P2025, 500 for any other or non-Prisma error; never an empty message |
| TimeEntries.CreateMany | apps/backend/src/routes/timeEntries.ts:66-70 | an insert skipping duplicates adds only rows whose (userId, projectId, date) key is new, keeps the key unique and leaves every submitted key present |
| TimeEntries.RunUpdatesShape | apps/backend/src/routes/timeEntries.ts:73-83 | updates rewrite rows in place: the table keeps its length and its ids |
| TimeEntries.RunUpdatesUntouched | apps/backend/src/routes/timeEntries.ts:73-83 | a row that no update names is left as it was |
| TimeEntries.RunUpdatesCount | apps/backend/src/routes/timeEntries.ts:73-91 | a loop without failure reports every update; one that stops at a failure reports fewer |
| TimeEntries.RunUpdatesRows | apps/backend/src/routes/timeEntries.ts:84-90 | the reported rows are the rows written, in the order of the updates |
| TimeEntries.RunUpdatesKeepsKeys | apps/backend/src/routes/timeEntries.ts:73-83 | the ids and the (userId, projectId, date) keys stay unique through the updates |
| TimeEntries.RunUpdatesOnlyConflicts | apps/backend/src/routes/timeEntries.ts:73-83 | once every update names a stored row and no fault is injected, the only possible failure is a key conflict |
| TimeEntries.UpdateEach | apps/backend/src/routes/timeEntries.ts:73-91 | the update loop leaves the table, the failure and the rows of its specification |
| TimeEntries.SaveBatch | apps/backend/src/routes/timeEntries.ts:19-124 | missing update ids give NOT_FOUND listing them, with nothing written; a failed insert writes nothing; otherwise the rows are inserted, then updated one by one, and the reply reflects the first failure |
| TimeEntries.BatchReply | apps/backend/src/routes/timeEntries.ts:120-124 | success exactly when nothing failed; a failure carries the mapped code, message and status; otherwise status 200 with the updated and created rows |
| TimeEntries.DailySummary | apps/backend/src/routes/timeEntries.ts:142-161 | regular hours are the total capped at 8, and with the overtime they add up to the total; overtime hours and pay are those of the day's row, or 0 |
| TimeEntries.SummaryOvertimeFromRow | apps/backend/src/routes/timeEntries.ts:149-161 | with a unique row per day the summary reports that row's hours and pay, and 0 for a day without one |
| TimeEntries.SummaryTotalIsDayTotal | apps/backend/src/routes/timeEntries.ts:134-145 | the summary's total is the total the overtime sync computes for the day |
| TimeEntries.SummaryAfterSync | apps/backend/src/routes/timeEntries.ts:142-161 | after a sync, the summary's overtime and pay are those of its own total |
| TimeEntries.SummaryWithoutDateIsEmpty | apps/backend/src/routes/timeEntries.ts:132-140 | as written, a summary without a date at any time but midnight finds no entries and reports zeros |
| TimeEntries.SummaryCountsTheDay | apps/backend/src/routes/timeEntries.ts:132-145 | the corrected query counts the day's entries whatever the time of day |
| TimeEntries.QueryInt | apps/backend/src/routes/timeEntries.ts:176-179 | the result is the fallback or what `parseInt` reads, and 0 is never returned unless the fallback is 0 |
| TimeEntries.QueryIntAbsent | apps/backend/src/routes/timeEntries.ts:176-179 | a missing parameter takes the current month or year |
| TimeEntries.QueryIntZero | apps/backend/src/routes/timeEntries.ts:176-179 | "0" is falsy once parsed and takes the fallback |
| TimeEntries.QueryIntOfNat | apps/backend/src/routes/timeEntries.ts:176-179 | a positive decimal, with or without trailing text, is read as itself |
| TimeEntries.WorkedDays | apps/backend/src/routes/timeEntries.ts:184-198 | the grouped days are distinct and all lie within the month |
| TimeEntries.WorkedDayIff | apps/backend/src/routes/timeEntries.ts:184-198 | a date is a worked day exactly when it lies in the month and the user has an entry on it |
| TimeEntries.RegularHours | apps/backend/src/routes/timeEntries.ts:204-207 | the regular hours are at most 8 per worked day |
| TimeEntries.RegularIsDailySum | apps/backend/src/routes/timeEntries.ts:204-207 | on any list of days, the capped sum is the sum of the regular hours, min(day total, 8), that the daily summary reports for each day |
| TimeEntries.MonthlyRegularIsDailySum | apps/backend/src/routes/timeEntries.ts:184-207 | the month's regular hours are the sum, over the worked days, of each day's regular hours as the daily summary reports them |
| TimeEntries.RegularHoursNonNegative | apps/backend/src/routes/timeEntries.ts:204-207 | without negative hours the regular hours are not negative |
| TimeEntries.MonthlyOverview | apps/backend/src/routes/timeEntries.ts:173-232 | month and year from the query or today (never month 0); days worked are the distinct entry dates of the month's range; regular hours are at most 8 per day (their value is stated by `MonthlyRegularIsDailySum`); overtime hours and pay are the sums over the month's rows; the limit is 46 |
| TimeEntries.MonthlyOverviewDefaults | apps/backend/src/routes/timeEntries.ts:176-182 | without query parameters the overview is of today's month |
| TimeEntries.MonthlyOverviewNoOvertime | apps/backend/src/routes/timeEntries.ts:229-230 | a month without overtime rows reports 0 hours and 0 pay |
| TimeEntries.MonthlyOvertimeIsDailySum | apps/backend/src/routes/timeEntries.ts:210-230 | when every overtime row has entries on its day, the month's overtime equals the sum of the daily summaries' overtime over the worked days |
| Manager.TargetMonth | apps/backend/src/services/managerService.ts:53 | the month given, or the current month |
| Manager.DefaultMonthIsCurrent | apps/backend/src/services/managerService.ts:76-84 | without a month the range is today's month, day 1 to its last day |
| Manager.ManagerTeamIds | apps/backend/src/services/managerService.ts:121-127 | the ids of exactly the teams the manager manages |
| Manager.ResolveTeams | apps/backend/src/services/managerService.ts:54-58 | an explicit team gives exactly that team; otherwise the manager's teams; "No team(s) found" exactly when that list is empty |
| Manager.TeamDayIff | apps/backend/src/services/managerService.ts:154-161 | a day is counted exactly when it lies in the month and an active member has an entry on it |
| Manager.Average | apps/backend/src/services/managerService.ts:162-164 | the average times the day count is the total; with no days it is 0 |
| Manager.TeamSummaryIn | apps/backend/src/services/managerService.ts:129-172 | the summary is of the given team and month; the average is the total overtime divided by the number of distinct days an active member has an entry in range, and 0 when there are none; with distinct user ids, the total overtime and its cost are the sums over the active members of each one's overtime rows in range |
| Manager.GetTeamSummaryData | apps/backend/src/services/managerService.ts:129-172 | a month that does not parse is an error; otherwise the summary of that team and month |
| Manager.GetTeamSummary | apps/backend/src/services/managerService.ts:44-65 | "No team(s) found" when no team resolves; an error exactly when no team resolves or the target month does not read as a range; otherwise one summary per resolved team |
| Manager.TeamSummaryPerTeam | apps/backend/src/services/managerService.ts:60-64 | each summary is the successful `getTeamSummaryData` of the team at the same place in the team list, for the target month |
| Manager.TeamTotalIsSumOfMembers | apps/backend/src/services/managerService.ts:138-153 | the team's sum is the sum of each member's own sum |
| Manager.ActiveTotalsAreMemberSums | apps/backend/src/services/managerService.ts:138-153 | with distinct user ids, the summed overtime and cost of the active members' rows are the sums of each member's own monthly totals |
| Manager.LastValueOfGrouped | apps/backend/src/services/managerService.ts:261-273 | in a grouped result the lookup finds the group's aggregate; an id outside the result keeps its default |
| Manager.Last7Lookup | apps/backend/src/services/managerService.ts:211-221 | looking a member up in the last-7 rows gives their hours divided by their distinct dates in the window |
| Manager.MonthlyLookup | apps/backend/src/services/managerService.ts:223-238 | looking a member up in the monthly rows gives their month's overtime sum |
| Manager.SeededDistinct | apps/backend/src/services/managerService.ts:250-259 | with distinct ids the seeding keeps every member, in order, with zeroed metrics |
| Manager.Tabulate | apps/backend/src/services/managerService.ts:240-280 | the three loops over the result map build the overview of its specification |
| Manager.SeedResult | apps/backend/src/services/managerService.ts:250-259 | the first loop leaves the map and insertion order of `Seeded`: one zeroed tally per member id, named by its first member |
| Manager.OverwriteLast7 | apps/backend/src/services/managerService.ts:261-266 | the second loop keeps the map's keys and sets each known user's last-7 average to the last row naming them, leaving users without a row unchanged; rows for unknown users are ignored |
| Manager.OverwriteMonthly | apps/backend/src/services/managerService.ts:268-273 | the third loop does the same for the monthly overtime |
| Manager.GetTeamMembersWithEntries | apps/backend/src/services/managerService.ts:190-280 | the overview of the team's active members over the two grouped query results |
| Manager.MembersOverviewRows | apps/backend/src/services/managerService.ts:275-280 | exactly one row per active member, named first name, space, last name, with that member's monthly overtime and window average, each 0 by default |
| Manager.AsWrittenWindowDropsFirstDay | apps/backend/src/services/managerService.ts:85-86 | as written, the window's instants carry the current time of day, so the oldest workday's entries fall outside it |
| Manager.WorkdayWindowHasAll | apps/backend/src/services/managerService.ts:85-86 | the corrected window admits all seven workdays |
| Manager.GetTeamEntries | apps/backend/src/services/managerService.ts:67-109 | seven ascending workdays ending today or earlier, the last being today exactly when today is a workday; the error cases; otherwise one overview per resolved team, in order, with the window's first and last dates, over the window as written: `BETWEEN` the first and last workday at the current time of day |
| Manager.GetTeamEntriesCorrected | apps/backend/src/services/managerService.ts:67-109 | the same with the window evidently meant, which admits all seven workdays |
| Manager.EntriesOverWindow | apps/backend/src/services/managerService.ts:76-106 | for a given window: "No team(s) found" when no team resolves; an error exactly when no team resolves or the month does not read; otherwise one overview per team over the month and the window |
| Manager.EntriesPerTeam | apps/backend/src/services/managerService.ts:88-106 | one overview per team, in the order of the team list |
| Users.HourlyRate | apps/backend/src/services/userService.ts:30 | the rate times 240 is the salary; a positive salary gives a positive rate; the rate is 0 exactly for a salary of 0 |
| Users.HourlyRateMonotone | apps/backend/src/services/userService.ts:30 | a higher salary never gives a lower rate |
| Users.RegisterUser | apps/backend/src/services/userService.ts:26-52 | a new user must change their password, their rate matches their salary, the hire date is read from its text and the other fields are copied |
| Users.UpdateUser | apps/backend/src/services/userService.ts:54-70 | an update fails exactly when a hire date is supplied that is empty (passed to Prisma as the text itself) or that `new Date` cannot read, and then nothing is written; otherwise each supplied field takes its new value and the rest are kept, the rate is recomputed exactly when a salary is supplied, the hire date is the converted text, and a rate that matched the salary still does |
| UserSchemas.PathsOfIff | apps/frontend/src/schemas/userSchemas.ts:5-32 | a path has an issue exactly when some issue names it |
| UserSchemas.Check | apps/backend/src/schemas/userSchemas.ts:3-14 | a check yields no issue exactly when its rule holds, and otherwise one issue on its field |
| UserSchemas.FieldIssuesIff | apps/backend/src/schemas/userSchemas.ts:3-14 | the issues name exactly the listed fields whose rule fails, and there are none exactly when every rule holds |
| UserSchemas.FieldIssuesLast | apps/backend/src/schemas/userSchemas.ts:3-14 | every issue carries its field's message |
| UserSchemas.RegisterIssues | apps/backend/src/schemas/userSchemas.ts:3-14 | a field has an issue exactly when its rule fails: non-empty ids and names, a valid email, one of the three roles, a parseable hire date, a positive salary |
| UserSchemas.RegisterAccepted | apps/backend/src/schemas/userSchemas.ts:3-14 | the server schema accepts exactly when every field rule holds |
| UserSchemas.FormIssues | apps/frontend/src/schemas/userSchemas.ts:5-32 | a field other than email has an issue exactly when its rule fails; email has one when its own rule or the register/update refine fails |
| UserSchemas.FormAccepted | apps/frontend/src/schemas/userSchemas.ts:5-32 | the browser schema accepts exactly when every field rule and the refine hold |
| UserSchemas.RefineIssueLast | apps/frontend/src/schemas/userSchemas.ts:19-32 | the refine fails exactly when the last issue is "Email is required for registration" on the email path |
| UserSchemas.UpdateFormNeedsNoEmail | apps/frontend/src/schemas/userSchemas.ts:23-25 | with isActive present the refine holds whatever the email |
| UserSchemas.RegisterFormNeedsEmail | apps/frontend/src/schemas/userSchemas.ts:26 | without isActive, a missing or empty email fails the refine |
| Auth.AuthDecision | apps/backend/src/middleware/auth.ts:25-33 | a request passes exactly when its session has a user, and is otherwise refused with 401 "Authentication required" |
| Auth.RoleDecision | apps/backend/src/middleware/auth.ts:36-55 | 401 without a user; with one, a pass exactly when the role occurs inside the user's role, and otherwise 403 "Role '…' required" |
| Auth.SomeIncluded | apps/backend/src/middleware/auth.ts:66 | true exactly when some listed role occurs inside the user's role |
| Auth.AnyRoleDecision | apps/backend/src/middleware/auth.ts:58-78 | 401 without a user; with one, a pass exactly when some listed role occurs inside the user's role, and otherwise 403 listing the roles |
| Auth.AnyRoleOfNone | apps/backend/src/middleware/auth.ts:66-73 | an empty role list refuses everyone with 403 |
| Auth.AnyRoleOfOne | apps/backend/src/middleware/auth.ts:45-73 | one listed role decides as the single-role check does, with the other message |
| Auth.SubstringRolesPass | apps/backend/src/middleware/auth.ts:45 | substring matching lets MANAGER pass a MANAGE requirement and everyone pass an empty one |
| Auth.AnyRoleMonotone | apps/backend/src/middleware/auth.ts:66 | listing more roles never turns a pass into a refusal |
| Auth.Request.Apply | apps/backend/src/middleware/auth.ts:25-33 | a pass stamps the last activity and calls next; a refusal sends its reply and calls nothing |
| Auth.Request.RequireAuth | apps/backend/src/middleware/auth.ts:20-33 | the request state after `requireAuth`, both ways |
| Auth.Request.RequireRole | apps/backend/src/middleware/auth.ts:36-55 | the request state after `requireRole`, both ways |
| Auth.Request.RequireAnyRole | apps/backend/src/middleware/auth.ts:58-78 | the request state after `requireAnyRole`, both ways |
| Login.MatchesEmailIff | apps/frontend/src/pages/LoginPage.tsx:54 | the decision procedure accepts exactly the strings the pattern matches: runs without whitespace or "@", then "@", then a run containing a dot with a character on either side |
| Login.EmailOfParts | apps/frontend/src/pages/LoginPage.tsx:54 | any three runs joined by "@" and "." are accepted |
| Login.RefusedWithoutAtOrWithSpace | apps/frontend/src/pages/LoginPage.tsx:54 | a string without "@", or with a whitespace character, is refused |
| Login.ValidateForm | apps/frontend/src/pages/LoginPage.tsx:58-77 | the email and password messages in every case (shared with the component's check in Login.tsx:36-55); valid exactly when no error is recorded, that is when the email matches and the password has at least 6 UTF-16 code units |
| Login.PasswordLengthInCodeUnits | apps/frontend/src/pages/LoginPage.tsx:71 | three characters beyond U+FFFF are long enough, as their `length` is 6; five characters within U+FFFF are not |
| Text.JsLengthOfBmp | apps/frontend/src/components/Login.tsx:49 | a text of characters within U+FFFF has a `length` equal to its number of characters |
| Text.JsLengthOfAstral | apps/frontend/src/components/Login.tsx:49 | a text of characters beyond U+FFFF has a `length` of twice its number of characters |
| Text.JsLength | apps/frontend/src/components/Login.tsx:49 | the `length` of a text is between its number of characters and twice that, and 0 exactly for the empty text |
| Login.InputChange | apps/frontend/src/pages/LoginPage.tsx:79-93 | only the named field changes, and only its error is cleared, when it showed one |
| Login.InputChangeClears | apps/frontend/src/components/Login.tsx:57-71 | after typing into a field no error shows on it, and the other field's error is kept |
| Login.PageMessage | apps/frontend/src/pages/LoginPage.tsx:129-181 | the fixed messages for the two known codes, the reference only when a trace id is present, the server message or "Request failed." otherwise, the network message after any throw; never empty |
| Login.WrapperOutcome | apps/frontend/src/utils/api.ts:19-23 | a status outside 200..299 throws; a 2xx body with a truthy `ok` is a success; a 2xx body without `ok` is a failure exactly when it carries an `error`, and otherwise the page's read of `error.code` throws |
| Login.ControllerRepliesShowNetworkError | apps/frontend/src/pages/LoginPage.tsx:126-181 | for every status, a reply body without `ok` and `error`, as the login controller sends (authService.ts:13,19,35), leaves the page on the network message and never counts as a success |
| Login.SubmitPage | apps/frontend/src/pages/LoginPage.tsx:101-185 | an invalid form sends nothing and starts no loading; a valid one sends, shows the outcome's message, and navigates exactly on success |
| Login.ComponentMessage | apps/frontend/src/components/Login.tsx:103-122 | "Login successful!" on an ok response, the server's message or the fallback otherwise, the network message when the request or the body parse fails |
| Login.SubmitComponent | apps/frontend/src/components/Login.tsx:79-126 | a request is sent exactly when the form is valid, and its message is then shown |
| EntryRow.RowMessage | apps/frontend/src/components/EntryRow.tsx:22-69 | no message exactly for a valid row; "Please select a project." exactly when the project is missing; the hours message exactly when the project is set and the hours are missing or not above 0 |
| EntryRow.SelectedProjectIds | apps/frontend/src/components/LogHoursForm.tsx:205-207 | an id is selected exactly when a row in use has it |
| EntryRow.DisabledIffTakenElsewhere | apps/frontend/src/components/EntryRow.tsx:37-39 | an option is disabled exactly when another row in use has chosen it, never for the row's own project |
| EntryRow.HoursInput | apps/frontend/src/components/EntryRow.tsx:49-52 | a cleared input gives no hours, anything else the parsed number |
| EntryRow.ClearedHoursInvalid | apps/frontend/src/components/EntryRow.tsx:49-69 | clearing the hours of a row with a project shows the hours message |
| LogHours.FirstAvailable | apps/frontend/src/components/LogHoursForm.tsx:75-77 | the first project no row in use has, or none when all are taken |
| LogHours.HasAvailableProject | apps/frontend/src/components/LogHoursForm.tsx:215-217 | true exactly when some project is not among the rows in use |
| LogHours.HandleAdd | apps/frontend/src/components/LogHoursForm.tsx:71-91 | with a free project, one new row with 0 hours for the first free project is appended; otherwise the rows are unchanged |
| LogHours.AddDisablesSave | apps/frontend/src/components/LogHoursForm.tsx:71-91 | the added row has 0 hours, so Save is disabled until hours are entered |
| LogHours.AddKeepsProjectsDistinct | apps/frontend/src/components/LogHoursForm.tsx:71-91 | adding never picks a project already in use |
| LogHours.Touched | apps/frontend/src/components/LogHoursForm.tsx:113-116 | an unchanged row becomes edited; any other status stays |
| LogHours.HandleProjectChange | apps/frontend/src/components/LogHoursForm.tsx:104-121 | only the row at the index changes, taking the project and the touched status; an unknown project changes nothing |
| LogHours.HandleUpdate | apps/frontend/src/components/LogHoursForm.tsx:123-138 | only the row at the index changes, taking the hours and the touched status; the length is kept |
| LogHours.UpdateIdempotent | apps/frontend/src/components/LogHoursForm.tsx:123-138 | a second identical edit changes nothing more |
| LogHours.HandleDelete | apps/frontend/src/components/LogHoursForm.tsx:159-170 | a new row is removed, keeping the order of the rest; any other row is marked deleted in place |
| LogHours.DeleteFreesProject | apps/frontend/src/components/LogHoursForm.tsx:159-170 | after a delete the row's project is free again, unless another row in use has it |
| LogHours.HandleCancel | apps/frontend/src/components/LogHoursForm.tsx:173-175 | cancelling restores exactly the rows last loaded or saved |
| LogHours.HandleSave | apps/frontend/src/components/LogHoursForm.tsx:177-198 | on success what is shown becomes what Cancel returns to, with the success modal; on failure nothing changes and the error modal shows the error |
| LogHours.CancelAfterSave | apps/frontend/src/components/LogHoursForm.tsx:173-189 | cancelling right after a successful save changes nothing |
| LogHours.CancelUndoesEdits | apps/frontend/src/components/LogHoursForm.tsx:104-175 | cancelling undoes any edit made since the last load or save |
| LogHours.HasInvalidEntry | apps/frontend/src/components/LogHoursForm.tsx:209-213 | true exactly when some row in use has no project or hours missing or not above 0 |
| LogHours.DeletedRowsNotChecked | apps/frontend/src/components/LogHoursForm.tsx:209-213 | marking a row deleted never makes Save disabled where it was not |
| LogHours.OvertimePreview | apps/frontend/src/components/LogHoursForm.tsx:343-355 | the total is the hours of the rows in use; regular plus overtime is the total; the tiers lie in [0, 2], tier 2 only after a full tier 1; the tiers add up to the overtime capped at 4; the pay multiplies by the hourly rate |
| LogHours.PreviewMatchesServerUpTo12 | apps/frontend/src/components/LogHoursForm.tsx:343-355 | up to 12 hours the preview has the server's overtime and tiers, and its pay is the server's pay times the hourly rate |
| LogHours.PreviewCapsSecondTier | apps/frontend/src/components/LogHoursForm.tsx:352 | past 12 hours the preview stops tier 2 at 2 while the server's tier 2 goes on |
| LogHours.DeleteTakesOutHours | apps/frontend/src/components/LogHoursForm.tsx:159-170 | deleting a loaded row takes its hours out of the preview's total |
| Sessions.Lookup | apps/backend/src/utils/prismaSessionStore.ts:79-101 | a session is found exactly when its row exists and has not expired, and then it is the stored text |
| Sessions.AfterGet | apps/backend/src/utils/prismaSessionStore.ts:89-92 | `get` removes only an expired row it looks up, and looking up again gives the same answer |
| Sessions.Stored | apps/backend/src/utils/prismaSessionStore.ts:104-127 | after `set` exactly one row holds the id, with the new data and expiry; the user is the session's, or the stored one when the session has none; other rows are unchanged |
| Sessions.Touched | apps/backend/src/utils/prismaSessionStore.ts:156-182 | `touch` gives an existing row the new expiry and keeps its data and user; a missing row is stored as `set` stores it; other rows are unchanged |
| Sessions.Active | apps/backend/src/utils/prismaSessionStore.ts:185-205 | `all` covers exactly the rows not expired, each with its stored text |
| Sessions.CleanupKeepsActive | apps/backend/src/utils/prismaSessionStore.ts:233-247 | cleanup keeps exactly the rows not expired, so `all` and `length` are unchanged and the rows removed are the expired ones |
| Sessions.LogoutRemovesExactly | apps/backend/src/utils/prismaSessionStore.ts:285-296 | logging a user out everywhere removes exactly that user's rows, keeps every other row and counts the rows removed |
| Sessions.GetAfterSet | apps/backend/src/utils/prismaSessionStore.ts:79-127 | a session stored now is found until the maximum age has passed, and not after |
| Sessions.TouchExtends | apps/backend/src/utils/prismaSessionStore.ts:156-169 | a touched session stays found for another maximum age |
| Sessions.ActiveAtMostTotal | apps/backend/src/utils/prismaSessionStore.ts:298-316 | the active rows are at most all rows, and the rest are exactly the expired ones |
| Sessions.SessionStore.constructor | apps/backend/src/utils/prismaSessionStore.ts:68-76 | the check period defaults to 5 minutes and the maximum age to 24 hours, an explicit option overriding each; the cleanup is scheduled |
| Sessions.SessionStore.Get | apps/backend/src/utils/prismaSessionStore.ts:79-101 | the answer and the table after `get`, as its specification states |
| Sessions.SessionStore.Set | apps/backend/src/utils/prismaSessionStore.ts:104-133 | the table after `set`, with expiry now plus the maximum age |
| Sessions.SessionStore.Destroy | apps/backend/src/utils/prismaSessionStore.ts:136-153 | the id is absent afterwards, whether or not it was there |
| Sessions.SessionStore.Touch | apps/backend/src/utils/prismaSessionStore.ts:156-182 | the table after `touch`, with expiry now plus the maximum age |
| Sessions.SessionStore.All | apps/backend/src/utils/prismaSessionStore.ts:185-205 | the ids of exactly the rows not expired, each with its stored text |
| Sessions.SessionStore.Length | apps/backend/src/utils/prismaSessionStore.ts:208-220 | the count is the size of what `all` returns |
| Sessions.SessionStore.Clear | apps/backend/src/utils/prismaSessionStore.ts:223-230 | the table is empty afterwards |
| Sessions.SessionStore.Cleanup | apps/backend/src/utils/prismaSessionStore.ts:233-247 | the rows with expiry before now are removed, every other kept, and their number returned |
| Sessions.SessionStore.StartCleanup | apps/backend/src/utils/prismaSessionStore.ts:250-259 | the cleanup is scheduled and the table untouched |
| Sessions.SessionStore.StopCleanup | apps/backend/src/utils/prismaSessionStore.ts:261-266 | the cleanup is no longer scheduled and the table untouched |
| Sessions.SessionStore.LogoutUserEverywhere | apps/backend/src/utils/prismaSessionStore.ts:285-296 | the user's rows are removed and their number returned |
| Sessions.SessionStore.GetSessionStats | apps/backend/src/utils/prismaSessionStore.ts:298-316 | total is every row, active the rows not expired, expired their difference, which is the number of expired rows; active is at most total |

## Left out

- **Side effects in the source are not modelled:**
  - Database and HTTP input/output: Prisma calls, `$transaction`, the raw SQL and Express request/response objects. Their effect is modelled over in-memory tables.
  - Logging.
  - Cookies.
  - React state setters; each `prev => next` update is modelled as a function of its arguments, so stale closure state is not modelled.
  - Asynchrony: `Promise.all`, which runs the per-team queries concurrently, is modelled as a sequential map in team order.
- Timers are not modelled:
  - the 10 ms delay between upsert retries;
  - the `setInterval` periodic cleanup, which becomes a "scheduled" flag, with cleanup as an operation of its own;
  - the auto-close of the save modal.
- Randomness and cryptography are parameters: bcrypt hashing and password generation, `randomUUID` trace ids, and the ids the database assigns.
- Floating point is not modelled: JavaScript numbers and Prisma decimals are exact reals, and the display rounding by `toFixed(1)`/`toFixed(2)` is left out.
- Time zones are not modelled: `getDay` (local time) and `toISOString` (UTC) are both read off the same UTC civil day.
- Library parsers are abstract parameters: `Date.parse`, zod's email check, `new Date(text)` on a hire date, `parseFloat`, and `Number` on a body.
- JsNumbers.JsNumber: values are exact reals, so the rounding to a double is not modelled. A literal too large for a double, such as "1e400", reads as a finite value instead of `Infinity`, and digits beyond a double's precision are kept.
- Calendar.GetMonthRange: the time-value limit of JavaScript `Date` (about 275,000 years either side of 1970) is not modelled, so a year or month too large for a `Date` still gives a range instead of an invalid date.
- Login.SubmitPage: takes the outcome of `loginUser` as a parameter, so it also covers envelopes the page's code expects; `Login.WrapperOutcome` states which outcomes the fetch wrapper can actually produce.
- TimeEntries.SaveBatch: the table after a failed update keeps the rows written before the failure, for every kind of failure. Under PostgreSQL a failure the database raises aborts the whole transaction, so nothing of the batch would stay; the model does not distinguish the two.
- UserSchemas.FormIssues, UserSchemas.FormAccepted, UserSchemas.RegisterFormNeedsEmail, UserSchemas.RefineIssueLast: zod's own default messages (for the role enum) are `None`, and the model does not fix the order of the issues zod reports. The model runs the object's `.refine` whatever the fields gave. Zod 4 skips the refine only after an issue it cannot continue past, such as a role outside `USER_ROLES` or a salary that is not a number; after a failed `min`, email or date check it still runs the refine, as the model does. So for a role outside the list the model reports the refine's issue too, where zod does not.
- Users.RegisterUser: a hire date that `new Date` cannot read, which the register schema refuses before the service runs (`apps/backend/src/schemas/userSchemas.ts:10`), is not modelled as a Prisma rejection; the row holds the converted text.
- Three pieces of plumbing are left out:
  - after `sendFail` the batch route also calls `sendOk`, so a second send is attempted;
  - `touch` on a missing row runs its callback twice;
  - the session check route has no `return` after its 401.
- Schema facts the code relies on are stated as predicates where a proof needs them:
  - the (userId, date) key of daily overtime is unique;
  - the (userId, projectId, date) key of time entries is unique, which the insert that skips duplicates uses;
  - user ids are unique.
- The ordering of grouped query results is left open; no property depends on it.
- Prisma's error for an update of a missing user id is not modelled: `updateUser` is modelled on the row found for the id.
- Request keys beyond the declared update fields, which the source would spread into the update, are not modelled.
- `Prisma.join` of an empty member list, which makes the raw query fail for a team without active members, is not modelled.
- Login.SubmitPage: the intermediate `setMessage("")` and `isLoading = true` states are not modelled, only the final state.
- LogHours.HandleDelete: requires an index within the rows. The source would throw on a missing row, and the editor only calls it for a shown row.
- LogHours.HandleProjectChange: keeps the row's old project name, as the source does, because the name line is commented out there.
- Sessions.SessionStore.Get: database errors, which the source passes to the callback, are not modelled; nor are those of the other store methods, whose error replies (0 for a failed logout, zeros for failed statistics) are left out.
- The session store's `getUserSessions` is not modelled; it is a filtered read like `all`.
- The login back end (`authService.ts`, whose reply bodies appear only in `Login.ControllerRepliesShowNetworkError`), the mailer, the seed data, the dashboards and the other UI components, the fetch wrappers other than the login request, and the type-only files are not part of this model.

## Findings

| source | as written | input that shows it | evidently intended | confidence | as-written member | corrected member |
|---|---|---|---|---|---|---|
| apps/backend/src/routes/timeEntries.ts:132-140 | without a `date` parameter the summary queries entries whose date equals `new Date()`, the current instant, while entry dates are stored at midnight | `GET /summary?userId=u` at any time other than 00:00:00.000 | summarise today's entries | not executed | TimeEntries.SummaryWithoutDateIsEmpty | TimeEntries.SummaryCountsTheDay |
| apps/frontend/src/pages/LoginPage.tsx:126-181 | the page branches on `response.ok` and `response.error.code` of an envelope, but the fetch wrapper throws on every non-2xx status, and the login controller's 200 body is `{ success, message }` without `ok`; a throw always ends on the network message | any login, with right or wrong credentials | show "Login successful!" and navigate on success, and the code's message on a failure | not executed | Login.ControllerRepliesShowNetworkError | Login.PageMessage |
| apps/backend/src/services/managerService.ts:85-86 | the last-7-workdays window runs `BETWEEN` two instants copied from `new Date()`, which carry the current time of day, so the midnight of the oldest workday falls before the window | `getTeamEntries` called at 10:00 for a member whose only entry in the window is on the oldest of the seven workdays | average over all seven workdays | not executed | Manager.AsWrittenWindowDropsFirstDay | Manager.WorkdayWindowHasAll |
