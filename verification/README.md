# Calendar: month grid, event creation rules and page state, in Dafny

This project models the parts of the shared calendar that make decisions.

- **The month grid** (`front/src/utils/calendar.ts`). It finds the number of days in a month and the weekday of its first day. It then builds the list of day cells the month view shows:
  - the previous month's last days, one for each weekday before the 1st (none when the 1st is a Sunday);
  - the days of the month;
  - next-month cells numbered from 1, until 35 cells are filled.
- **The event-creation endpoint** (`api/server/routes/events/index.post.ts`). It decides which requests are refused with status 400 and which message each refusal carries. For an accepted request it decides what is stored: a one-off date, or a recurrence rule with a start, an optional end and exactly one repeat key (year, month, day, week or weekday). The database writes are reduced to the rows they leave behind.
- **The page state** (`front/src/App.tsx`). This covers:
  - reading month and year from the URL;
  - the previous and next month buttons;
  - grouping the fetched events by day;
  - the local edits made after an event is updated or deleted.

The host's `Date` object is replaced by the day arithmetic of ECMA-262 section 21.4.1: DayFromYear, MakeDay, WeekDay and MakeFullYear. `DaysInMonth` is the Gregorian month table. A lemma shows that it equals what the source computes, the date of "day 0 of the following month".

Modules:
- `Options`: an optional value.
- `EcmaDate`: the host's day arithmetic.
- `Calendar`: the grid.
- `CreateEvent`: the creation endpoint's decision.
- `App`: the page's pure state logic.

Behaviours of the code a reader might not expect:
- **The grid is not always 35 cells long.** Padding is only added while fewer than 35 cells exist. A 31-day month that starts on a Friday gives 36 cells (March 2024). A 30-day or 31-day month that starts on a Saturday gives 36 or 37 cells (July 2023).
- **Range checks apply only to numbers.** The month (0..11), weekday (0..6) and day (1..31) checks run only when the value is a number. A string value for the one repeat key passes the handler's checks. Year and week values are never checked.
- **A key set to 0 counts as set**, because the handler only skips `null` and absent keys. Month 0 (January) alone is a valid monthly rule. Month 0 together with weekday 0 is refused as two keys.
- **Years 0..99 are read as 1900..1999** by the `Date` constructor. So the day counts and weekdays of years 0..99 are those of 1900..1999.
- **Creating an event is not atomic.** This is written up under Findings.

## Model

| member | source | states |
|---|---|---|
| Calendar.DaysInMonth | front/src/utils/calendar.ts:11-13 | a month has 28 to 31 days; February has 29 exactly in leap years (of the year as the `Date` constructor reads it); December has 31 |
| Calendar.DaysInMonthIsDayZero | front/src/utils/calendar.ts:12 | the first of the next month (rolling into January of the next year after December) is `DaysInMonth` days after the first of this one, and "day 0" of the next month is the month's last day, so `daysInMonth` is the month table |
| EcmaDate.YearLength | front/src/utils/calendar.ts:12 | consecutive 1 Januaries are 365 days apart, or 366 in a leap year: the year rollover behind "day 0 of January" is the Gregorian one |
| Calendar.TwoDigitYearsAre1900s | front/src/utils/calendar.ts:12 | a year 0..99 has the month lengths and month starts of the matching year of the 1900s, because the `Date` constructor reads it that way |
| Calendar.YearZeroFebruary | front/src/utils/calendar.ts:12 | year 0 is a Gregorian leap year, yet its February has 28 days, as 1900's does |
| Calendar.FirstWeekday | front/src/utils/calendar.ts:22 | the weekday of the first of the month is between 0 (Sunday) and 6 |
| Calendar.FirstWeekdayOfNextMonth | front/src/utils/calendar.ts:22-23 | the first of `month + 1`, as the `Date` constructor reads it (January of the next year after December), falls `DaysInMonth` weekdays after the first of `month`, modulo 7 |
| Calendar.June2025StartsOnSunday | front/src/utils/calendar.ts:22 | 1 June 2025 is a Sunday |
| Calendar.PrevMonth | front/src/utils/calendar.ts:27-28 | the month before is a valid month whose position `year * 12 + month` is one less (December of the previous year before January) |
| Calendar.CalculateGrid | front/src/utils/calendar.ts:19-45 | the grid holds the previous month's last `lead` days, then days 1..n of the month marked current, then next-month days from 1; its length is the larger of 35 and `lead + n` |
| Calendar.GridCurrentDays | front/src/utils/calendar.ts:33-36 | the current cells are exactly the days 1..DaysInMonth, in order, with none missing or repeated |
| Calendar.GridLeadingRun | front/src/utils/calendar.ts:25-31 | the leading cells are not current, strictly increase, and end at the previous month's last day; the cell after them is day 1 of the month |
| Calendar.GridLength | front/src/utils/calendar.ts:38-42 | the grid has exactly 35 cells exactly when the leading and own days fit in 35; otherwise it has no padding at all; it never exceeds 37 cells |
| Calendar.GridOverflowsInMarch2024 | front/src/utils/calendar.ts:38-42 | March 2024 starts on a Friday and its grid has 36 cells |
| Calendar.GridOverflowsInJuly2023 | front/src/utils/calendar.ts:38-42 | July 2023 starts on a Saturday and its grid has 37 cells |
| CreateEvent.Decide | api/server/routes/events/index.post.ts:22-53 | every refusal has status 400; a missing or non-string body is refused first; an endDate without a pattern is refused next; a one-off event comes only from a request without a pattern, a recurring one only from a request with one, and both keep the request's body |
| CreateEvent.CreateRecurring | api/server/routes/events/index.post.ts:55-144 | a missing or empty start date is refused with its message; an accepted rule keeps the body and the start date |
| CreateEvent.CreateSingle | api/server/routes/events/index.post.ts:146-168 | a one-off event is stored exactly when the date is a non-empty string, with that date; otherwise the request is refused with the date message |
| CreateEvent.SetKeys | api/server/routes/events/index.post.ts:66 | the scan returns at most the keys it was given, and only keys whose value is not null or absent |
| CreateEvent.PresentKeysCount | api/server/routes/events/index.post.ts:66-80 | the scan finds no key exactly when no field is set, and one key exactly when exactly one field is set; that key is set |
| CreateEvent.RecurringAcceptedIff | api/server/routes/events/index.post.ts:22-118 | a recurring event is stored if and only if the request has a body, a pattern object, a non-empty start date and exactly one set key whose numeric value is in that key's range |
| CreateEvent.SingleAcceptedIff | api/server/routes/events/index.post.ts:22-53 | a one-off event is stored if and only if the request has a body, no pattern, no truthy endDate and a non-empty date; the stored date is the request's |
| CreateEvent.StoredPatternIsRequested | api/server/routes/events/index.post.ts:112-118 | an accepted rule has exactly one key set, the stored pattern equals the requested one, and the end is the endDate when it is non-empty and null otherwise |
| CreateEvent.RejectionOrder | api/server/routes/events/index.post.ts:58-80 | for a request with a body and a pattern: no start date gives the start-date message; otherwise no key gives the missing-key message; otherwise more than one key gives "Only one repeat pattern key is allowed. Received: " followed by the set keys' names, joined with ", " in scan order |
| CreateEvent.MonthKeyAccepted | api/server/routes/events/index.post.ts:66 | a month key alone, with any value 0..11 including 0, is stored as a monthly rule, for any body (the empty string included) and any non-empty start date |
| CreateEvent.MonthAndWeekdayRefused | api/server/routes/events/index.post.ts:66-80 | month and weekday together are refused as two keys, naming "month, weekday", whatever their values (0 included) and for any body and non-empty start date |
| CreateEvent.RowsWrittenAsWritten | api/server/routes/events/index.post.ts:22-53 | as written: nothing is written when the body or endDate check fails; once both pass, the `events` row is written whatever follows, while one meta row is written when the request is accepted and none when it is refused |
| CreateEvent.OrphanEventRow | api/server/routes/events/index.post.ts:40-73 | for any body and start date, a pattern object with no keys is refused (with the start-date message when the start date is empty, the missing-key message otherwise), yet leaves an `events` row with no meta row |
| CreateEvent.RowsWritten | api/server/routes/events/index.post.ts:40-52 | the intended behaviour: one event row and one meta row are written for a valid one-off or valid recurring request, and no row at all for any other request |
| App.ValidateYear | front/src/App.tsx:11-16 | a year in 1900..9999 is kept; a missing, unparsable or out-of-range year gives the current year |
| App.ValidateMonth | front/src/App.tsx:18-24 | a 1-based month 1..12 becomes 0..11; a missing, unparsable or out-of-range month gives the current month |
| App.UrlMonthRoundTrip | front/src/App.tsx:18-24 | the `month + 1` the page writes into the URL (App.tsx:60) reads back as the same month, for every valid month; any month read is 0..11 when today's is |
| App.UrlYearRoundTrip | front/src/App.tsx:11-16 | the year the page writes into the URL (App.tsx:61) reads back as itself exactly when it lies in 1900..9999 or equals the current year |
| App.ButtonsLeaveUrlYearRange | front/src/App.tsx:65-79 | the buttons reach 1899 (back from January 1900) and 10000 (forward from December 9999); either year reads back from the URL as the current year |
| App.ValidateIdempotent | front/src/App.tsx:11-24 | validating an already validated year, or the URL form of a validated month, changes nothing |
| App.NextMonth | front/src/App.tsx:65-71 | the next month is a valid month whose position `year * 12 + month` is one more (January of the next year after December) |
| App.NavigationRoundTrip | front/src/App.tsx:65-79 | going back after going forward, or forward after going back, returns to the same month |
| App.AddToDay | front/src/App.tsx:124-126 | appending an event adds its day as a key, appends the event to that day's list, and leaves every other day alone |
| App.AddAllKeys | front/src/App.tsx:121-140 | grouping adds a key for exactly the days on which some event falls |
| App.AddAllDay | front/src/App.tsx:121-140 | grouping appends to each day exactly that day's events, in order |
| App.GroupEvents | front/src/App.tsx:117-143 | the recurring list is the recurring responses, in order, each marked recurring |
| App.GroupEventsKeys | front/src/App.tsx:117-140 | the map has a key for exactly the days of the one-off and recurring events |
| App.GroupEventsDay | front/src/App.tsx:117-140 | each day's list is that day's one-off events in response order, followed by that day's recurring events in response order |
| App.GroupEventsPlacesEveryEvent | front/src/App.tsx:120-140 | every one-off event is listed under its day; every recurring event is listed under its day and in the recurring list |
| App.GroupEventsCount | front/src/App.tsx:117-143 | the day lists hold exactly as many entries as there are events, one-off and recurring together, so none is lost or duplicated; the recurring list is as long as the recurring responses |
| App.EntryCountRemove | front/src/App.tsx:117-140 | the entry count is independent of the order in which days are counted |
| App.EntryCountAdd | front/src/App.tsx:124-126 | appending one event adds exactly one entry |
| App.EntryCountAddAll | front/src/App.tsx:121-140 | appending a list of events adds exactly that many entries |
| App.FindId | front/src/App.tsx:159 | the result is the first index with the id, and no index has it when the result is none |
| App.OnEventUpdated | front/src/App.tsx:157-164 | the event's day becomes a key, other days are unchanged, the day's list keeps its length, and only the first entry with the event's id takes the new body |
| App.OnEventUpdatedChangesOneBody | front/src/App.tsx:157-164 | after an update, entries differ from before only in their body; at most one entry changes, it has the event's id and the new body; a day without that id is unchanged |
| App.WithoutId | front/src/App.tsx:168 | the kept entries are exactly the entries whose id differs; with the entries of that id they make up the original list, copies included |
| App.WithoutIdAppend | front/src/App.tsx:168 | filtering a concatenation filters each part and concatenates, so the kept entries keep their order |
| App.WithoutIdKeepsOthers | front/src/App.tsx:168 | a list without an entry of that id is kept whole |
| App.WithoutIdDropsOnlyThatId | front/src/App.tsx:168 | kept and dropped entries together are as many as the original list, and every dropped entry has the id |
| App.OnEventDeleted | front/src/App.tsx:166-183 | other days are unchanged; the event's day stays a key exactly when it holds an entry with another id; that day's list becomes the filtered list, in order; a recurring event's id is filtered out of the recurring list the same way, and the recurring list is unchanged for a one-off event |

## Left out

- The month-query route (`api/server/routes/events/[year]/[month].get.ts`) is not part of this model. This includes its week-number function and the matching of recurrence rules against days. The update and delete routes (`api/server/routes/events/[id].put.ts`, `api/server/routes/events/[id].delete.ts`) are outside the modelled core too, with their body check and their 404 answer when no row matches.
- SQL and the database connection (`api/server/utils/db.ts`). Each insert is reduced to the row it leaves. Column types, `returning *` and the conversion `new Date(startDate)` are not modelled.
- `apiUrl`, `fetch`, the browser history, the `popstate` handler, `currentMonth`, the React components and rendering. These are I/O or UI. "Today" is a parameter of the URL-reading functions.
- Dates are kept as unparsed text. The page's `new Date(response.date)`, and the server's parsing of the start, end and single dates, are not modelled.
- Time zones, times of day, and the range and NaN cases of the host's time value. The grid only uses whole local days.
- `parseInt`: an unparsable URL value is modelled as `None`, the same as `NaN`. A URL value of `"0"` reaches the validators as 0, which the month check refuses.
- Request values outside the modelled types are not modelled:
  - non-integer numbers;
  - a pattern that is not an object (a string, a number or `false`);
  - date fields that are not strings;
  - a missing request body (`readBody` giving `null`, which makes the handler throw).
- `EventResponse.day` is an integer, as the page's declared response type says (`front/src/types/calendar.ts`). The server does not always send it: the month route's recurring rows and the update route's answer carry no `day`, so the page groups those under an `undefined` key. The model does not cover that case.
- The day cell (`front/src/components/DayCell.tsx:23`) sorts each day's list by id in place when it renders. After the first render, the lists that `onEventUpdated` and `onEventDeleted` edit are in id order, not the response order that `App.GroupEventsDay` states. The components are outside the model, so the model keeps the response order.
- App.OnEventUpdated: the source changes the body of the event object in place. That object is shared with the recurring list. The model updates only the day's list, so the recurring list is not changed by the update.
- CreateEvent.SetKeys: states that the scan returns set keys only, not that it finds every set key. The exact result is stated separately for the five keys, by the lemmas about `PresentKeys`.

## Findings

| source | as written | input that shows it | evidently intended | confidence | as-written member | corrected member |
|---|---|---|---|---|---|---|
| api/server/routes/events/index.post.ts:40-73 | the `events` row is inserted inside `sql.begin` before the pattern and date checks; their 400 errors are returned, not thrown, so the transaction commits | body `"x"`, startDate `"2025-01-01"`, pattern `{}` | an event and its meta row are created together or not at all | medium, not executed | CreateEvent.OrphanEventRow | CreateEvent.RowsWritten |
