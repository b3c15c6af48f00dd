# Reminder scheduler of the event widget, in Dafny

The widget (`script-2.js`) lets a user register reminders: a title, a date and
a time chosen with 12-hour pickers. Once a second a due check walks the stored
reminders and fires an alert for each one whose time has come, once. This
project models the logic part of that script:

- `JsText` (`js_text.dfy`): the JavaScript built-ins the logic depends on.
  These are `String.prototype.trim`, `String(n).padStart(2, '0')` and
  `parseInt(s, 10)`. Trim and parseInt skip the ECMAScript white-space and
  line-terminator code points. A parseInt that reads no digit returns NaN,
  written `None`.
- `Clock` (`clock.dfy`): the hour arithmetic.
  - `makeEventISO` turns an hour 01-12 and AM/PM into a 24-hour hour.
  - `setDefaultTime` does the reverse conversion and writes the picker values.
  - The instant the form names is the local start of the chosen day plus hours
    and minutes, as the `Date` constructor adds them.
  - Also here: the date the form defaults to (see Findings).
- `HtmlEscape` (`html_escape.dfy`): `escapeHtml`, and a decoder of its five
  entities as its inverse.
- `Reminders` (`reminders.dfy`): the `events` store as a class `Scheduler`.
  - Its methods are the add handler, the delete filter, the time-ordered view
    used by `renderEvents`, and the due check `checkDueEvents`, written `Tick`.
  - Their specifications are pure functions over `seq<Event>`: `Ticked`, `Due`,
    `RemoveId` and `SortByTime`. The lemmas are about these functions.
  - A ghost `log` records every alert dispatched. The class invariant `Inv` says
    that no reminder fires twice, and that a record is notified exactly when
    its alert is in the log.

Instants are integers (milliseconds). A record's `datetimeISO` string is kept
as the instant it denotes. The alert sink (`triggerNotification`) is the
`fired` sequence `Tick` returns, plus the ghost log.

Facts about the code that the model keeps:
- The due check fires alerts in array (insertion) order, not in the time
  order the view lists them in. `DueConcat` states this order.
- The store is an array, and nothing in the code keeps its ids distinct.
  Ids come from `Math.random`, so `Scheduler.Add` takes the id as a
  parameter and requires it to be fresh.
- The add handler refuses a submission only when a field is empty. It does
  not check the hour or minute ranges.
- The handler evaluates the bare global `Notification` before it stores
  anything. In a browser without that API this raises a ReferenceError, and
  nothing is stored. This is the outcome `NoNotificationApi`.
- A value parseInt cannot read makes the `Date` invalid, and `toISOString`
  then throws before anything is stored. This is the outcome `InvalidTime`.

## Model

| member | source | states |
|---|---|---|
| `JsText.TrimStart` | script-2.js:198 | the result is the suffix of the input that starts at its first non-white-space character; everything dropped is white space |
| `JsText.TrimEnd` | script-2.js:198 | the result is the prefix that ends at the last non-white-space character; everything dropped is white space |
| `JsText.TrimEmptyIffBlank` | script-2.js:198-204 | the trimmed title is empty (and the add is refused) exactly when the input title is all white space |
| `JsText.Trim` | script-2.js:198 | `trim` gives a string no longer than the input that neither starts nor ends with white space; that it is empty exactly for a blank input is `TrimEmptyIffBlank` |
| `JsText.TrimIsSlice` | script-2.js:198 | the trimmed title is a prefix of the input after its leading white space, so a contiguous slice of the input |
| `JsText.Decimal` | script-2.js:29 | `String(n)` of a non-negative safe integer (all the form uses) is a non-empty digit string without a leading zero, one digit exactly below 10 |
| `JsText.DecimalValue` | script-2.js:29 | the decimal numeral denotes the number it was made from |
| `JsText.PadStart` | script-2.js:29 | `padStart` with one fill character keeps the string as its suffix and fills up to the target length |
| `JsText.PadTwo` | script-2.js:47-48 | `String(n).padStart(2,'0')` has at least two characters, all digits; `PadTwoShape` and `ParsePadTwo` state its exact form and that parseInt reads it back |
| `JsText.PadTwoShape` | script-2.js:35 | below 100 the padded numeral has exactly two digits, a one-digit number getting a leading `0` |
| `JsText.ParseInt` | script-2.js:93 | parseInt finds a number only where the input has a digit, and a number whose first non-blank character is a digit is found and not negative; `ParseDigits`, `ParseStopsAtNonDigit` and `ParsePadTwo` give its value for unsigned input, `ParseSigned` for input with a sign |
| `JsText.ParseTrimmed` | script-2.js:97 | after the white space, a number is found only where a digit follows the optional sign |
| `JsText.ParseSkipsWhiteSpace` | script-2.js:93 | white space in front of the number does not change what parseInt reads |
| `JsText.ParseStopsAtNonDigit` | script-2.js:93 | parseInt reads the digits up to the first non-digit and ignores the rest |
| `JsText.ParseSigned` | script-2.js:93 | a `-` in front of the digits negates the value they read as, and a `+` leaves it unchanged |
| `JsText.ParseNoNumber` | script-2.js:93 | input starting with anything but white space, a sign or a digit reads as NaN |
| `JsText.DigitPrefix` | script-2.js:93 | parseInt reads the longest run of digits, which stops at the first non-digit |
| `JsText.ParseDigits` | script-2.js:97 | parseInt of any non-empty digit string gives its decimal value |
| `JsText.ParsePadTwo` | script-2.js:93 | parseInt reads back exactly what two-digit padding wrote, for every non-negative integer the model's `String(n)` covers |
| `Clock.To24Hour` | script-2.js:93-95 | for hour 1-12 with AM/PM the result is in 0..23, on the same clock-face position, and at least 12 exactly for PM (so 12 AM is 0, 12 PM is 12, 1-11 PM are 13-23); any other meridiem string leaves the hour unchanged |
| `Clock.To12Hour` | script-2.js:45-46 | every 24-hour hour 0..23 goes to a picker hour 1..12 with AM/PM that converts back to the same hour |
| `Clock.To12HourOfTo24Hour` | script-2.js:243 | every picker choice is what the 24-to-12 conversion gives for its 24-hour hour, so the two conversions are inverse bijections |
| `Clock.DefaultFields` | script-2.js:240-246 | the default hour and minute values have two characters and the meridiem is AM or PM |
| `Clock.EventInstant` | script-2.js:90-98 | makeEventISO gives an instant exactly when both the hour and the minute parse, and for picker-range values with AM/PM that instant lies within the chosen day; `PickerInstantWithinDay` and `DefaultFieldsRoundTrip` give its value |
| `Clock.PickerInstantWithinDay` | script-2.js:90-98 | every choice the pickers offer (hour 01-12, minute 00-59, AM/PM) names an instant within the chosen day |
| `Clock.DefaultFieldsRoundTrip` | script-2.js:238-248 | the default picker values, submitted unchanged, name exactly the time of day they were made from |
| `Clock.DefaultFieldsParse` | script-2.js:244-245 | parseInt reads back the default hour and minute values |
| `Clock.LocalHours` | script-2.js:240 | the local hour is in 0..23 |
| `Clock.LocalMinutes` | script-2.js:241 | the local minute is in 0..59 |
| `Clock.LocalPartsSum` | script-2.js:240-241 | local midnight of the local date plus local hours and minutes is the current instant cut to the minute |
| `Clock.DefaultDayNamesNow` | script-2.js:247 | with the local date as default, the untouched form names the current minute |
| `Clock.DefaultDayAsWritten` | script-2.js:247 | the code's default date, the UTC date, is off from the local date exactly as `DefaultDayAsWrittenShift` states |
| `Clock.DefaultInstantShift` | script-2.js:238-248 | whatever day the date field holds, the untouched form names the current minute moved by as many whole days as that day is from the local date |
| `Clock.DefaultDayAsWrittenShift` | script-2.js:247 | the UTC date is a day early during the first `offset` milliseconds of the local day in a zone ahead of UTC, a day late during the last `-offset` milliseconds in a zone behind UTC, and the local date otherwise |
| `Clock.DefaultAsWrittenInstant` | script-2.js:247 | in exactly those cases the untouched form schedules the event a whole day in the past or in the future, and outside them it names the current minute |
| `Clock.DefaultDayAsWrittenIsADayEarly` | script-2.js:247 | with the UTC date as written, a zone at UTC+05:30 just after local midnight gets a default a whole day in the past |
| `HtmlEscape.EscapeChar` | script-2.js:129 | each special character becomes an entity starting with `&`; any other character is kept as it is |
| `HtmlEscape.EscapeHtml` | script-2.js:129 | the output contains no `<`, `>`, `"` or `'` |
| `HtmlEscape.EscapeConcat` | script-2.js:129 | escaping distributes over concatenation (it works character by character) |
| `HtmlEscape.EscapePlain` | script-2.js:129 | text without the five special characters passes through unchanged |
| `HtmlEscape.DecodeEscapedFront` | script-2.js:129 | the entity for an escaped character decodes to that character and spans exactly its replacement |
| `HtmlEscape.UnescapeChar` | script-2.js:129 | decoding an escaped character in front of any text gives the character in front of the decoded text |
| `HtmlEscape.UnescapeEscape` | script-2.js:129 | decoding the five entities recovers the input exactly |
| `Reminders.IsDue` | script-2.js:185-188 | the due test: not yet notified and its time at or before `now`; `DueMembers` states that alerts go exactly to such records |
| `Reminders.Mark` | script-2.js:185-189 | the due check changes only a record's flag, and sets it exactly when it was set or the record's time has come |
| `Reminders.Ticked` | script-2.js:184-191 | after a due check the store has the same length, order, ids, titles and times; a record is notified exactly when it was before or its time is at or before `now` |
| `Reminders.Due` | script-2.js:184-191 | there are never more alerts than records; which alerts, and in which order, is stated by `DueMembers` and `DueConcat` |
| `Reminders.DueMembers` | script-2.js:185-190 | an alert is dispatched for a record exactly when it was not notified and its time is at or before `now`, and each alert is that record with its flag set |
| `Reminders.DueConcat` | script-2.js:184 | alerts come in array order: those of a first part of the store before those of the rest |
| `Reminders.DueDistinct` | script-2.js:184-190 | records with distinct ids give alerts with distinct ids |
| `Reminders.TickAgain` | script-2.js:185-188 | after a due check, another at the same instant fires nothing, and one at a later instant fires only records whose time is after the first |
| `Reminders.NoneDue` | script-2.js:185-188 | when no record is due, nothing fires |
| `Reminders.NotifiedNeverFires` | script-2.js:185 | a notified record is left exactly as it is and, with distinct ids, gets no alert |
| `Reminders.MarkedIsTicked` | script-2.js:184-191 | marking each record in place gives the store `Ticked` describes |
| `Reminders.RemoveId` | script-2.js:117 | afterwards no record has the deleted id |
| `Reminders.RemoveMembers` | script-2.js:117 | the records kept are exactly those whose id differs |
| `Reminders.RemoveConcat` | script-2.js:117 | the filter keeps relative order (it works part by part) |
| `Reminders.RemoveAbsent` | script-2.js:117 | deleting an id that no record has changes nothing |
| `Reminders.RemoveTwice` | script-2.js:117 | deleting twice equals deleting once |
| `Reminders.RemoveDistinct` | script-2.js:117 | the filter keeps ids distinct |
| `Reminders.InsertByTime` | script-2.js:104 | insertion adds exactly the one record (as a multiset) |
| `Reminders.InsertKeepsSorted` | script-2.js:104 | inserting into a time-sorted sequence keeps it sorted |
| `Reminders.SortByTime` | script-2.js:104 | the view is sorted by time and is a permutation of the store |
| `Reminders.AtTimeInsert` | script-2.js:104 | an inserted record goes after every record with the same time |
| `Reminders.SortStable` | script-2.js:104 | the sort is stable: the records of any one time keep their array order |
| `Reminders.TickKeepsInv` | script-2.js:182-193 | a due check keeps ids distinct in the store and in the alert log, and keeps "notified exactly when fired"; so no reminder fires twice |
| `Reminders.DeleteKeepsInv` | script-2.js:117 | deleting keeps the invariant |
| `Reminders.AddKeepsInv` | script-2.js:220 | appending a fresh, un-notified record with a title keeps the invariant |
| `Reminders.MissingDetail` | script-2.js:204 | the refusal test: one of the trimmed title, date, hour, minute or meridiem is empty; `TrimEmptyIffBlank` states that a blank title counts as empty |
| `Reminders.Scheduler.constructor` | script-2.js:87 | the store starts empty, with no alert dispatched |
| `Reminders.Scheduler.Add` | script-2.js:197-220 | an empty trimmed title, date, hour, minute or meridiem leaves the store unchanged; so does a browser without the Notification global, and so does an unparsable time; otherwise exactly one record is appended, with the trimmed title, the instant of the pickers and `notified` false |
| `Reminders.Scheduler.Delete` | script-2.js:116-117 | the store becomes the filter of the old store by id; the alert log is unchanged |
| `Reminders.Scheduler.View` | script-2.js:104 | the view is sorted by time, is a permutation of the store, keeps array order among equal times, and the store is not modified |
| `Reminders.Scheduler.Tick` | script-2.js:182-193 | the loop turns the store into `Ticked` of the old store and dispatches exactly `Due` of it, in array order, each alert appended to the log; the invariant is kept |

## Left out

- DOM glue is not modelled: element lookups, the fake login, signup and logout panels, building `<option>` and `<li>` nodes, and the Enter-key handler. These are presentation only. The picker option loops of `fillTimePickers` appear only as the domains hour 1..12 and minute 0..59 in `Clock.PickerInstantWithinDay`.
- Timers are not modelled: `setInterval` and the toast timeout. The periodic check is an explicit call of `Scheduler.Tick(now)`.
- The Notification API (beyond whether the global exists), permission requests, audio playback and the toast fallback are not modelled. They are asynchronous browser capabilities, and `triggerNotification` is an abstract sink: the returned `fired` sequence and the ghost log.
- The `await` between the add handler's check and its push is not modelled. Other handlers and ticks may run at that point, but the push only appends, so the outcome is the same.
- `Date` is only partly modelled. The date string is not parsed (`split('-').map(Number)`). Instead, `Scheduler.Add` takes `dayStart`, the instant at which the chosen date begins locally. A non-empty date that is not of the form YYYY-MM-DD, which would give an invalid `Date`, is therefore not modelled. Daylight-saving shifts, the range limit of `Date`, `toISOString` and `toLocaleString` are not modelled. The default-date finding uses a fixed UTC offset.
- `Math.random` is not modelled. The id is a parameter of `Scheduler.Add`.
- `Reminders.Scheduler.Add`: requires that the id belongs to no stored record and to no record that already fired. The source does not guarantee this, because its ids are random. Without this requirement the fire-once invariant does not hold.
- Record aliasing is not modelled. In the source, the sorted copy holds the same objects as `events`. Here records are values, and `Tick` writes the updated record back into the sequence.
- The second `setDefaultTime` (script-2.js:238-248) overrides the first one (script-2.js:41-53), and their logic is the same. It is modelled once.
- `JsText.Decimal`: agrees with JavaScript's `String(n)` only for safe integers; from 1e21 on JavaScript prints exponent form (`1e+21`). The form only converts hours and minutes.
- Precision of parseInt is not modelled. Numbers past 2^53 lose precision in JavaScript but are exact here. Only the picker values, which have two digits, matter to the form.
- `formatLocal` and the use of `escapeHtml` inside rendering are not modelled. They are presentation only.
- The `(t+'')` coercion in `escapeHtml` is not modelled. Titles are already strings.

## Findings

| source | as written | input that shows it | evidently intended | confidence | as-written member | corrected member |
|---|---|---|---|---|---|---|
| script-2.js:247 | the default date is `now.toISOString().slice(0,10)`, which is the UTC date, but the default hour and minute are local | a zone at UTC+05:30 at 02:00 local time on 2 January 1970 (instant 73800000 ms): the date field shows 1 January, so the untouched form schedules 1 January 02:00 local, a day in the past, which fires on the next tick; in general a zone ahead of UTC gets a day early during its first `offset` milliseconds of the local day, and a zone behind UTC (say UTC-05:00 at 20:00 local) gets a day late during its last `-offset` milliseconds | the local date, so that the untouched form names the current minute | not executed; high | `Clock.DefaultAsWrittenInstant` | `Clock.DefaultDayNamesNow` |
