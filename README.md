# Appointment scheduler: a verified model of its logic

The application is a single-page appointment booker for a clinic. A month calendar
shows the booked appointments day by day, a dashboard lists them with search and
date filters, and a modal form books or edits an appointment. The appointments live
in one global list that is saved in the browser's storage. This project models the
logic under the page's DOM code and proves properties of it in Dafny.

The model covers:

- the appointment list and the three ways the page changes it (create, update,
  delete), together with loading it from storage;
- form validation;
- the 42-day calendar grid, with its per-day appointment buckets, the Friday and
  today flags and the day labels;
- the header texts (date and doctor);
- the dashboard filter;
- the 12-hour time format;
- month navigation.

The modules follow the program's structure:

| file | module | what it holds |
|---|---|---|
| wrappers.dfy | Wrappers | `Option`, standing for `undefined`, NaN and "not found" |
| decimal.dfy | DecimalText | decimal text of numbers: template-literal printing and `parseInt` |
| text.dfy | Text | `toLowerCase` (ASCII), `includes`, string `<=`, `split` at one character |
| lists.dfy | Lists | `Array.filter` (`Keep`) and `[...new Set(xs)]` (`Dedup`) |
| calendar.dfy | Calendar | Gregorian dates, day numbers, weekdays, the `YYYY-MM-DD` key, the header date, the Date constructor's year rule, month navigation |
| appointments.dfy | Appointments | the record, the form data, object-spread merge, `findIndex`, delete-by-id |
| validation.dfy | Validation | `validateForm` |
| store.dfy | Store | the `appointments` global as a class, `loadAppointments`, `handleFormSubmit`, `deleteAppointment` |
| calendar_view.dfy | CalendarView | `renderCalendar`: the `days` loop, the cells, the header doctor |
| dashboard.dfy | Dashboard | the `renderDashboard` filter |
| time_format.dfy | TimeFormat | `formatTime12h` |

Dates are modelled as `getFullYear()`, `getMonth()` and `getDate()` report them.
Months are 0..11 and the weekday is 0 (Sunday) to 6. `DayNumber` counts days from
1 January of year 0, and the weekday is counted from that day, a Saturday.

The date key is the local calendar date written the way `toISOString` writes a date.
The year has four digits for 0..9999, and otherwise a sign and six digits. The day
and month are zero-padded to two digits. Today's date (`new Date()`), the creation
stamp and the generated id are parameters.

## Model

| member | source | states |
|---|---|---|
| Store.AppointmentStore.constructor | script.js:4 | the list starts empty |
| Store.AppointmentStore.Load | script.js:90-99 | a missing or empty stored text leaves the list as it was; text that fails to parse empties it; otherwise the parsed list replaces it |
| Store.AppointmentStore.Create | script.js:414-420 | the list becomes the old list plus one record at the end, carrying the given id, the form's seven fields and the stamp; ids stay distinct when the new id is fresh |
| Store.AppointmentStore.Update | script.js:406-412 | the new list is `IsUpdateOf` the old: the same length, and exactly the first record with the id gets the form's fields; no match leaves the list unchanged; distinct ids stay distinct |
| Store.AppointmentStore.Delete | script.js:433-435 | the new list is the old one without the records carrying the id; distinct ids stay distinct |
| Store.AppointmentStore.Submit | script.js:391-422 | the errors are the missing fields, and the form is valid iff there are none; an invalid form changes nothing; a valid form updates the record for a non-empty editing id and appends a new record otherwise; a list of complete records stays complete |
| Store.CompletePreserved | script.js:394-435 | appending or merging a validated form, and deleting, keep every stored record complete |
| Appointments.NewAppointment | script.js:415-419 | the new record has the given id and stamp and exactly the form's seven fields |
| Appointments.Merge | script.js:410 | the spread merge keeps `id` and `createdAt` and takes all seven form fields |
| Appointments.MergeProperties | script.js:410 | merging a record's own form is the identity; changing one field changes only that field; a second merge overrides the first |
| Appointments.FindIndex | script.js:408 | -1 iff no record has the id; otherwise the index of a record with the id, with none before it |
| Appointments.FindById | script.js:312 | `None` iff no record has the id; otherwise the record at the first position holding the id, with no record carrying the id before it |
| Appointments.Without | script.js:435 | `filter(apt => apt.id !== id)`; what it keeps is stated by `WithoutSpec`, `WithoutIdempotent` and `WithoutKeepsIdsDistinct` below |
| Appointments.WithoutSpec | script.js:435 | deletion keeps all and only the records with another id, in their order, each as often as it occurs; an absent id changes nothing |
| Appointments.WithoutIdempotent | script.js:435 | deleting an id twice equals deleting it once |
| Appointments.WithoutKeepsIdsDistinct | script.js:435 | deletion keeps distinct ids distinct |
| Appointments.UpdateSpec | script.js:408-410 | an update keeps the length, every id and every stamp; it changes no record except the first with the id, which gets exactly the form's fields; distinct ids stay distinct |
| Appointments.CreateKeepsIdsDistinct | script.js:420 | appending a record whose id is absent keeps ids distinct |
| Validation.ValidateForm | script.js:364-389 | the loop returns the missing fields in checking order; valid iff no required field is empty, iff the error list is empty |
| Validation.MissingFields | script.js:377-386 | the fields that get an error, in checking order; stated by `MissingFieldsSpec`, `MissingFieldsPresenceOnly` and `TwoMissingFields` |
| Validation.ShownErrors | script.js:368-386 | what the page shows for each missing field: the input id, the error element id and the message of the `fields` table; stated by `ShownErrorsSpec` |
| Validation.ShownAllSpec | script.js:368-386 | a field's error is shown iff the field is listed; every shown error belongs to a listed field; a list without repeats writes no error element twice |
| Validation.ShownErrorsSpec | script.js:377-386 | a field's input id, error id and message are shown iff the field is empty; nothing else is shown; no error element gets two texts |
| Validation.FieldTextsDistinct | script.js:368-375 | the six rows of the `fields` table have distinct input ids, error ids and messages |
| Validation.MissingFieldsSpec | script.js:368-386 | a field gets an error iff it is empty; each field at most once; in checking order |
| Validation.MissingFieldsPresenceOnly | script.js:381 | only emptiness matters: forms with the same empty fields get the same errors, whatever their text and their reason |
| Validation.TwoMissingFields | script.js:377-386 | every empty field is reported, not only the first: patient and time missing report both |
| Validation.RequiredFieldsAll | script.js:368-375 | the six checked inputs are all the required fields; `reason` is not one of them |
| CalendarView.BuildDays | script.js:137-154 | 42 entries; entry k is grid date k; `isCurrentMonth` iff the date's month is the month shown, which is the same as lying in the month of the 1st |
| CalendarView.FirstShown | script.js:140 | the 1st of the shown month, with the Date constructor's two-digit-year rule |
| CalendarView.GridDate | script.js:142-153 | the date of grid cell k: k days after the Sunday on or before the 1st; stated by `GridDayNumber`, `GridCell`, `GridMonth`, `GridWeekday` and `GridCoversMonth` |
| CalendarView.GridDayNumber | script.js:142-153 | cell k lies k days after the first cell, which is Weekday(first) days before the 1st |
| CalendarView.GridWeekday | script.js:142-143 | cell k falls on weekday k % 7: the grid starts on a Sunday and its Fridays are the cells with k % 7 == 5 |
| CalendarView.GridNext | script.js:148-153 | consecutive cells hold consecutive days |
| CalendarView.GridDistinct | script.js:148-153 | distinct cells hold distinct dates |
| CalendarView.GridStart | script.js:142-143 | the first cell is the 1st when that is a Sunday, otherwise the right day of the previous month |
| CalendarView.GridCell | script.js:142-153 | the cell contents: the previous month's last days, then the month's days in order, then the next month's first days |
| CalendarView.BackThenForward | script.js:142-153 | going back w days and then forward k >= w days is going forward k - w days |
| CalendarView.Layout | script.js:142-153 | the same layout for any start offset of 0..6 days |
| CalendarView.LayoutMonth | script.js:142-151 | for any start offset of 0..6 days, a cell has the month of the 1st iff it is one of that month's own days, and then it has its year too |
| CalendarView.GridMonth | script.js:151 | a cell has the month of the 1st iff it is one of that month's own days; the offset is at most 6 and the month fits into the 42 cells |
| CalendarView.GridCoversMonth | script.js:142-154 | each day of the month is in exactly one cell, at offset + day - 1 |
| CalendarView.Label | script.js:180-185 | the day-number text of a cell; stated by `LabelSpec` |
| CalendarView.LabelSpec | script.js:180-185 | a label other than a 1st is the day's digits without a leading zero, reading back as the day; the 1st shows "Mon 1" with the month's abbreviation, which differs between months |
| CalendarView.CellOf | script.js:163-189 | a cell is "today" iff its date is today's date; it is Friday iff its weekday is 5; it is other-month iff not `isCurrentMonth`; its day text is the date's `Label`; its appointments are an in-order sublist of the list holding exactly those whose date equals the cell's key, each as often as it occurs in the list |
| CalendarView.BookedOn | script.js:189 | `appointments.filter(apt => apt.date === dateKey)`; stated by `CellOf`, `BookedOnceInGrid` and `BookedInItsCell` |
| CalendarView.BookedOnceInGrid | script.js:189 | no appointment shows in two cells of the grid |
| CalendarView.BookedInItsCell | script.js:189 | an appointment booked on a day of the month shows in that day's cell |
| CalendarView.HeaderDoctor | script.js:133-134 | the header doctor is the first record's doctor when that is non-empty, and "James Marry" otherwise |
| CalendarView.FridayColumn | script.js:165 | the cell rendered for grid entry k is a Friday iff k % 7 == 5 |
| CalendarView.RenderCells | script.js:159-202 | one cell per `days` entry, in order, each the rendering of that entry |
| CalendarView.RenderCalendar | script.js:128-203 | the header date text, the header doctor, and 42 cells, cell k the rendering of grid entry k, with Friday exactly in column 5 |
| Dashboard.InDateRange | script.js:262-269 | the date-range test as the code writes it, three branches; stated by `InDateRangeSpec` and `DateRangeIsChronological` |
| Dashboard.MatchesText | script.js:259-260 | one search box's test; stated by `MatchesTextSpec` and `MatchesTextCaseInsensitive` |
| Dashboard.Matches | script.js:258-271 | the filter callback: patient, doctor and date range all hold; stated by `FilterSpec` |
| Dashboard.FilterAppointments | script.js:258-272 | `appointments.filter(...)` with that callback; stated by `FilterSpec`, `FilterNoCriteria`, `FilterIdempotent` and `FilterCons` |
| Dashboard.InDateRangeSpec | script.js:262-269 | the three-branch date check holds iff each bound that is set holds, with both bounds inclusive |
| Dashboard.MatchesTextSpec | script.js:259-260 | an empty search matches; otherwise a name matches iff the lower-cased search occurs in the lower-cased name |
| Dashboard.MatchesTextCaseInsensitive | script.js:253-260 | matching ignores the case of ASCII letters in the name and in the search |
| Dashboard.FilterSpec | script.js:258-272 | the result is an in-order sublist; it keeps a record iff patient search, doctor search and date range all hold, and keeps it as often as it occurs |
| Dashboard.FilterNoCriteria | script.js:258-272 | with every input empty the whole list is shown |
| Dashboard.FilterIdempotent | script.js:258-272 | filtering the filtered list changes nothing |
| Dashboard.DateRangeIsChronological | script.js:262-269 | for keys of the years 0..9999, the string range test is the calendar range test |
| Dashboard.EditFindsRow | script.js:311-313 | the edit button of a listed row finds a record, and finds the row's own record when ids are distinct |
| Dashboard.FilterCons | script.js:258 | the filter visits the list front to back |
| Dashboard.FilterRangeExample | script.js:262-269 | appointments on 2023-01-10, -18 and -25 with range 2023-01-15..2023-01-20 leave only the 18th |
| Dashboard.FilterSearchExample | script.js:259 | the search "SMITH" finds "John Smith" |
| TimeFormat.FormatTime12h | script.js:67-74 | `formatTime12h`; its behaviour is stated by `FormatTime12hSpec`, `TwelveHourRoundTrip`, `EmptyTime` and the examples below |
| TimeFormat.FormatTime12hSpec | script.js:67-74 | "HH:MM" shows as the 12-hour hour (12 for 0 and 12), the minutes verbatim, and PM iff HH >= 12 |
| TimeFormat.Hour12 | script.js:72 | NaN gives 12; for a non-negative hour the shown hour is in 1..12 and agrees with it modulo 12 |
| TimeFormat.Meridiem | script.js:71 | `hour >= 12 ? 'PM' : 'AM'`, AM for NaN; stated by `FormatTime12hSpec` and `TwelveHourRoundTrip` |
| TimeFormat.TruncRem | script.js:72 | JavaScript's `%` with a positive divisor: the remainder has the dividend's sign and a smaller magnitude than the divisor |
| TimeFormat.TwelveHourRoundTrip | script.js:71-72 | for hours 0..23 the shown hour and AM/PM give the hour back |
| TimeFormat.EmptyTime | script.js:68 | an empty time shows as the empty text |
| TimeFormat.AfternoonExample | script.js:67-74 | "14:30" shows as "2:30 PM" |
| TimeFormat.MidnightExample | script.js:67-74 | "00:05" shows as "12:05 AM" |
| TimeFormat.NoonExample | script.js:67-74 | "12:00" shows as "12:00 PM" |
| TimeFormat.NegativeHourExample | script.js:70-72 | a negative hour keeps its sign: "-3:00" shows as "-3:00 AM" |
| TimeFormat.NoColonExample | script.js:69 | a time without a colon shows the destructured `undefined` |
| Calendar.Weekday | script.js:143 | `getDay()`, 0..6; stated by `WeekdayShift`, `WeekFromSunday` and `InitialDateIsWednesday` |
| Calendar.IsLeapYear | script.js:142-153 | the Gregorian leap rule the Date calendar follows; stated by `LeapDays` and `DaysBeforeYearClosed` |
| Calendar.DaysInMonth | script.js:153 | the month lengths `setDate` carries over at; stated by `DaysBeforeMonthStep`, `NextPrevDayNumber` and `GridCoversMonth` |
| Calendar.DayNumber | script.js:142-153 | the count of days from 1 January of year 0; stated by `NextPrevDayNumber`, `AddDaysDayNumber`, `DayNumberOrder` and `WeekdayShift` |
| Calendar.DaysBeforeYearClosed | script.js:143 | the days before year y >= 0 are 365 per year plus the leap days: one per multiple of 4 below y, less one per multiple of 100, plus one per multiple of 400 |
| Calendar.LeapDays | script.js:143 | a year has 366 days exactly when 4 divides it and either 100 does not or 400 does |
| Calendar.WeekdayInJanuary | script.js:143 | the weekday of a January day of year y >= 0 in closed form: the days before the year plus the day, counted round the week from a Saturday |
| Calendar.NextDay | script.js:153 | `setDate(getDate() + 1)`: a valid date; stated by `NextPrevDayNumber` and `NextPrevInverse` |
| Calendar.PrevDay | script.js:143 | one step of `setDate(getDate() - n)`: a valid date; stated by `NextPrevDayNumber` and `NextPrevInverse` |
| Calendar.AddDays | script.js:147-153 | n steps of `setDate(getDate() + 1)`: a valid date; stated by `AddDaysDayNumber`, `AddDaysAdd` and `AddDaysWithinMonth` |
| Calendar.SubDays | script.js:142-143 | `setDate(getDate() - n)`: a valid date; stated by `SubDaysDayNumber`, `AddSubInverse` and `SubDaysWithinMonth` |
| Calendar.DaysBeforeMonthStep | script.js:143 | the month table adds up: each month follows the previous one, and the twelve fill the year |
| Calendar.NextPrevDayNumber | script.js:153 | the next day has the next day number, the previous day the previous one |
| Calendar.NextPrevInverse | script.js:143-153 | a step back then forward, or forward then back, returns to the same date |
| Calendar.AddDaysDayNumber | script.js:147-153 | n days forward adds n to the day number |
| Calendar.SubDaysDayNumber | script.js:142-143 | n days back subtracts n from the day number |
| Calendar.AddDaysAdd | script.js:153 | a days then b days forward is a + b days forward |
| Calendar.AddSubInverse | script.js:143-153 | n days forward undoes n days back |
| Calendar.AddDaysWithinMonth | script.js:153 | inside a month, k days forward from day d is day d + k |
| Calendar.SubDaysWithinMonth | script.js:143 | inside a month, k days back from day d is day d - k |
| Calendar.WeekdayShift | script.js:143 | moving n days moves the weekday n places round the week |
| Calendar.WeekFromSunday | script.js:143 | counting k days on from the Sunday on or before a date reaches weekday k % 7 |
| Calendar.DayNumberOrder | script.js:264 | day numbers follow the calendar order: year, then month, then day |
| Calendar.DigitsOrder | script.js:264 | zero-padded numbers of one width compare as text as they compare as numbers |
| Calendar.DateKeyOrder | script.js:264 | for the years 0..9999, the text order of date keys is the order of the dates in time |
| Calendar.InitialDateIsWednesday | script.js:5 | the initial date, 18 January 2023, was a Wednesday, and 1 January 2023 a Sunday, which ties the weekday count to the real calendar |
| Calendar.DateKey | script.js:49-51 | the `YYYY-MM-DD` key of a date; stated by `DateKeyRoundTrip`, `DateKeyInjective` and `DateKeyOrder` |
| Calendar.DateKeyRoundTrip | script.js:49-51 | every date key reads back as its date |
| Calendar.DateKeyInjective | script.js:49-51 | different dates have different keys |
| Calendar.DisplayDate | script.js:53-55 | the header text "Month day, year"; stated by `DisplayDateRoundTrip` and `DisplayDateInjective` |
| Calendar.DisplayDateRoundTrip | script.js:53-55 | every header date text reads back as its date |
| Calendar.DisplayDateInjective | script.js:53-55 | different dates have different header texts |
| Calendar.MonthNamesDistinct | script.js:36-39 | the twelve month names differ |
| Calendar.FirstOfMonth | script.js:480 | `new Date(y, m, 1)` carries a month outside 0..11 into the year: the result is a valid 1st with 12 * year + month unchanged |
| Calendar.DateCtorYear | script.js:140 | the Date constructor's year rule: 0..99 means 1900 + year; stated with `FirstShown`, `NavigationAsWrittenAgrees` and `NavigationAsWrittenRoundTripFails` |
| Calendar.NewFirstOfMonth | script.js:480 | `new Date(y, m, 1)`: the year rule, then the month carried into the year; stated by `FirstShown`, `NavigationAsWrittenAgrees` and `NavigationAsWrittenRoundTripFails` |
| Calendar.PrevMonth | script.js:479-482 | the previous-month button as intended: the 1st of the previous month, December of the year before from January |
| Calendar.NextMonth | script.js:484-487 | the next-month button as intended: the 1st of the next month, January of the year after from December |
| Calendar.NavigationRoundTrip | script.js:479-487 | next then previous, or previous then next, returns to the 1st of the same month |
| Calendar.PrevMonthAsWritten | script.js:479-482 | the previous-month button as written, through the Date constructor's year rule; stated by `NavigationAsWrittenAgrees` and `NavigationAsWrittenRoundTripFails` |
| Calendar.NextMonthAsWritten | script.js:484-487 | the next-month button as written, through the Date constructor's year rule; stated by `NavigationAsWrittenAgrees` and `NavigationAsWrittenRoundTripFails` |
| Calendar.NavigationAsWrittenAgrees | script.js:479-487 | outside the years 0..99 the buttons as written do what is intended |
| Calendar.NavigationAsWrittenRoundTripFails | script.js:479-487 | as written, back from January of year 100 and forward again lands in January 2000 |
| DecimalText.ParseIntOfIntToString | script.js:70 | `parseInt` reads back every integer printed by a template literal |
| DecimalText.ParseIntDigits | script.js:70 | `parseInt` reads a zero-padded digit text as its number |
| DecimalText.DigitsValue | script.js:73 | printed digits are digits, at least as long as the padding, and denote the number |
| DecimalText.DecimalNoLeadingZero | script.js:184 | a positive number prints without a leading zero |
| DecimalText.IntToString | script.js:54 | a template literal's text of an integer: a '-' for a negative number, then its digits; stated by `ParseIntOfIntToString` and `DigitsValue` |
| DecimalText.DigitPrefix | script.js:70 | the digits `parseInt` reads are the longest prefix of its input made of digits only: the character after it, if any, is not a digit |
| DecimalText.ParseInt | script.js:70 | `parseInt` of a decimal text: leading white space, an optional sign, then the digits; NaN (`None`) without digits; stated by `ParseIntDigits` and `ParseIntOfIntToString` |
| Text.Lower | script.js:253-260 | lower-casing keeps the length and lower-cases each character |
| Text.LowerIdempotent | script.js:253-260 | lower-casing twice is lower-casing once; only the empty text lower-cases to the empty text |
| Text.ContainsIff | script.js:259-260 | `includes` holds iff the needle occurs at some position |
| Text.ContainsEmpty | script.js:259-260 | every text includes the empty text |
| Text.Contains | script.js:259-260 | `includes`; stated by `ContainsIff` and `ContainsEmpty` |
| Text.LexLe | script.js:264-268 | string `<=`; stated by `LexLeReflexive`, `LexLeAntisymmetric`, `LexLeTransitive`, `LexLeTotal` and `DateKeyOrder` |
| Text.LexLeReflexive | script.js:264 | string `<=` is reflexive |
| Text.LexLeAntisymmetric | script.js:264 | string `<=` is antisymmetric |
| Text.LexLeTransitive | script.js:264 | string `<=` is transitive |
| Text.LexLeTotal | script.js:264 | any two strings compare one way or the other |
| Text.Split | script.js:69 | `split(':')`: at least one piece; stated by `SplitConcat` and `SplitNone` |
| Text.SplitConcat | script.js:69 | splitting at the first separator gives the piece before it, then the split of the rest |
| Text.SplitNone | script.js:69 | a text without the separator splits into itself |
| Lists.KeepSpec | script.js:189 | `filter` keeps an in-order sublist of exactly the satisfying elements, each as often as it occurs |
| Lists.KeepIdempotent | script.js:435 | filtering twice with one predicate is filtering once |
| Lists.KeepPairwise | script.js:435 | filtering keeps any relation between earlier and later elements |
| Lists.Keep | script.js:189 | `Array.filter`; stated by `KeepSpec`, `KeepIdempotent` and `KeepPairwise` |
| Lists.Dedup | script.js:133 | `[...new Set(xs)]`; stated by `DedupSpec` and `DedupOrder` |
| Lists.DedupSpec | script.js:133 | the distinct values are the list's values, each once, and the first is the list's first element |
| Lists.DedupOrder | script.js:133 | the distinct values come in the order of their first occurrences in the list |
| Lists.FirstIndex | script.js:133 | the position of a value's first occurrence: it holds the value and no earlier position does |

## Left out

- The DOM is not modelled: element lookups, markup, class toggling, event listeners, the modal, the toast and `switchView`. `RenderCalendar` returns the cell values instead of building elements.
- `localStorage`, `JSON.parse` and `JSON.stringify` are not modelled. `Load` takes the stored text together with the parse outcome as a value. Nothing checks that parsed records have the record's shape. A stored text that parses to something other than a list (`"null"`, `"{}"`) cannot be represented: script.js:94 would store it, and `appointments.map` at script.js:133 would then throw. `saveAppointments` is not modelled.
- `generateId` (`Math.random`) and `new Date()` are not modelled. The id, the `createdAt` stamp and today's date are parameters, so unique ids are assumed where a lemma needs them, never proved.
- The `confirm()` dialog before a delete is not modelled. `Delete` is the confirmed branch.
- `formatTableDate` is not modelled: it depends on the locale library. The table rows and the "No appointments found" row are presentation only.
- The time-zone shift of `toISOString` is left out. The page keys a day by its UTC date, so in zones east of UTC a local midnight is keyed as the previous day. The model keys a day by its local calendar date.
- `Text.Lower`: lower-cases only ASCII letters, not the full Unicode mapping of `toLowerCase`.
- `Text.LexLe`: compares code points, while JavaScript compares UTF-16 code units. The two orders differ only on characters outside the Basic Multilingual Plane.
- `DecimalText.ParseInt`: ignores the loss of precision above 2^53 and the radix prefixes.
- `DecimalText.IsJsSpace`: covers the common white-space characters, not every Unicode space separator.
- `Calendar.Date`: has no range limit, while a JavaScript `Date` covers about 273 790 years on each side of 1970.
- The DST and UTC offsets of `setDate` and `new Date(...)` are not modelled.
- `lastDay` in `renderCalendar` is computed and never used, so it is not modelled.
- `TimeFormat.Hour12`: the 1..12 bound is stated for non-negative hours only. A negative hour keeps its sign (`NegativeHourExample`); the time input never delivers one.
- The delete operation returns nothing and has no "not found" error, because the code has neither.

## Findings

| source | as written | input that shows it | evidently intended | confidence | as-written member | corrected member |
|---|---|---|---|---|---|---|
| script.js:479-487 | the month buttons rebuild the date with `new Date(getFullYear(), getMonth() ± 1, 1)`, so a year of 0..99 is read as 1900 + year | from January of year 100, "previous" gives December of year 99, and "next" from there gives January 2000 instead of January 100 | previous then next returns to the same month | not executed; follows from the Date constructor rule of ECMA-262 section 21.4.2.1 | Calendar.NavigationAsWrittenRoundTripFails | Calendar.NavigationRoundTrip |

The same year rule applies to `new Date(year, month, 1)` at script.js:140. The grid is
modelled as the code builds it (`CalendarView.FirstShown`). Once navigation reaches a
year between 0 and 99, the header shows that year while the grid shows the same
month of 1900 + year.
