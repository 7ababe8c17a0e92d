# A verified model of a monthly calendar's event store

The system is a browser calendar written as one React component (`App`) plus a
date helper. The user moves between months. Clicking a day opens a form, and
the form adds, edits and deletes timed events of that day. Events can be
dragged from one day to another. All events can be exported as CSV.

This project models:
- the component's state (the events object, the selected day and event, the
  form, the form errors, the month on show) as the class
  `CalendarApp.Calendar`, with one method per handler;
- the new event objects those handlers build, as functions over a value
  `EventStore.Store`;
- the form checks and the overlap test (`FormValidation`);
- the CSV text (`CsvExport`);
- `getDaysInMonth` and the parts of JavaScript's `Date` it relies on
  (`DateUtils`).

Modelling choices:
- **Event identity.** The app finds events with `===`, which compares
  references. So an event is a Dafny object (`EventModel.Event`) whose fields
  never change, and `{ ...eventForm }` is `new Event(form)`.
- **Key order.** A JavaScript object lists its keys in the order they were
  first added, and the CSV export visits days in that order. So a store is a
  map plus its key order. Writing an existing key keeps its place; writing a
  new key puts it last.
- **The class invariant.** `Calendar.Valid()` says two things. Each key is
  listed once. No event object is held twice anywhere in the store. Every
  handler keeps `Valid()`.
- **Times** are compared as JavaScript compares strings (`Before`). On
  zero-padded "HH:MM" values, that string order is proved to be the order of
  minutes since midnight.
- **Dates** follow JavaScript's `Date` constructor, within the range of time
  values it accepts (see "Left out"):
  - a month outside 0..11 carries into the year (Euclidean division);
  - a date is a day number, as in ECMAScript's DayFromYear and MakeDay, so
    day 0 of a month is the same day as the last day of the month before;
  - a year from 0 to 99 is read as 1900 to 1999 (ECMAScript MakeFullYear).

Behaviour worth noting:
- `editEvent` runs no overlap test at all, so an edit can create a collision.
  `CalendarApp.EditSkipsOverlapTest` exhibits one.
- `deleteEvent` on a day with no key writes an empty list under that key.
- The CSV export has `1 + total events` lines only when no field holds a line
  break (`CsvExport.CsvLineCount`); commas do not affect the count. A
  description comes from a text area and may hold a line break;
  `CsvExport.LineBreakInDescriptionSplitsRow` shows the extra line.

## Model

| member | source | states |
|---|---|---|
| DateUtils.DaysInMonth | src/utils/dateUtils.js:4-6 | a month has 28 to 31 days; 29 exactly for February of a Gregorian leap year, 28 exactly for February otherwise, 30 exactly for April, June, September and November |
| DateUtils.DaysInYear | src/utils/dateUtils.js:4-6 | the twelve month lengths add up to 366 in a leap year and 365 otherwise |
| DateUtils.MonthOf | src/utils/dateUtils.js:3-4 | the Date constructor's month normalisation: the month lands in 0..11 with the same total month count (year read through MakeFullYear); an in-range month outside years 0..99 is unchanged |
| DateUtils.YearStep | src/utils/dateUtils.js:4 | ECMAScript's DayFromYear puts the start of the next year exactly one year length (the sum of the twelve month lengths) later |
| DateUtils.EarlierYearEarlierDay | src/utils/dateUtils.js:4 | a real date in an earlier year has a smaller day number |
| DateUtils.EarlierMonthEarlierDay | src/utils/dateUtils.js:4 | a real date in an earlier month of the same year has a smaller day number |
| DateUtils.DayNumberInjective | src/utils/dateUtils.js:4-6 | two real dates with the same day number are equal, so a time value determines the year, month and `getDate()` it reports |
| DateUtils.DayZeroIsLastDay | src/utils/dateUtils.js:4 | `new Date(year, month, 0)` (MakeDay with date 0) is the same day as the last day of the normalised month before `month` |
| DateUtils.DayZero | src/utils/dateUtils.js:4 | `new Date(year, month, 0).getDate()`: the result is a real day of the month before `month` whose day number is that of `new Date(year, month, 0)`; with DayNumberInjective it is the only such day |
| DateUtils.GetDaysInMonth | src/utils/dateUtils.js:1-11 | the result has as many elements as the month has days; element k is day k+1 of the month, a real date with the day number of `new Date(year, month, k+1)`; a date is in the result iff it is a real date of that month; for an in-range month outside years 0..99, every element has the input year and month; first day 1, last the month's length |
| FormValidation.RequiredFieldErrors | src/App.jsx:47-53 | the errors hold a key exactly for each empty required field, with that field's message; description and type never get one; the number of errors is the number of empty fields, and it is zero iff the form is complete |
| FormValidation.OptionalFieldsIgnored | src/App.jsx:48-51 | changing description or type changes neither the errors nor completeness |
| FormValidation.TimeOrder | src/App.jsx:62-63 | on "HH:MM" times, string `<` is `<` on minutes since midnight, and equal minutes mean equal strings |
| FormValidation.CollidesInMinutes | src/App.jsx:62-63 | on "HH:MM" times, the collision test is the overlap of the half-open minute intervals or equal start and end |
| FormValidation.IdenticalIntervalsCollide | src/App.jsx:63 | events with equal start and end times collide, zero-length ones included |
| FormValidation.CollidesSymmetric | src/App.jsx:62-63 | the collision test gives the same answer with the two events swapped |
| FormValidation.TouchingIntervalsDoNotCollide | src/App.jsx:62-63 | an event ending where a non-empty one starts collides with it in neither order |
| FormValidation.ContainmentCollides | src/App.jsx:62 | on "HH:MM" times, a form spanning a non-empty existing event collides with it |
| FormValidation.HasOverlapIff | src/App.jsx:60-64 | `dayEvents.some(...)` holds iff some event of the day collides with the form |
| FormValidation.AcceptedEventKeepsDayCollisionFree | src/App.jsx:60-73 | appending a form copy that fails the overlap test to a day without collisions leaves the day without collisions |
| EventModel.Event.constructor | src/App.jsx:73 | `{ ...eventForm }` is a new object holding the form's fields |
| EventStore.Assign | src/App.jsx:71-74 | `{ ...events, [day]: list }` gives `day` the new list and leaves every other day alone; an existing key keeps its place and a new key goes last; the key order stays valid |
| EventStore.Added | src/App.jsx:71-74 | after an accepted add, the selected day's list is the old list with the new event at the end, and every other day is unchanged |
| EventStore.AddedEvents | src/App.jsx:71-74 | adding puts exactly the new event into the store's events, one more in total |
| EventStore.IndexOf | src/App.jsx:84 | `findIndex` by reference gives -1 iff nothing is selected or the selected event is not in the list, and otherwise the first index holding it |
| EventStore.Edited | src/App.jsx:83-94 | when the selected event is found at index i, the day's list keeps its length and key order, position i holds the form copy, every other position and every other day is unchanged; when it is not found, the store is unchanged |
| EventStore.EditedEvents | src/App.jsx:87-94 | an edit swaps the replaced event for the form copy in the store's events, so the total stays the same |
| EventStore.Without | src/App.jsx:106 | `filter(event => event !== selected)` keeps exactly the elements that are not the selected event; with nothing selected, or the event absent, the list is unchanged |
| EventStore.WithoutCounts | src/App.jsx:106 | the filter removes every copy of the selected event, keeps every copy of every other event, and the length drops by the number of copies removed |
| EventStore.WithoutConcat | src/App.jsx:106 | the filter works piece by piece, so it keeps the relative order of what remains |
| EventStore.Deleted | src/App.jsx:103-107 | after a delete, the day's list is the filtered list and every other day is unchanged; a missing key is added last (with an empty list); an existing key whose list lacks the event leaves the store unchanged |
| EventStore.DeletedEvents | src/App.jsx:103-107 | a delete only removes events, and it removes exactly the copies of the selected event that the day held |
| EventStore.RemoveAt | src/App.jsx:128 | `splice(i, 1)` removes exactly the element at i and shifts the rest down |
| EventStore.InsertAt | src/App.jsx:130 | `splice(i, 0, x)` puts x at i (at the end when i is past it) and shifts the rest up |
| EventStore.DragEnd | src/App.jsx:118-130 | the early returns and the two `splice` calls, done step by step on the events object, compute exactly the move result |
| EventStore.Moved | src/App.jsx:114-132 | with no destination, or a destination equal to the source, the store is unchanged; the key order stays valid |
| EventStore.MovePlacesEvent | src/App.jsx:125-130 | on a move, the destination day's list is its list before the insertion with the dragged event at the destination index (clamped to its end), and days other than source and destination are unchanged |
| EventStore.MoveBetweenDays | src/App.jsx:128-130 | a move to another day leaves the source list one shorter without the dragged event; a missing destination key is added last and ends up holding just the dragged event |
| EventStore.MoveWithinDay | src/App.jsx:128-130 | a move within one day keeps the key order, the list's length and its contents: it only reorders them |
| EventStore.MoveKeepsEvents | src/App.jsx:125-132 | a drag neither creates nor loses events: the same events, the same total |
| EventStore.RelocatedKeepsEvents | src/App.jsx:125-130 | the three steps of a real move (splice out, create the destination key, splice in) keep the store's multiset of events |
| CsvExport.VisitsAreEvents | src/App.jsx:152-153 | the export visits exactly the store's events, in key order and then list order |
| CsvExport.RowLineTemplate | src/App.jsx:154 | the five fields joined with commas are the row template: date, name, start, end, and then the description or "" |
| CsvExport.ExportedRowsSnoc | src/App.jsx:154 | `csv += row + "\n"` adds that row as one more terminated line of the text |
| CsvExport.AppendDayRows | src/App.jsx:153-155 | the inner loop's text is the header plus one terminated row per event visited so far, this day's events included |
| CsvExport.HeaderText | src/App.jsx:150 | the header joined from the five names is exactly the text "Date,Event Name,Start Time,End Time,Description" that the export writes first |
| CsvExport.HeaderSplits | src/App.jsx:150 | the header has no line break and splits at its commas into its five names |
| CsvExport.RowFields | src/App.jsx:154 | a row of fields without commas or line breaks splits back into exactly its five fields and has no line break |
| CsvExport.SplitTerminated | src/App.jsx:150-155 | text made of lines without line breaks, each followed by "\n", splits back into those lines |
| CsvExport.PlainLines | src/App.jsx:150-154 | when no field holds a comma or line break, no line of the export holds a line break and each line splits into its fields |
| CsvExport.VisitsStep | src/App.jsx:152-153 | the outer loop's visits after key i are those before it followed by key i's events |
| CsvExport.CsvLineCount | src/App.jsx:149-156 | when no field holds a line break (commas allowed), the export splits into exactly 1 + total-events lines: the header, then each event's row in visiting order |
| CsvExport.CsvRoundTrip | src/App.jsx:149-156 | when no field holds a comma or line break, parsing the export back gives the header names and then each event's five fields, in visiting order |
| CsvExport.LineBreakInDescriptionSplitsRow | src/App.jsx:154 | a description containing "\n" spreads its row over two lines of the export |
| CalendarApp.ShiftMonth | src/App.jsx:29-31 | the new date is day 1 of a month in 0..11 whose month count is the current one (year read through MakeFullYear) plus `direction` |
| CalendarApp.ShiftByZero | src/App.jsx:30 | shifting by zero months gives day 1 of the same month (years outside 0..99) |
| CalendarApp.ShiftsCompose | src/App.jsx:30 | shifting by a and then by b is shifting by a+b, when neither start lies in years 0..99 |
| CalendarApp.NextThenPrevious | src/App.jsx:29-31 | "next" then "previous" returns to day 1 of the month on show (years outside 0..99) |
| CalendarApp.TwoDigitYearJump | src/App.jsx:30 | going back from January of year 100 gives December of year 99, and going back again gives November 1999 |
| CalendarApp.AcceptedAddition | src/App.jsx:56-78 | an accepted add raises the total by one and keeps a day without collisions free of them |
| CalendarApp.AddedKeepsDistinct | src/App.jsx:73 | adding a fresh event object keeps every event object held once |
| CalendarApp.EditedKeepsDistinct | src/App.jsx:87-94 | replacing with a fresh event object keeps every event object held once |
| CalendarApp.DeletedKeepsDistinct | src/App.jsx:104-107 | deleting keeps every event object held once |
| CalendarApp.MovedKeepsDistinct | src/App.jsx:125-132 | a drag keeps every event object held once |
| CalendarApp.DeletedCount | src/App.jsx:102-108 | a delete lowers the total by one when the day held the selected event, and leaves it unchanged otherwise |
| CalendarApp.EditSkipsOverlapTest | src/App.jsx:80-100 | an edit can leave two colliding events on one day, because it runs no overlap test |
| CalendarApp.Calendar.constructor | src/App.jsx:7-20 | initial state: today's date, the stored events or `{}`, nothing selected, an empty form, no errors |
| CalendarApp.Calendar.ChangeMonth | src/App.jsx:29-31 | the month on show becomes the shifted month; no other field changes |
| CalendarApp.Calendar.DayClick | src/App.jsx:33-39 | the day is selected; no event is selected; the form and errors are cleared; date and events are unchanged |
| CalendarApp.Calendar.EventClick | src/App.jsx:41-45 | the event is selected and its fields are copied into the form; errors are cleared; nothing else changes |
| CalendarApp.Calendar.ValidateForm | src/App.jsx:47-54 | the errors become one message per empty required field; the result is true iff the form is complete; nothing else changes |
| CalendarApp.Calendar.AddEvent | src/App.jsx:56-78 | errors as validation sets them; an incomplete or overlapping form leaves events and form unchanged; otherwise a fresh event is appended to the selected day's list, holding the form's fields, and the form is cleared; the invariant holds |
| CalendarApp.Calendar.InsertForm | src/App.jsx:59-77 | for a complete form: an overlap changes nothing; otherwise a fresh event holding the form is appended to the day and the form is cleared |
| CalendarApp.Calendar.EditEvent | src/App.jsx:80-100 | errors as validation sets them; an incomplete form, or a selected event the day lacks, changes nothing else; otherwise a fresh event with the form's fields takes the selected event's index, and the selection and form are cleared; the invariant holds |
| CalendarApp.Calendar.ReplaceSelected | src/App.jsx:83-99 | for a complete form: no selected event in the day changes nothing; otherwise the form copy replaces it in place and the selection and form are cleared |
| CalendarApp.Calendar.DeleteEvent | src/App.jsx:102-112 | the events become the delete result; selection, form and errors are cleared; the invariant holds |
| CalendarApp.Calendar.OnDragEnd | src/App.jsx:114-135 | the events become the move result (computed by `DragEnd`); no other field changes; the invariant holds |
| CalendarApp.Calendar.ExportCsv | src/App.jsx:149-156 | the loops build exactly the export text: the header line and one terminated row per event, in visiting order |

## Left out

- Rendering, CSS, current-day highlighting and month names are user interface, so they are left out.
- Loading from and saving to `localStorage` are browser I/O. The constructor takes the stored store as a parameter (None for nothing stored) and requires it to have distinct day keys (`StoreValid`) and each event object held once (`Distinct`). `JSON.parse` always produces such a store, because an object's keys are unique and every array element is a fresh object; the parsing itself is not modelled. Malformed stored JSON makes `JSON.parse` throw rather than fall back to `{}`; that path is not modelled.
- The JSON export and the Blob, URL and download plumbing of both exports are foreign browser APIs, so they are left out.
- `alert` on an overlap is a UI side effect; the rejected add just leaves the state unchanged.
- The drag-and-drop library is not modelled. `OnDragEnd` takes the `source` and `destination` it would pass, and requires the source to be a displayed event (an existing day, an index inside its list).
- Day keys are opaque strings. Deriving them with `toISOString` depends on the time zone, so it is left out.
- The asynchrony of React's state setters and `useCallback` memoisation are runtime concerns. Each handler is modelled as if its updates took effect at once.
- The wiring of the Submit button to `addEvent` or `editEvent` (src/App.jsx:281) is not modelled.
- AddEvent, EditEvent, DeleteEvent: they require a selected day, because the form that calls them is only shown when a day is selected. The code's behaviour with a `null` day (key "null") is not modelled.
- CalendarApp.Calendar.OnDragEnd, EventStore.DragEnd: modelled on values. `splice` in the code changes arrays that the previous state still shares, because `{ ...events }` copies only the outer object. `DragEnd` builds new lists instead, so that aliasing is not captured.
- Before: compares characters as Dafny `char` values. JavaScript compares UTF-16 code units; the two agree on the ASCII "HH:MM" strings the time inputs produce.
- CsvExport.CsvLineCount: the line count `1 + total events` is proved only when no field holds a line break; a line break in a field really adds a line, because the export does no quoting.
- CsvExport.CsvRoundTrip: reading the fields back is proved only when no field also holds a comma, because an unquoted comma splits a field in two.
- DateUtils.GetDaysInMonth, CalendarApp.ShiftMonth: JavaScript's `Date` only holds time values within 8.64e15 ms (100,000,000 days) of 1 January 1970, about the years -271821 to 275760; beyond that the constructor gives an Invalid Date, `getDate()` is NaN and `getDaysInMonth` returns `[]` (for instance `getDaysInMonth(275760, 8)`). The model treats every year as valid, so its results hold only for dates inside that range.
- DateUtils.DayZero: day numbers stand for time values at midnight; the time of day and the local time-zone offset are left out.
- CalendarApp.ShiftByZero, CalendarApp.ShiftsCompose, CalendarApp.NextThenPrevious: stated only for years outside 0..99. Inside that range the Date constructor's two-digit-year rule breaks these laws, as CalendarApp.TwoDigitYearJump shows.
- Only the object keys that are not array indices are modelled: day keys have the form "YYYY-MM-DD", and JavaScript would list integer-like keys first.
