# taskflow-lite: a verified model of the demand tracker's core

taskflow-lite is a single-page tool for tracking "demands" (units of work).
Each demand has a title, a description, a type (`rotina`, routine, or
`esporadica`, sporadic), a reception date and, once closed, a completion
date and a mandatory comment. All of its logic lives in `app.js`. This
project models three parts of it in Dafny and proves properties of the model:

- **The business-hours calculator** (`calculateWorkHours`, `sameDay`). It
  walks day by day from the start's calendar day to the end's, skips
  Saturdays and Sundays, clips each weekday's 07:12–17:30 window to the query
  interval and adds up the clipped lengths. Module `WorkCalendar`, file
  `work_calendar.dfy`.
  - Time is a whole number of milliseconds on a grid of 24-hour local days.
  - Day 0 is 1970-01-01, a Thursday, and `weekday = (day + 4) % 7` with
    0 = Sunday, as `Date.getDay` numbers days.
  - A missing or unparseable instant is `None`.
  - The result is in milliseconds, not fractional hours.
- **The demand store.** The event handlers change a module-level `demands`
  array and a `nextId` counter. Here these are the class
  `Store.DemandStore` (file `store.dfy`), with one method per handler:
  create, edit, complete, delete, and the once-per-load recreation of
  routines. The pure parts are functions on `seq<Demand>`:
  - trimming and the form check, find-by-id, the list filters and their
    newest-first order, the dashboard counts and hour buckets (module
    `Demands`, file `demands.dfy`);
  - the recreation rule (module `Routines`, file `routines.dfy`);
  - `Array.prototype.filter` and its laws (module `Seqs`, file `seqs.dfy`).
  The current instant ("now") is a parameter wherever the app reads the
  clock, and "today" is the calendar day of now.
- **HTML escaping** (`escapeHtml`): the five `replaceAll` passes, `&` first.
  Module `HtmlEscape`, file `html_escape.dfy`.

A demand's `type` is the field `kind`, a `string`. The app compares it with
the literals `'rotina'` and `'esporadica'` and puts every type other than
`'rotina'` in the sporadic hour bucket, so the model keeps it as text.

What the proofs establish, in brief:

- **Calculator.** It is the sum, over the days from the start's to the
  end's, of the interval's intersection with each weekday's window. The
  result lies between 0 and `end - start`. Each day adds at most 10 h 18 min,
  and weekends add nothing. An interval inside one weekday's window counts
  in full. A Friday-to-Monday span is Friday's share plus Monday's.
  Business time is additive over adjacent intervals, so it grows with the
  end.
- **Escaping.** The output holds no `<`, `>`, `"` or `'`. Text without the
  five special characters comes back unchanged. The five-pass chain equals
  a one-pass, per-character escape, and decoding the five entities gives
  the original text back.
- **Filters.** The `pending` and `completed` filters partition the list.
  `all` and any unrecognised filter show everything. The list is shown
  newest first and holds, with multiplicity, exactly the demands the filter
  keeps.
- **Dashboard.** Completed plus pending equals the number of demands, and
  the pending count equals what the `pending` filter shows. The routine and
  sporadic hour buckets add up to the total, and the routine bucket is the
  total over the `rotina` filter. Completing a pending demand moves one
  count from pending to completed.
- **Store.** Each handler's new state is stated in full. A refused action
  changes nothing. Ids stay unique. The counter only grows and stays above
  every id handed out in the session, deleted ones included.
- **Recreation.** It only appends. Each record it adds is a pending,
  recreated `rotina` copy of a due routine, with consecutive ids from the
  counter. It copies each due routine exactly once, in list order
  (`Routines.CopiesAreDueInOrder`).

The guard against duplicate copies ignores records marked `_recreated`
(app.js:410). So running the pass a second time on the same day, over the
list the first run produced, adds as many copies again
(`Routines.ReloadRecreatesAgain`). Each page load that day adds another
set.

Three behaviours of the code that a reader might not expect:

- Tuesday 2024-01-02 from 08:00 to 12:00 counts 4 hours of business time,
  because the window opens at 07:12 (`WorkCalendar.TuesdayMorning`).
- Editing an id that no record has leaves the list as it is. The model
  reports this as `Rejected(NotFound)` with the state unchanged.
- The counter is recomputed as the largest id plus one at every load
  (app.js:17, app.js:460). So an id deleted from the top of the list can
  come back in a later session (`Demands.InitialNextId`). Uniqueness and
  non-reuse of ids hold within one session only.

## Model

| member | source | states |
|---|---|---|
| `WorkCalendar.Day` | app.js:43-46 | the instant lies in the 24-hour day that starts at that day's midnight (local midnight, rounding down) |
| `WorkCalendar.WeekDay` | app.js:49 | the week day is in 0..6, in `getDay` numbering with 0 = Sunday |
| `WorkCalendar.NextWeekDay` | app.js:66 | moving the cursor one day on moves the week day on by one, Saturday wrapping to Sunday |
| `WorkCalendar.SameDay` | app.js:71-73 | `sameDay(a, b)` holds exactly when `b` falls within the calendar day of `a` (and symmetrically) |
| `WorkCalendar.DayShare` | app.js:50-63 | one day's clipped contribution is between 0 and one full window (10 h 18 min), and is 0 on Saturday and Sunday |
| `WorkCalendar.Accumulated` | app.js:41-67 | the running total over n visited days is non-negative and at most n full windows |
| `WorkCalendar.WorkMs` | app.js:35-69 | the computed business time is never negative |
| `WorkCalendar.CalculateWorkMs` | app.js:35-69 | the day-by-day loop returns `WorkMs`: 0 when an instant is missing or unparseable or when end <= start, and otherwise between 0 and end - start |
| `WorkCalendar.Overlap` | app.js:57-63 | reference definition of a day's share, the length of the query's intersection with that weekday's window; between 0 and one window |
| `WorkCalendar.ShareIsOverlap` | app.js:57-63 | on every day from start's to end's, the source's `sameDay`-based clipping equals the plain intersection with the window |
| `WorkCalendar.WorkMsIsSumOfOverlaps` | app.js:48-64 | the result is the sum, over the days from start's to end's inclusive, of max(0, min(end, workEnd) - max(start, workStart)) on weekdays |
| `WorkCalendar.WorkMsAtMostElapsed` | app.js:58-63 | business time never exceeds the length of the interval |
| `WorkCalendar.WorkMsAtMostWindows` | app.js:52-55 | an interval spanning n calendar days yields at most n full windows |
| `WorkCalendar.SameDayInsideWindow` | app.js:58-62 | start and end on the same weekday, both inside [07:12, 17:30]: the result is exactly end - start |
| `WorkCalendar.FridayToMonday` | app.js:48-50 | from a Friday to the next Monday the result is Friday's share plus Monday's; Saturday and Sunday add nothing |
| `WorkCalendar.WorkMsAdditive` | app.js:48-64 | for s <= m <= e, the business time of [s, e] is that of [s, m] plus that of [m, e] |
| `WorkCalendar.WorkMsMonotone` | app.js:48-64 | a later end never yields less business time |
| `WorkCalendar.TuesdayMorning` | app.js:12-13 | 2024-01-02 08:00 to 12:00 yields exactly 4 hours |
| `HtmlEscape.ReplaceAll` | app.js:84-88 | every character of the result is a kept character of the input other than the pattern, or one of the replacement's; with no occurrence, the input is returned unchanged |
| `HtmlEscape.EscapeChainSafe` | app.js:84-88 | after the five passes no `<`, `>`, `"` or `'` remains: each is removed by its own pass and no later replacement text contains it |
| `HtmlEscape.EscapeChainPlain` | app.js:84-88 | text without any of `& < > " '` passes all five replacements unchanged |
| `HtmlEscape.EscapeHtml` | app.js:82-89 | `null`/`undefined` give the empty string; the output holds no `<`, `>`, `"` or `'`; text without the five characters is returned as is |
| `HtmlEscape.EscapeHtmlIsCharwise` | app.js:83-88 | because `&` goes first, the chain equals escaping each character to its own entity in one pass |
| `HtmlEscape.UnescapeEscapeHtml` | app.js:82-89 | decoding the five entities recovers the original text: escaping loses nothing |
| `Seqs.Filter` | app.js:97-104 | the filtered list holds exactly the elements that pass the test, and is no longer than the input |
| `Seqs.FilterConcat` | app.js:146 | filtering works piece by piece, hence keeps the relative order of the kept elements |
| `Seqs.FilterPartition` | app.js:99-100 | two complementary tests split a list into parts whose sizes and multisets add up to the whole |
| `Demands.MaxId` | app.js:17 | the computed maximum is an upper bound of the ids and is attained |
| `Demands.InitialNextId` | app.js:17 | the loaded counter is above every id, is 1 for an empty list, and is otherwise exactly the largest id plus one |
| `Demands.AppendKeepsIdsUnique` | app.js:207-216 | appending a record whose id is at or above the counter keeps the ids unique and below the next counter |
| `Demands.IndexOf` | app.js:194 | `find` yields the first record with the id, or nothing exactly when no record has it |
| `Demands.IndexOfUnique` | app.js:284 | with unique ids, the record found is the only one with that id |
| `Demands.SkipSpaces` | app.js:183-184 | the first position at or after `i` that is not white space, with only white space skipped over |
| `Demands.BackOverSpaces` | app.js:183-184 | going back from `j` no further than `lo`, the start of the run of white space that ends at `j` |
| `Demands.Trim` | app.js:183-184 | the trimmed text is the slice of the input that starts after its leading white space; everything before and after that slice is white space; it neither starts nor ends with white space; it is empty exactly when the input is all white space |
| `Demands.Without` | app.js:146 | delete keeps exactly the records with another id, and keeps ids unique |
| `Demands.DeleteKeepsOrder` | app.js:146 | delete works record by record, so the surviving records stay in their order |
| `Demands.ListedSnoc` | app.js:97-104 | a record added at the end of the list shows, at the end, exactly when the filter shows it |
| `Demands.UnknownFilterShowsAll` | app.js:97-104 | `all` and every unrecognised filter show the whole list unchanged |
| `Demands.PendingCompletedPartition` | app.js:99-100 | `pending` and `completed` split the list: sizes and multisets add up, the first holds only pending demands and the second only completed ones |
| `Demands.Insert` | app.js:107 | inserting into a newest-first list gives a newest-first list with one more record |
| `Demands.SortNewestFirst` | app.js:106-107 | the sort keeps the same records, each as often, in descending `receivedDate` order |
| `Demands.Listing` | app.js:97-107 | the shown list is newest first and holds, as a multiset, exactly the demands the filter keeps |
| `Demands.Tallies` | app.js:370-378 | completed + pending equals the number of demands; pending equals what the `pending` filter shows; routine + sporadic counts do not exceed the total |
| `Demands.CompletionMovesOneCount` | app.js:370-371 | completing a pending demand raises the completed count by one, lowers pending by one, and leaves the type counts as they were |
| `Demands.DemandMs` | app.js:385 | a demand's business time, up to its completion or, while pending, up to now, is between 0 and that elapsed time |
| `Demands.TotalMs` | app.js:383-388 | the total business time over the demands is never negative |
| `Demands.BucketsShareTotal` | app.js:383-388 | the routine and sporadic buckets are non-negative and sum to the total over all demands |
| `Demands.RoutineBucketIsRoutineTotal` | app.js:386 | the routine bucket is the total business time of the demands the `rotina` filter shows |
| `Demands.HoursByType` | app.js:383-388 | the accumulation loop yields the two buckets, `rotina` hours in one and every other type in the other, which sum to the total |
| `Routines.Copies` | app.js:403-430 | the pass adds at most one record per demand it scans |
| `Routines.CopiesShape` | app.js:412-421 | each added record has id counter + k, is a pending `rotina` received now with an empty comment and the recreated mark, and copies the title and description of a due routine |
| `Routines.CopiesCount` | app.js:406-425 | the pass adds as many copies as there are due routines |
| `Routines.CopiesAreDueInOrder` | app.js:406-425 | copy k is the copy of the k-th due routine in list order, with id counter + k: each due routine is copied exactly once |
| `Routines.ExistsTodayIgnoresCopies` | app.js:410 | records marked as recreated never count as a routine already received today |
| `Routines.ReloadRecreatesAgain` | app.js:410-422 | a second pass on the same day, over the list the first pass produced, adds as many copies again |
| `Store.IssueNext` | app.js:207-216 | handing out the counter as the new record's id (`nextId++`) keeps the counter above every id present or ever issued, and the id was never issued before |
| `Store.IssueRun` | app.js:412-427 | appending a run of records with consecutive ids from the counter keeps the counter above every id present or issued, and keeps ids unique |
| `Store.DemandStore.Load` | app.js:16-17 | a session starts with the saved list and the counter one above its largest id (1 when empty), which keeps the store invariant |
| `Store.DemandStore.Create` | app.js:183-216 | refused with no change when the trimmed title, the trimmed description or the date is empty; otherwise exactly one pending record with id = counter and an empty comment is appended, the counter goes up by one, the new id was never issued before, and ids stay unique |
| `Store.DemandStore.Update` | app.js:193-201 | with a complete form, only the title, description, type and date of the first record with that id change; completion fields and all other records stay; an unknown id or an incomplete form changes nothing |
| `Store.DemandStore.Complete` | app.js:279-290 | an empty trimmed comment or an unknown id leaves the store unchanged; otherwise only that record's completion date (now) and comment (trimmed) change |
| `Store.DemandStore.Delete` | app.js:146 | the new list is the old one without the records with that id; the counter stays |
| `Store.DemandStore.RecreateRoutines` | app.js:403-430 | the old records stay as they are and the pass's copies are appended; the counter moves on by their number; ids stay unique |

## Left out

- DOM work is not modelled: rendering through `innerHTML` and templates, the event listeners, the modal's opening and closing, view switching, `confirm` and `alert`.
- The UI state `editingId`, `pendingCompleteId` and `currentFilter` is not modelled, nor the cancel-edit button. The handlers receive the id and the filter as parameters.
- The truthiness test `if(editingId)` that chooses between create and edit is not modelled. The model offers `Create` and `Update` separately.
- Chart.js (`initCharts`, app.js:325-364) is library code: the charts are not built. What `updateCharts` computes for them is modelled.
- Persistence is I/O and is not modelled: `localStorage`, the JSON encoding, `save`, and the cross-tab `storage` reload (app.js:457-463). The reload sets the counter as `InitialNextId` does at load.
- JavaScript `Date` is not modelled: ISO parsing, `toDateString`, `toISOString`, `formatDateTime`, time zones and daylight saving time. Days are a fixed 24-hour grid on one clock. The app keeps two encodings of `receivedDate`: a form record keeps the local date-time text of the form field (app.js:186, app.js:212), while a copy made by the recreation pass gets a UTC instant (app.js:417). `completedDate` and "today" are UTC as well (app.js:289, app.js:404). The model puts all of them on one grid.
- `Demand.received` is a plain instant. The form's date field yields either nothing, modelled as `None` and refused, or a valid date-time. A stored reception date that does not parse is not modelled.
- `EscapeHtml` takes text or `None`. `String(...)` of a non-string value, such as a number, is not modelled.
- The comparator inside `Array.prototype.sort` is not modelled, and neither is the order of demands with equal reception dates. The model states only the resulting newest-first order and that it is a permutation.
- CalculateWorkMs: reports whole milliseconds; the division into fractional hours (app.js:68) and the `toFixed(2)` display rounding (app.js:120) are floating point and are not modelled.
- HoursByType: reports the buckets in milliseconds; the float sum of hours and its `toFixed(2)` rounding (app.js:389) are not modelled.
- Store.DemandStore.Create: ids are unique and never reused within one session only; across a reload the counter is recomputed from the ids that are left.
- `String.prototype.trim` is modelled with the ECMAScript white-space and line-terminator characters listed in `Demands.IsSpace`. Unicode categories are not computed.
