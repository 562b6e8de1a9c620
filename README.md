# Appointment slots, availability and conflict checks of dental-frontend

This project models the scheduling logic of the dental clinic front end and proves properties of it in Dafny.

- **`time.dfy` (module `Time`)** models `src/utils/time.js`.
  - `generateTimeSlots` walks a clock from a start time to an end time in fixed minute steps. It emits `HH:MM:00` values with `H:MM AM/PM` labels and appends a midnight slot when the end is the text `24:00`. The model is the method `GenerateTimeSlots`. Its loop is `WalkClock`, proved against the function `Slots`.
  - `formatTimeLabel` is the function `FormatTimeLabel`.
- **`dashboard.dfy` (module `Dashboard`)** models `src/pages/Dashboard.js`.
  - The busy ranges of the chosen dentist and day, excluding the edited appointment.
  - The start-time and end-time dropdown filters, which use the half-open overlap test.
  - The ordered, short-circuiting checks of `handleModalSubmit`.
  - The reschedule tag (`status_id` 3) of an edit.
  - The paging of the appointment list.
  - The modal's state as the class `AppointmentModal`. Its handlers and effects are methods; the create and update requests are recorded in `calls`.
- **`dentist.dfy` (module `Dentists`)** models `src/pages/Dentist.js`.
  - The 48 half-hour working-hours options and the end-time filter.
  - `requestSort` and the table sort. The sort is an in-place insertion sort of an array copy, proved sorted by the page's comparator and a permutation of the input.
  - The required-field check of `handleSubmit`, in the class `DentistsPage`.
- **`js_text.dfy` and `js_array.dfy`** model the JavaScript primitives the code relies on.
  - JavaScript's string `<` (`Less`), proved to be a strict total order.
  - `String(n)`, `split`, `Number` and `parseInt` on decimal text.
  - `Array.prototype.filter`, `map`, `find` and `slice`.
- **`wrappers.dfy`** holds `Option`, the `Outcome` of a request and the `err.response?.data?.message || fallback` error text.

Times and dates stay text, as in the source, and are compared with `Less`. The lemmas `Time.ValueOrder` and `Time.ValueBeforeClock` show two things about generated `HH:MM:00` values:
- between themselves, text order is minute order;
- against an `HH:MM` clock text, a value is below it exactly when its minute is earlier (at the same minute the value is not below).

The wall clock enters as parameters:
- `today`, the local date as `YYYY-MM-DD`;
- `utcToday`, the UTC date the start filter compares with;
- `now`, the time as `HH:MM`.

A request's result enters as an `Outcome`: `Saved`, or `Failed` with the server's message.

## Model

| member | source | states |
|---|---|---|
| Time.GenerateTimeSlots | src/utils/time.js:1-29 | returns exactly `Slots(start, end, interval)`: one slot per clock step from `start` while the clock is not later than `end`, then the midnight slot when `end` is `24:00` |
| Time.WalkClock | src/utils/time.js:6-22 | the loop yields the slot of every clock time in `Steps(start, end, interval)`, in order |
| Time.Tick | src/utils/time.js:17-21 | one step keeps the minute below 60 and advances the time by exactly `interval` minutes |
| Time.ClockOrder | src/utils/time.js:10 | the hour-then-minute loop test is "not later than `end`" in minutes since midnight |
| Time.Hour12 | src/utils/time.js:12 | the 12-hour face reads 1 to 12, and reads 12 exactly for hours 0 and 12 |
| Time.SlotsShape | src/utils/time.js:1-29 | `floor((end - start) / interval) + 1` loop slots (0 when start is later), the k-th at `start + k * interval` minutes and never later than `end`, then the midnight slot exactly for `24:00` |
| Time.Steps | src/utils/time.js:7-22 | the clock walk begins at the start time and is empty exactly when the start is later than the end |
| Time.Slots | src/utils/time.js:7-26 | when the start is not later than the end the first slot is the start time itself; for `24:00` the last slot is the midnight slot |
| Time.EmptyWhenStartAfterEnd | src/utils/time.js:10-26 | a start later than the end yields no loop slot, only the midnight slot for `24:00` |
| Time.MidnightOnlyForSentinel | src/utils/time.js:24-26 | the last slot is `{00:00, 00:00}` exactly when `end` is the text `24:00` |
| Time.SlotOfNotMidnight | src/utils/time.js:11-25 | no generated slot equals the midnight slot |
| Time.SlotsAscending | src/utils/time.js:10-22 | loop slot values are strictly ascending as text, hence distinct |
| Time.WindowEnds | src/utils/time.js:10 | for a whole number of intervals the last slot is `end` itself: the end bound is inclusive |
| Time.ValueOrder | src/utils/time.js:2-11 | `HH:MM:00` values compare as text exactly as their times compare in minutes |
| Time.ValueBeforeClock | src/pages/Dashboard.js:117 | a slot value is below an `HH:MM` clock text exactly when its minute is earlier |
| Time.ParseValueText | src/utils/time.js:3-11 | a slot value read back as a window bound gives the clock it was made from |
| Time.ParseClockText | src/utils/time.js:3-4 | an `HH:MM` text is read as its hour and minute |
| Time.FormatTimeLabel | src/utils/time.js:31-40 | the empty text gives the empty text; any other text gives a label ending in ` AM` or ` PM` |
| Time.FormatTimeLabelOfSlot | src/utils/time.js:31-40 | `formatTimeLabel` of a slot value is the label the generator gave that slot |
| Time.FormatTimeLabelOfClock | src/utils/time.js:31-40 | `formatTimeLabel` of `HH:MM` is `H:MM AM/PM` with 0 and 12 shown as 12 and PM from hour 12 |
| Time.FormatTimeLabelOfText | src/utils/time.js:31-40 | for any text made of an hour numeral, `:`, a minute field without `:` and an optional `:`-led rest, the label is the 12-hour numeral of the hour, `:`, the minute field exactly as given, a space and `AM` before hour 12 or `PM` from it |
| Time.UnpaddedMinute | src/utils/time.js:31-40 | an unpadded minute is shown as given: `13:5` gives `1:5 PM` |
| Time.FormatTimeLabelExamples | src/utils/time.js:31-40 | `00:30` gives `12:30 AM`, `13:05` gives `1:05 PM`, `13:5` gives `1:5 PM`, and the empty text gives the empty text |
| Time.DefaultSlots | src/utils/time.js:1 | the default window 09:00 to 17:00 every 30 minutes has 17 slots, from `9:00 AM` to `5:00 PM` |
| Time.SingleSlot | src/utils/time.js:7-26 | a window whose start equals its end yields exactly the start's slot, followed by the midnight slot for `24:00` |
| Dentists.ComputeTimeOptions | src/pages/Dentist.js:100 | computes `TimeOptions()` with the generator |
| Dentists.TimeOptionsShape | src/pages/Dentist.js:100 | 48 strictly ascending options, from `00:00:00` / `12:00 AM` to `23:30:00` / `11:30 PM` |
| Dentists.AvailableEndTimes | src/pages/Dentist.js:101-104 | every option when no start is set; otherwise an order-preserving subsequence holding exactly the options above the start |
| Dentists.EndTimesAfterStart | src/pages/Dentist.js:101-104 | with ascending options, starting at option i leaves exactly the options after i |
| Dentists.EndTimesAfterOption | src/pages/Dentist.js:100-104 | on the page's options, start option i leaves the `47 - i` later options |
| Dentists.NextSort | src/pages/Dentist.js:118-124 | the new key is the clicked key, and the direction is desc exactly when that key was already sorted ascending |
| Dentists.NextSortToggles | src/pages/Dentist.js:118-124 | clicking the same column flips the direction every time; a new column starts ascending |
| Dentists.DentistsPage.RequestSort | src/pages/Dentist.js:118-124 | sets `sortConfig` to `NextSort` of the old one and changes nothing else |
| Dentists.Compare | src/pages/Dentist.js:128-134 | the comparator returns -1, 0 or 1 |
| Dentists.CompareOrder | src/pages/Dentist.js:129-133 | ascending: at most 0 exactly when the later key is not below the earlier; descending: the reverse; 0 exactly when the keys (missing read as `""`) are equal |
| Dentists.CompareAntisymmetric | src/pages/Dentist.js:131-133 | swapping the arguments negates the comparator |
| Dentists.CompareTransitive | src/pages/Dentist.js:128-134 | the comparator is a total preorder, so sorting by it is well defined |
| Dentists.CompareDescending | src/pages/Dentist.js:131-132 | descending comparison is ascending comparison with the arguments swapped |
| Dentists.DescendingIsReversedAscending | src/pages/Dentist.js:131-132 | a list is sorted descending exactly when its reversal is sorted ascending |
| Dentists.Insert | src/pages/Dentist.js:128 | sinking one entry extends the sorted prefix by one, leaves the entries after it unchanged and keeps the array's contents |
| Dentists.SortInPlace | src/pages/Dentist.js:128 | the array ends sorted by the comparator and is a permutation of its old contents |
| Dentists.SortedDentists | src/pages/Dentist.js:126-136 | the copy is a permutation of the list, non-decreasing by key ascending and non-increasing descending |
| Dentists.DentistsPage.SortedView | src/pages/Dentist.js:126-136 | the table shows a permutation of the page's list in the current order; the list is not modified |
| Dentists.FormOf | src/pages/Dentist.js:43-49 | editing fills every field (name, email, specialization and working hours) from the record |
| Dentists.SaveCall | src/pages/Dentist.js:67-73 | an update of the edited record's id, or a create, carrying the form |
| Dentists.DentistsPage.constructor | src/pages/Dentist.js:9-23 | empty form, no error, sorted by name ascending |
| Dentists.DentistsPage.OpenForm | src/pages/Dentist.js:41-57 | the record's fields or an empty form, the error cleared, the form shown |
| Dentists.DentistsPage.HandleSubmit | src/pages/Dentist.js:60-84 | a missing name, start or end sets `Fill all required fields` and sends nothing; otherwise one request; success resets with the added/updated message; failure shows the server message or `Failed to save dentist` |
| Wrappers.FailureText | src/pages/Dashboard.js:199 | the server's message when it has one, the fallback otherwise |
| Dashboard.BusyIntervals | src/pages/Dashboard.js:78 | at most one busy range per fetched appointment; with no appointment being edited, the ranges of all of them in order |
| Dashboard.BusyIntervalsMembers | src/pages/Dashboard.js:73-83 | a range is busy exactly when a fetched appointment other than the edited one books it |
| Dashboard.SelectedDentist | src/pages/Dashboard.js:102-105 | the first dentist whose id equals `Number(dentist_id)`; none exactly when no id matches |
| Dashboard.TimeSlotsFor | src/pages/Dashboard.js:106-112 | no slots when no dentist is selected; otherwise, when the working hours are in order, the first slot is the opening time (`09:00` when none is recorded) |
| Dashboard.TimeSlotsForShape | src/pages/Dashboard.js:106-112 | for the selected dentist the slots run from the opening time (`09:00` when none is recorded) in 30-minute steps, the k-th at opening + 30k minutes and none later than the closing time (`17:00` when none is recorded), one per step, then the midnight slot exactly when the closing time is `24:00` |
| Dashboard.DefaultHoursSlots | src/pages/Dashboard.js:106-112 | a dentist without recorded hours is offered 17 slots from `9:00 AM` to `5:00 PM` |
| Dashboard.AvailableTimeFrom | src/pages/Dashboard.js:114-120 | empty until date and dentist are set; then an order-preserving subsequence of the slots holding exactly those not earlier than now on the (UTC) current day and inside no busy range |
| Dashboard.AvailableTimeTo | src/pages/Dashboard.js:122-127 | empty until a start is set; then an order-preserving subsequence holding exactly the slots after the start whose range from the start overlaps no busy range |
| Dashboard.Inside | src/pages/Dashboard.js:118 | a time lies inside a busy range only when that range is not empty |
| Dashboard.Overlaps | src/pages/Dashboard.js:168 | the overlap test of the submit (also the end filter of line 125): a non-empty range that starts inside a busy range overlaps it, so the start filter and the conflict check agree |
| Dashboard.InsideIsMinuteInside | src/pages/Dashboard.js:118 | on slot values, "inside a busy range" is `start <= minute < end` |
| Dashboard.OverlapIsMinuteOrder | src/pages/Dashboard.js:125 | on slot values, the overlap test is `from < end and start < to` in minutes |
| Dashboard.OverlapIsSharedMinute | src/pages/Dashboard.js:168 | for non-empty ranges of slot values, the overlap test holds exactly when the ranges share a minute |
| Dashboard.Validate | src/pages/Dashboard.js:136-172 | no check fails exactly when the result is none; otherwise the result fails and every earlier check passes |
| Dashboard.MissingFieldsFirst | src/pages/Dashboard.js:139-143 | an empty field is reported first, whatever else holds |
| Dashboard.DropdownChoiceAccepted | src/pages/Dashboard.js:114-172 | a start and an end taken from the two dropdowns pass every submit check, for a date not in the past and one reading of the clock |
| Dashboard.TouchingRangesDoNotOverlap | src/pages/Dashboard.js:168 | ranges that only touch do not overlap |
| Dashboard.BackToBackAccepted | src/pages/Dashboard.js:167-172 | `09:00`-`10:00` does not conflict with a booked `10:00`-`11:00` |
| Dashboard.IdenticalRangeConflicts | src/pages/Dashboard.js:167-172 | booking exactly a booked non-empty range is refused as a conflict once the earlier checks pass |
| Dashboard.DateTextOrder | src/pages/Dashboard.js:30-34 | `YYYY-MM-DD` texts compare as their calendar dates |
| Dashboard.PastDateIsEarlierDay | src/pages/Dashboard.js:145-152 | the modelled past-date check refuses exactly the calendar days before today's local date |
| Dashboard.PastDateAsWritten | src/pages/Dashboard.js:146-149 | as written, for offsets under a day: at UTC and east of it exactly the earlier days are refused; west of UTC today is refused too |
| Dashboard.TodayRefusedWestOfUtc | src/pages/Dashboard.js:146-149 | as written, at UTC-5 today's own date is refused |
| Dashboard.UtcDateFilterOffersPastStart | src/pages/Dashboard.js:114-159 | a start offered while the UTC date differs from the local one can be refused by the submit |
| Dashboard.FormOf | src/pages/Dashboard.js:85-94 | the form filled from an appointment reads back as it: the dentist field gives the appointment's dentist id under `Number` (`""` for 0), and date and times are copied |
| Dashboard.IsChanged | src/pages/Dashboard.js:177-181 | the form filled from an appointment is never counted as changed |
| Dashboard.SaveCall | src/pages/Dashboard.js:174-190 | an update of the edited appointment, or a create, carrying the form; tagged `status_id` 3 exactly when something changed and untagged exactly when nothing did |
| Dashboard.UntouchedEditKeepsStatus | src/pages/Dashboard.js:85-185 | reopening an appointment and saving it untouched sends no status |
| Dashboard.PageItems | src/pages/Dashboard.js:214-216 | a page holds at most 5 appointments |
| Dashboard.TotalPages | src/pages/Dashboard.js:217 | the fewest pages of 5 that hold all items, i.e. `ceil(n / 5)` |
| Dashboard.PageContents | src/pages/Dashboard.js:214-217 | each page from 1 to the last is the non-empty run of up to 5 items from `(page - 1) * 5`; later pages are empty |
| Dashboard.PagesCoverList | src/pages/Dashboard.js:214-217 | the pages laid end to end are the whole list, in order |
| Dashboard.ItemOnPage | src/pages/Dashboard.js:214-216 | item i is on page `i / 5 + 1` at position `i % 5` |
| Dashboard.AppointmentModal.constructor | src/pages/Dashboard.js:16-25 | modal hidden, nothing edited, empty form, no busy ranges and no messages |
| Dashboard.AppointmentModal.ClearForm | src/pages/Dashboard.js:130-134 | forgets the edited appointment and empties the form and the error |
| Dashboard.AppointmentModal.OpenNew | src/pages/Dashboard.js:228 | shows the modal on a cleared form |
| Dashboard.AppointmentModal.OpenEdit | src/pages/Dashboard.js:284-287 | shows the modal and clears the error; the form is filled from the appointment when it differs from the one already being edited (the effect at lines 85-94 runs only on a change) and kept otherwise |
| Dashboard.AppointmentModal.Close | src/pages/Dashboard.js:355 | hides the modal and keeps the form |
| Dashboard.AppointmentModal.ChooseDentist | src/pages/Dashboard.js:366 | sets the dentist field only |
| Dashboard.AppointmentModal.ChooseDate | src/pages/Dashboard.js:382 | sets the date field only |
| Dashboard.AppointmentModal.ChooseTimeFrom | src/pages/Dashboard.js:391 | sets the start and clears the end, so the range is never inverted |
| Dashboard.AppointmentModal.ChooseTimeTo | src/pages/Dashboard.js:402 | sets the end field only |
| Dashboard.AppointmentModal.LoadBusy | src/pages/Dashboard.js:73-83 | no busy ranges until dentist and date are set; then the fetched appointments other than the edited one; a failed fetch keeps the old ranges |
| Dashboard.AppointmentModal.ResetInvertedRange | src/pages/Dashboard.js:96-100 | clears both times exactly when the start is not before the end, leaving a range in order |
| Dashboard.AppointmentModal.HandleModalSubmit | src/pages/Dashboard.js:136-201 | the first failing check sets its message and sends nothing; a valid form sends `SaveCall`; success closes and resets with `Appointment saved successfully!`; failure shows the server message or `Failed to save appointment` |

## Findings

| source | as written | input that shows it | evidently intended | confidence | as-written member | corrected member |
|---|---|---|---|---|---|---|
| src/pages/Dashboard.js:146-149 | `new Date('YYYY-MM-DD')` is midnight UTC, but it is compared with midnight local time | any date equal to today, in a time zone west of UTC (e.g. UTC-5): refused as "Cannot select a past date." | refuse exactly the dates before today's local date | high (ECMAScript reads date-only text as UTC); not executed | Dashboard.PastDateAsWritten, Dashboard.TodayRefusedWestOfUtc | Dashboard.PastDateIsEarlierDay |
| src/pages/Dashboard.js:117 | the start list hides past times only when the date equals the UTC date, while the submit checks the local date (line 156) | at 01:00 local time on 2024-05-02 in UTC+2 (UTC date 2024-05-01), the slot 00:30 is offered and then refused as "Start time cannot be in the past." | the start list and the submit check agree on what today is | medium (behaviour only within the hours between local and UTC midnight); not executed | Dashboard.UtcDateFilterOffersPastStart | Dashboard.DropdownChoiceAccepted |

The rest of the model uses the corrected checks:
- `Dashboard.Validate` compares the date text with today's local date text;
- `Dashboard.DropdownChoiceAccepted` takes the UTC date and the local date to be the same day.

## Left out

- HTTP requests are left out: `fetchAppointments`, `fetchAppointmentsByDentist`, `createAppointment`, `updateAppointment`, `createDentist`, `updateDentist` and the delete handlers.
  - Requests are recorded in `calls`.
  - A request's result is an `Outcome` parameter.
  - The fetched busy list is a parameter of `LoadBusy`.
  - Reloading lists after a save, 401 redirects and the `setTimeout` that clears success messages are not modelled.
- React effects and memos are not triggered automatically. The effects are methods a caller invokes (`LoadBusy`, `ResetInvertedRange`, the form fill inside `OpenEdit`), and the memos are functions of their inputs.
- Rendering is left out: the tables, the modals and the confirm dialogs.
- The search filter of the appointment list (src/pages/Dashboard.js:203-212) is left out: it depends on Unicode `toLowerCase`. Paging is modelled on any list.
- `formatDate` is left out: it is locale formatting by `toLocaleDateString`.
- The wall clock is left out: `today`, `utcToday` and `now` are parameters. The page memoizes `now` once (line 37) while the submit reads a fresh time (line 155), so a page left open can offer starts the submit then refuses. The model passes one `now` to both.
- Dashboard.Validate: the past-date check is the corrected comparison of date texts. The UTC-midnight reading of the source is modelled separately, on day numbers, in `PastDateAsWritten`.
- Time.GenerateTimeSlots requires well-formed times (numeric hour and minute, minute below 60) and `0 < interval <= 60`. Malformed text makes the source compute with `NaN`, and a `NaN` start minute never ends the loop. Intervals above 60 carry only one hour per step.
- Dashboard.TimeSlotsFor requires every dentist's working hours to be well formed, for the same reason.
- Time.SlotsAscending is stated for end hours below 100: `pad` leaves three-digit hours unpadded, and text order then differs from time order.
- JsText.NumberOf reads only plain decimal digits (`""` is 0). Whitespace, signs, exponents and hexadecimal forms of `Number` and `parseInt` are not modelled. Dentist and appointment ids are natural numbers.
- Dentists.SortInPlace does not state stability, though the insertion sort is stable, as `Array.prototype.sort` is.
- Dentists.SortedDentists orders the keys by code point: `Less` compares Dafny `char`s, which are Unicode scalar values, while JavaScript's `<` compares UTF-16 code units. The two orders differ only between a character above U+FFFF and one from U+E000 to U+FFFF (an emoji against U+FFFD, say). The same holds for every other use of `Less`.
- Dashboard.AppointmentModal.OpenEdit: React reruns the form-fill effect when the edited object changes identity. The model compares appointments by value, so reopening a reloaded but identical record keeps the form, where the source would refill it.
- A `null` field of a record is the empty text, which `|| ''` and the falsiness tests treat alike.
