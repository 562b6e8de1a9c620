/** The appointments dashboard (`src/pages/Dashboard.js`): the busy intervals of the chosen
    dentist on the chosen day, the start and end time dropdowns they filter, the ordered checks
    of the scheduling form's submit handler with the reschedule tag of an edit, and the paging
    of the appointment list.

    Times, dates and the dentist field are text, as on the page, and are compared with
    JavaScript's string `<` (`Less`). The wall clock enters as parameters: `today` is the local
    date as `YYYY-MM-DD`, `utcToday` the UTC date the start filter compares with, and `now` the
    current time as `HH:MM`. */
module Dashboard {

  import opened Wrappers
  import opened JsText
  import opened JsArray
  import opened Time
  import Dentists

  /** An appointment as the REST API returns it; a missing (`null`) text field is `""`. */
  datatype Appointment = Appointment(
    id: nat,
    dentistId: nat,
    date: string,
    timeFrom: string,
    timeTo: string)

  /** `[a.timeFrom, a.timeTo]`: a booked range of another appointment. */
  datatype Interval = Interval(start: string, end: string)

  /** The scheduling form; every field is text and `""` when unset. */
  datatype FormData = FormData(dentistId: string, date: string, timeFrom: string, timeTo: string)

  const EMPTY_FORM: FormData := FormData("", "", "", "")

  /** The `status_id` of a rescheduled appointment. */
  const RESCHEDULED: nat := 3

  const ITEMS_PER_PAGE: nat := 5

  const SAVE_FAILED: string := "Failed to save appointment"
  const SAVED: string := "Appointment saved successfully!"

  /** A request the form sends: a create, or an update that may carry a new `status_id`. */
  datatype ApiCall =
    | Create(data: FormData)
    | Update(id: nat, data: FormData, statusId: Option<nat>)

  // ---------------------------------------------------------------------------
  // Busy intervals
  // ---------------------------------------------------------------------------

  function IntervalOf(a: Appointment): Interval {
    Interval(a.timeFrom, a.timeTo)
  }

  /** The booked ranges that block the form: every appointment fetched for the dentist and
      day except the one being edited, as `[timeFrom, timeTo]`. */
  function BusyIntervals(data: seq<Appointment>, editAppt: Option<Appointment>): (r: seq<Interval>)
    ensures |r| <= |data|
    ensures editAppt.None? ==> r == Map(data, IntervalOf)
  {
    var keep := (a: Appointment) => editAppt.None? || a.id != editAppt.value.id;
    FilterLength(data, keep);
    var kept := Filter(data, keep);
    assert editAppt.None? ==> kept == data by {
      if editAppt.None? {
        FilterAll(data, keep);
      }
    }
    Map(kept, IntervalOf)
  }

  /** A range is busy exactly when some other fetched appointment books it; the edited
      appointment never blocks itself. */
  lemma BusyIntervalsMembers(data: seq<Appointment>, editAppt: Option<Appointment>, iv: Interval)
    ensures iv in BusyIntervals(data, editAppt) <==>
              exists a :: a in data && (editAppt.None? || a.id != editAppt.value.id) && IntervalOf(a) == iv
  {
    var keep := (a: Appointment) => editAppt.None? || a.id != editAppt.value.id;
    FilterSpec(data, keep);
    MapMembership(Filter(data, keep), IntervalOf, iv);
  }

  // ---------------------------------------------------------------------------
  // The time dropdowns
  // ---------------------------------------------------------------------------

  /** `t.value >= start && t.value < end`: the time lies in the half-open range, which is
      then not empty. */
  predicate Inside(v: string, iv: Interval)
    ensures Inside(v, iv) ==> Less(iv.start, iv.end)
  {
    AtMostThenLess(iv.start, v, iv.end);
    !Less(v, iv.start) && Less(v, iv.end)
  }

  /** `timeFrom < end && timeTo > start`: the half-open ranges `[timeFrom, timeTo)` and
      `[start, end)` overlap. A non-empty range that starts inside a busy range overlaps it,
      so the start filter and the conflict check agree. */
  predicate Overlaps(timeFrom: string, timeTo: string, iv: Interval)
    ensures Inside(timeFrom, iv) && Less(timeFrom, timeTo) ==> Overlaps(timeFrom, timeTo, iv)
  {
    AtMostThenLess(iv.start, timeFrom, timeTo);
    Less(timeFrom, iv.end) && Less(iv.start, timeTo)
  }

  /** `busy.some(...)` with `Inside`. */
  predicate InsideAny(v: string, busy: seq<Interval>) {
    exists iv :: iv in busy && Inside(v, iv)
  }

  /** `busy.some(...)` with `Overlaps`. */
  predicate Conflicts(timeFrom: string, timeTo: string, busy: seq<Interval>) {
    exists iv :: iv in busy && Overlaps(timeFrom, timeTo, iv)
  }

  /** The working hours the slots are generated for: the dentist's, else 09:00 to 17:00. */
  function HoursStart(d: Dentists.Dentist): string {
    if d.availableStart == "" then DEFAULT_START else d.availableStart
  }

  function HoursEnd(d: Dentists.Dentist): string {
    if d.availableEnd == "" then DEFAULT_END else d.availableEnd
  }

  predicate HoursReadable(d: Dentists.Dentist) {
    WellFormed(HoursStart(d)) && WellFormed(HoursEnd(d))
  }

  /** `dentists.find(d => d.id === Number(formData.dentist_id))`. */
  function SelectedDentist(dentists: seq<Dentists.Dentist>, dentistId: string): (r: Option<Dentists.Dentist>)
    ensures r.Some? ==> r.value in dentists && NumberOf(dentistId) == Some(r.value.id)
    ensures r.Some? ==> exists k :: 0 <= k < |dentists| && dentists[k] == r.value
                                    && forall j :: 0 <= j < k ==> NumberOf(dentistId) != Some(dentists[j].id)
    ensures r.None? <==> forall j :: 0 <= j < |dentists| ==> NumberOf(dentistId) != Some(dentists[j].id)
  {
    Find(dentists, (d: Dentists.Dentist) => NumberOf(dentistId) == Some(d.id))
  }

  /** `timeSlots`: half-hour slots over the selected dentist's working hours, none when no
      dentist matches. */
  function TimeSlotsFor(dentists: seq<Dentists.Dentist>, dentistId: string): (r: seq<Slot>)
    requires forall d :: d in dentists ==> HoursReadable(d)
    ensures match SelectedDentist(dentists, dentistId)
            case None => r == []
            case Some(d) =>
              && d in dentists && HoursReadable(d)
              && (MinutesOf(HoursStart(d)) <= MinutesOf(HoursEnd(d)) ==>
                    r != [] && r[0] == SlotOf(ParseClock(HoursStart(d)).value))
  {
    match SelectedDentist(dentists, dentistId)
    case None => []
    case Some(d) =>
      assert HoursReadable(d);
      Slots(HoursStart(d), HoursEnd(d), DEFAULT_INTERVAL)
  }

  /** The selected dentist's slots: the working hours default to `09:00` and `17:00`; slot `k`
      is `30 * k` minutes after the opening time and none is after the closing time; the midnight
      slot follows only for the closing text `24:00`. */
  lemma TimeSlotsForShape(dentists: seq<Dentists.Dentist>, dentistId: string)
    requires forall d :: d in dentists ==> HoursReadable(d)
    requires SelectedDentist(dentists, dentistId).Some?
    ensures var d := SelectedDentist(dentists, dentistId).value;
            && HoursStart(d) == (if d.availableStart == "" then DEFAULT_START else d.availableStart)
            && HoursEnd(d) == (if d.availableEnd == "" then DEFAULT_END else d.availableEnd)
            && HoursReadable(d)
            && var open, close := ParseClock(HoursStart(d)).value, ParseClock(HoursEnd(d)).value;
               var steps := Steps(open, close, DEFAULT_INTERVAL);
               var r := TimeSlotsFor(dentists, dentistId);
               && |steps| == (if Minutes(open) > Minutes(close) then 0
                              else (Minutes(close) - Minutes(open)) / DEFAULT_INTERVAL + 1)
               && |r| == |steps| + (if HoursEnd(d) == MIDNIGHT_SENTINEL then 1 else 0)
               && (forall k :: 0 <= k < |steps| ==>
                     && r[k] == SlotOf(steps[k])
                     && Minutes(steps[k]) == Minutes(open) + k * DEFAULT_INTERVAL <= Minutes(close))
               && (HoursEnd(d) == MIDNIGHT_SENTINEL ==> r[|steps|] == MIDNIGHT_SLOT)
  {
    var d := SelectedDentist(dentists, dentistId).value;
    assert HoursReadable(d);
    SlotsShape(HoursStart(d), HoursEnd(d), DEFAULT_INTERVAL);
  }

  /** A dentist with no working hours on record is offered the default day: 17 slots from
      `9:00 AM` to `5:00 PM`. */
  lemma DefaultHoursSlots(dentists: seq<Dentists.Dentist>, dentistId: string)
    requires forall d :: d in dentists ==> HoursReadable(d)
    requires SelectedDentist(dentists, dentistId).Some?
    requires SelectedDentist(dentists, dentistId).value.availableStart == ""
    requires SelectedDentist(dentists, dentistId).value.availableEnd == ""
    ensures var r := TimeSlotsFor(dentists, dentistId);
            && |r| == 17
            && r[0] == Slot("09:00:00", "9:00 AM")
            && r[16] == Slot("17:00:00", "5:00 PM")
  {
    DefaultSlots();
  }

  /** The test of the start dropdown: not before now when the date is today (UTC), and not
      inside a busy range. */
  predicate StartAllowed(t: Slot, busy: seq<Interval>, date: string, utcToday: string, now: string) {
    !(date == utcToday && Less(t.value, now)) && !InsideAny(t.value, busy)
  }

  /** `availableTimeFrom`: nothing until a date and a dentist are chosen; then the slots, in
      order, that pass `StartAllowed`. */
  function AvailableTimeFrom(slots: seq<Slot>, busy: seq<Interval>, form: FormData, utcToday: string, now: string)
    : (r: seq<Slot>)
    ensures form.date == "" || form.dentistId == "" ==> r == []
    ensures IsSubsequence(r, slots)
    ensures form.date != "" && form.dentistId != "" ==>
              forall t :: t in r <==> t in slots && StartAllowed(t, busy, form.date, utcToday, now)
  {
    if form.date == "" || form.dentistId == "" then
      EmptySubsequence(slots);
      []
    else
      var allowed := (t: Slot) => StartAllowed(t, busy, form.date, utcToday, now);
      FilterSpec(slots, allowed);
      Filter(slots, allowed)
  }

  /** `availableTimeTo`: nothing until a start is chosen; then the slots, in order, after the
      start whose range from the start overlaps no busy range. */
  function AvailableTimeTo(slots: seq<Slot>, busy: seq<Interval>, timeFrom: string): (r: seq<Slot>)
    ensures timeFrom == "" ==> r == []
    ensures IsSubsequence(r, slots)
    ensures timeFrom != "" ==>
              forall t :: t in r <==> t in slots && Less(timeFrom, t.value) && !Conflicts(timeFrom, t.value, busy)
  {
    if timeFrom == "" then
      EmptySubsequence(slots);
      []
    else
      var allowed := (t: Slot) => Less(timeFrom, t.value) && !Conflicts(timeFrom, t.value, busy);
      FilterSpec(slots, allowed);
      Filter(slots, allowed)
  }

  // ---------------------------------------------------------------------------
  // The submit checks
  // ---------------------------------------------------------------------------

  /** The checks of `handleModalSubmit`, in the order they run. */
  datatype Check = MissingFields | PastDate | PastStart | EmptyRange | Conflict

  function Rank(c: Check): nat {
    match c
    case MissingFields => 0
    case PastDate => 1
    case PastStart => 2
    case EmptyRange => 3
    case Conflict => 4
  }

  /** The error each check shows when it fails. */
  function Message(c: Check): string {
    match c
    case MissingFields => "Please fill in all fields."
    case PastDate => "Cannot select a past date."
    case PastStart => "Start time cannot be in the past."
    case EmptyRange => "End time must be later than start time."
    case Conflict => "Selected time conflicts with an existing appointment."
  }

  /** The form passes check `c`. */
  predicate Passes(c: Check, form: FormData, busy: seq<Interval>, today: string, now: string) {
    match c
    case MissingFields => form.dentistId != "" && form.date != "" && form.timeFrom != "" && form.timeTo != ""
    case PastDate => !Less(form.date, today)
    case PastStart => !(form.date == today && Less(form.timeFrom, now))
    case EmptyRange => Less(form.timeFrom, form.timeTo)
    case Conflict => !Conflicts(form.timeFrom, form.timeTo, busy)
  }

  /** The check `handleModalSubmit` stops at: the first that fails, in the order of `Rank`;
      `None` when the form passes them all. */
  function Validate(form: FormData, busy: seq<Interval>, today: string, now: string): (r: Option<Check>)
    ensures r.None? <==> forall c :: Passes(c, form, busy, today, now)
    ensures r.Some? ==> !Passes(r.value, form, busy, today, now)
    ensures r.Some? ==> forall c :: Rank(c) < Rank(r.value) ==> Passes(c, form, busy, today, now)
  {
    if form.dentistId == "" || form.date == "" || form.timeFrom == "" || form.timeTo == "" then
      assert !Passes(MissingFields, form, busy, today, now);
      Some(MissingFields)
    else if Less(form.date, today) then
      assert !Passes(PastDate, form, busy, today, now);
      Some(PastDate)
    else if form.date == today && Less(form.timeFrom, now) then
      assert !Passes(PastStart, form, busy, today, now);
      Some(PastStart)
    else if !Less(form.timeFrom, form.timeTo) then
      assert !Passes(EmptyRange, form, busy, today, now);
      Some(EmptyRange)
    else if Conflicts(form.timeFrom, form.timeTo, busy) then
      assert !Passes(Conflict, form, busy, today, now);
      Some(Conflict)
    else
      None
  }

  /** A start and an end picked from the two dropdowns pass every check, provided the date is
      not in the past and the clock reads the same day and time for the dropdowns and for the
      submit: the end dropdown and the conflict check use one and the same overlap test. */
  lemma DropdownChoiceAccepted(slots: seq<Slot>, busy: seq<Interval>, form: FormData, today: string, now: string)
    requires form.dentistId != "" && form.date != "" && !Less(form.date, today)
    requires exists t :: t in AvailableTimeFrom(slots, busy, form, today, now) && t.value == form.timeFrom
    requires exists t :: t in AvailableTimeTo(slots, busy, form.timeFrom) && t.value == form.timeTo
    ensures Validate(form, busy, today, now) == None
  {
    var from :| from in AvailableTimeFrom(slots, busy, form, today, now) && from.value == form.timeFrom;
    var to :| to in AvailableTimeTo(slots, busy, form.timeFrom) && to.value == form.timeTo;
    assert form.timeFrom != "";
    assert StartAllowed(from, busy, form.date, today, now);
    assert Less(form.timeFrom, form.timeTo) && !Conflicts(form.timeFrom, form.timeTo, busy);
  }

  /** An empty field is reported first, whatever the other fields, the bookings and the clock. */
  lemma MissingFieldsFirst(form: FormData, busy: seq<Interval>, today: string, now: string)
    requires form.dentistId == "" || form.date == "" || form.timeFrom == "" || form.timeTo == ""
    ensures Validate(form, busy, today, now) == Some(MissingFields)
  {
  }

  /** Ranges that only touch do not conflict: the end of a range is not part of it. */
  lemma TouchingRangesDoNotOverlap(a: string, b: string, c: string)
    ensures !Overlaps(a, b, Interval(b, c))
    ensures !Overlaps(b, c, Interval(a, b))
  {
    LessIrreflexive(b);
  }

  /** `09:00`-`10:00` does not conflict with a booked `10:00`-`11:00`. */
  lemma BackToBackAccepted()
    ensures !Conflicts("09:00:00", "10:00:00", [Interval("10:00:00", "11:00:00")])
  {
    var iv := Interval("10:00:00", "11:00:00");
    TouchingRangesDoNotOverlap("09:00:00", "10:00:00", "11:00:00");
    assert forall x :: x in [iv] ==> x == iv;
  }

  /** Booking exactly a booked range is refused as a conflict once the earlier checks pass. */
  lemma IdenticalRangeConflicts(form: FormData, busy: seq<Interval>, today: string, now: string, iv: Interval)
    requires iv in busy && form.timeFrom == iv.start && form.timeTo == iv.end
    requires Passes(MissingFields, form, busy, today, now) && Passes(PastDate, form, busy, today, now)
    requires Passes(PastStart, form, busy, today, now) && Less(iv.start, iv.end)
    ensures Validate(form, busy, today, now) == Some(Conflict)
  {
    assert Overlaps(form.timeFrom, form.timeTo, iv);
  }

  // ---------------------------------------------------------------------------
  // Past dates
  // ---------------------------------------------------------------------------

  const MINUTES_PER_DAY: int := 1440

  /** A calendar date that prints as `YYYY-MM-DD`. */
  datatype CalendarDate = CalendarDate(year: nat, month: nat, day: nat)

  predicate Printable(d: CalendarDate) {
    d.year < 10000 && d.month < 100 && d.day < 100
  }

  /** The date as the date input and `minDate` write it, `YYYY-MM-DD`. */
  function DateText(d: CalendarDate): string
    requires Printable(d)
  {
    Pad(d.year / 100) + (Pad(d.year % 100) + MonthDayText(d))
  }

  /** The `-MM-DD` tail of a date text. */
  function MonthDayText(d: CalendarDate): string {
    "-" + (Pad(d.month) + ("-" + Pad(d.day)))
  }

  /** Calendar order: year, then month, then day. */
  predicate Before(a: CalendarDate, b: CalendarDate) {
    a.year < b.year || (a.year == b.year && (a.month < b.month || (a.month == b.month && a.day < b.day)))
  }

  lemma YearDigits(x: nat, y: nat)
    requires x < 10000 && y < 10000
    ensures x / 100 < 100 && x % 100 < 100 && y / 100 < 100 && y % 100 < 100
    ensures x < y <==> x / 100 < y / 100 || (x / 100 == y / 100 && x % 100 < y % 100)
    ensures x == y <==> x / 100 == y / 100 && x % 100 == y % 100
  {
  }

  /** `YYYY-MM-DD` texts compare as their dates do. */
  lemma DateTextOrder(a: CalendarDate, b: CalendarDate)
    requires Printable(a) && Printable(b)
    ensures Less(DateText(a), DateText(b)) <==> Before(a, b)
  {
    YearOrder(a, b);
    MonthDayOrder(a, b);
  }

  /** The year digits decide first, then the `-MM-DD` tail. */
  lemma YearOrder(a: CalendarDate, b: CalendarDate)
    requires Printable(a) && Printable(b)
    ensures Less(DateText(a), DateText(b)) <==>
              a.year < b.year || (a.year == b.year && Less(MonthDayText(a), MonthDayText(b)))
  {
    YearDigits(a.year, b.year);
    PadLess(a.year / 100, b.year / 100, Pad(a.year % 100) + MonthDayText(a), Pad(b.year % 100) + MonthDayText(b));
    PadLess(a.year % 100, b.year % 100, MonthDayText(a), MonthDayText(b));
  }

  lemma MonthDayOrder(a: CalendarDate, b: CalendarDate)
    requires Printable(a) && Printable(b)
    ensures Less(MonthDayText(a), MonthDayText(b)) <==>
              a.month < b.month || (a.month == b.month && a.day < b.day)
  {
    LessCons('-', Pad(a.month) + ("-" + Pad(a.day)), '-', Pad(b.month) + ("-" + Pad(b.day)));
    PadLess(a.month, b.month, "-" + Pad(a.day), "-" + Pad(b.day));
    LessCons('-', Pad(a.day), '-', Pad(b.day));
    assert Pad(a.day) == Pad(a.day) + "" && Pad(b.day) == Pad(b.day) + "";
    PadLess(a.day, b.day, "", "");
  }

  /** The past-date check of the model rejects a date exactly when it is an earlier calendar
      day than today's local date, in every time zone. */
  lemma PastDateIsEarlierDay(form: FormData, busy: seq<Interval>, now: string, d: CalendarDate, t: CalendarDate)
    requires Printable(d) && Printable(t) && form.date == DateText(d)
    ensures !Passes(PastDate, form, busy, DateText(t), now) <==> Before(d, t)
  {
    DateTextOrder(d, t);
  }

  /** The past-date check as written: `new Date(formData.date)` reads a `YYYY-MM-DD` text as
      midnight UTC, and it is compared with midnight local time. Days are counted from the
      epoch and `offset` is local time minus UTC, in minutes; both sides are in UTC minutes. */
  /** As written, the check is right at UTC and east of it, but west of UTC it also rejects
      today itself. */
  predicate PastDateAsWritten(dateDay: int, todayDay: int, offset: int)
    ensures -MINUTES_PER_DAY < offset < MINUTES_PER_DAY ==>
              (PastDateAsWritten(dateDay, todayDay, offset) <==>
                 dateDay < todayDay || (offset < 0 && dateDay == todayDay))
  {
    dateDay * MINUTES_PER_DAY < todayDay * MINUTES_PER_DAY - offset
  }

  /** At UTC-5 (New York in winter) today's own date is refused as a past date. */
  lemma TodayRefusedWestOfUtc(day: int)
    ensures PastDateAsWritten(day, day, -300)
  {
  }

  /** The slot `00:30` on a date that is today locally but tomorrow in UTC terms is offered,
      yet submitting it is refused: the start list filters past times against the UTC date,
      the submit check against the local date. */
  lemma UtcDateFilterOffersPastStart()
    ensures var slot := Slot("00:30:00", "12:30 AM");
            var form := FormData("1", "2024-05-02", "00:30:00", "01:00:00");
            && slot in AvailableTimeFrom([slot], [], form, "2024-05-01", "01:00")
            && Validate(form, [], "2024-05-02", "01:00") == Some(PastStart)
  {
    OfferedAfterUtcMidnight();
    RefusedBeforeLocalNow();
  }

  lemma OfferedAfterUtcMidnight()
    ensures var slot := Slot("00:30:00", "12:30 AM");
            slot in AvailableTimeFrom([slot], [], FormData("1", "2024-05-02", "00:30:00", "01:00:00"), "2024-05-01", "01:00")
  {
    var date: string := "2024-05-02";
    assert date != "2024-05-01" by {
      assert date[9] != "2024-05-01"[9];
    }
  }

  lemma RefusedBeforeLocalNow()
    ensures Validate(FormData("1", "2024-05-02", "00:30:00", "01:00:00"), [], "2024-05-02", "01:00") == Some(PastStart)
  {
    var from: string := "00:30:00";
    assert Less(from, "01:00") by {
      assert from == ['0'] + "0:30:00";
      LessCons('0', "0:30:00", '0', "1:00");
    }
    LessIrreflexive("2024-05-02");
  }

  /** `x` is one of the minutes `lo, lo + 1, ..., hi - 1`. */
  predicate InMinutes(x: int, lo: int, hi: int) {
    lo <= x < hi
  }

  /** Two non-empty half-open ranges of minutes share a minute exactly when each starts
      before the other ends. */
  lemma SharedMinute(lo1: int, hi1: int, lo2: int, hi2: int)
    requires lo1 < hi1 && lo2 < hi2
    ensures (lo1 < hi2 && lo2 < hi1) <==> exists x :: InMinutes(x, lo1, hi1) && InMinutes(x, lo2, hi2)
  {
    if lo1 < hi2 && lo2 < hi1 {
      var x := if lo1 < lo2 then lo2 else lo1;
      assert InMinutes(x, lo1, hi1) && InMinutes(x, lo2, hi2);
    }
  }

  /** On generated slot values the overlap test compares minutes. */
  lemma OverlapIsMinuteOrder(a: Clock, b: Clock, c: Clock, d: Clock)
    requires a.h < 100 && a.m < 60 && b.h < 100 && b.m < 60
    requires c.h < 100 && c.m < 60 && d.h < 100 && d.m < 60
    ensures Overlaps(SlotOf(a).value, SlotOf(b).value, Interval(SlotOf(c).value, SlotOf(d).value)) <==>
              Minutes(a) < Minutes(d) && Minutes(c) < Minutes(b)
  {
    ValueOrder(a, d);
    ValueOrder(c, b);
  }

  /** On generated slot values, and for ranges that are not empty, the overlap test means what
      it should: the two ranges share a minute. */
  lemma OverlapIsSharedMinute(a: Clock, b: Clock, c: Clock, d: Clock)
    requires a.h < 100 && a.m < 60 && b.h < 100 && b.m < 60
    requires c.h < 100 && c.m < 60 && d.h < 100 && d.m < 60
    requires Minutes(a) < Minutes(b) && Minutes(c) < Minutes(d)
    ensures Overlaps(SlotOf(a).value, SlotOf(b).value, Interval(SlotOf(c).value, SlotOf(d).value)) <==>
              exists x :: InMinutes(x, Minutes(a), Minutes(b)) && InMinutes(x, Minutes(c), Minutes(d))
  {
    OverlapIsMinuteOrder(a, b, c, d);
    SharedMinute(Minutes(a), Minutes(b), Minutes(c), Minutes(d));
  }

  /** On generated slot values a start is inside a booked range exactly when its minute is. */
  lemma InsideIsMinuteInside(t: Clock, c: Clock, d: Clock)
    requires t.h < 100 && t.m < 60 && c.h < 100 && c.m < 60 && d.h < 100 && d.m < 60
    ensures Inside(SlotOf(t).value, Interval(SlotOf(c).value, SlotOf(d).value)) <==>
              InMinutes(Minutes(t), Minutes(c), Minutes(d))
  {
    ValueOrder(t, c);
    ValueOrder(t, d);
  }

  // ---------------------------------------------------------------------------
  // Saving
  // ---------------------------------------------------------------------------

  /** The form filled from an appointment opened for editing (`editAppt.x || ''`); the
      dentist id is shown as its numeral, and id 0 is falsy and shows as `""`. */
  function FormOf(a: Appointment): (r: FormData)
    ensures NumberOf(r.dentistId) == Some(a.dentistId)
    ensures r.date == a.date && r.timeFrom == a.timeFrom && r.timeTo == a.timeTo
  {
    DigitsValueOfNatText(a.dentistId);
    FormData(if a.dentistId == 0 then "" else NatText(a.dentistId), a.date, a.timeFrom, a.timeTo)
  }

  /** `isChanged`: the dentist (read with `Number`), the date or a time differs from the
      appointment being edited. */
  predicate IsChanged(orig: Appointment, form: FormData)
    ensures form == FormOf(orig) ==> !IsChanged(orig, form)
  {
    || NumberOf(form.dentistId) != Some(orig.dentistId)
    || orig.date != form.date
    || orig.timeFrom != form.timeFrom
    || orig.timeTo != form.timeTo
  }

  /** The request a valid form sends: an update of the edited appointment, tagged rescheduled
      exactly when something changed and untagged otherwise, or a create. */
  function SaveCall(editAppt: Option<Appointment>, form: FormData): (r: ApiCall)
    ensures r.data == form
    ensures r.Update? <==> editAppt.Some?
    ensures r.Update? ==> r.id == editAppt.value.id
    ensures r.Update? ==> (r.statusId == Some(RESCHEDULED) <==> IsChanged(editAppt.value, form))
    ensures r.Update? ==> (r.statusId == None <==> !IsChanged(editAppt.value, form))
  {
    match editAppt
    case None => Create(form)
    case Some(orig) => Update(orig.id, form, if IsChanged(orig, form) then Some(RESCHEDULED) else None)
  }

  /** Re-opening an appointment and saving it untouched keeps its status. */
  lemma UntouchedEditKeepsStatus(a: Appointment)
    ensures !IsChanged(a, FormOf(a))
    ensures SaveCall(Some(a), FormOf(a)).statusId == None
  {
  }

  // ---------------------------------------------------------------------------
  // Paging
  // ---------------------------------------------------------------------------

  /** `filtered.slice((page - 1) * 5, page * 5)`: the appointments shown on page `page`. */
  function PageItems<T>(items: seq<T>, page: nat): (r: seq<T>)
    requires 1 <= page
    ensures |r| <= ITEMS_PER_PAGE
  {
    Slice(items, page * ITEMS_PER_PAGE - ITEMS_PER_PAGE, page * ITEMS_PER_PAGE)
  }

  /** `Math.ceil(n / 5)`: the fewest pages of five that hold `n` items. */
  function TotalPages(n: nat): (r: nat)
    ensures r * ITEMS_PER_PAGE >= n
    ensures r > 0 ==> (r - 1) * ITEMS_PER_PAGE < n
  {
    (n + ITEMS_PER_PAGE - 1) / ITEMS_PER_PAGE
  }

  /** Page `page`, from 1 to the last, holds the items from `(page - 1) * 5` up to five of
      them, and is never empty; pages after the last are empty. */
  lemma PageContents<T>(items: seq<T>, page: nat)
    requires 1 <= page
    ensures page <= TotalPages(|items|) ==>
              var first := (page - 1) * ITEMS_PER_PAGE;
              var last := if page * ITEMS_PER_PAGE < |items| then page * ITEMS_PER_PAGE else |items|;
              first < last && PageItems(items, page) == items[first..last]
    ensures page > TotalPages(|items|) ==> PageItems(items, page) == []
  {
    var n := TotalPages(|items|);
    if page > n {
      assert (page - 1) * ITEMS_PER_PAGE >= n * ITEMS_PER_PAGE;
    }
  }

  /** Pages `1` to `k` laid end to end. */
  function PagesUpTo<T>(items: seq<T>, k: nat): seq<T> {
    if k == 0 then [] else PagesUpTo(items, k - 1) + PageItems(items, k)
  }

  /** The first `k` pages are the first `5 k` items. */
  lemma {:induction false} PagesUpToPrefix<T>(items: seq<T>, k: nat)
    ensures var m := if k * ITEMS_PER_PAGE < |items| then k * ITEMS_PER_PAGE else |items|;
            PagesUpTo(items, k) == items[..m]
  {
    if k > 0 {
      PagesUpToPrefix(items, k - 1);
      var m := if k * ITEMS_PER_PAGE < |items| then k * ITEMS_PER_PAGE else |items|;
      var m' := if (k - 1) * ITEMS_PER_PAGE < |items| then (k - 1) * ITEMS_PER_PAGE else |items|;
      if m' < m {
        assert PageItems(items, k) == items[m'..m];
        assert items[..m'] + items[m'..m] == items[..m];
      } else {
        assert PageItems(items, k) == [];
        assert items[..m'] + [] == items[..m];
      }
    }
  }

  /** The pages together show every appointment exactly once, in order. */
  lemma PagesCoverList<T>(items: seq<T>)
    ensures PagesUpTo(items, TotalPages(|items|)) == items
  {
    PagesUpToPrefix(items, TotalPages(|items|));
    assert items[..|items|] == items;
  }

  /** Item `i` is on page `i / 5 + 1`, at position `i % 5`. */
  lemma ItemOnPage<T>(items: seq<T>, i: nat)
    requires i < |items|
    ensures i % ITEMS_PER_PAGE < |PageItems(items, i / ITEMS_PER_PAGE + 1)|
    ensures PageItems(items, i / ITEMS_PER_PAGE + 1)[i % ITEMS_PER_PAGE] == items[i]
  {
    var page := i / ITEMS_PER_PAGE + 1;
    assert page * ITEMS_PER_PAGE - ITEMS_PER_PAGE == i - i % ITEMS_PER_PAGE;
  }

  // ---------------------------------------------------------------------------
  // The scheduling modal
  // ---------------------------------------------------------------------------

  /** No start at or after the end: what the range-reset effect restores. */
  predicate RangeInOrder(form: FormData) {
    form.timeFrom == "" || form.timeTo == "" || Less(form.timeFrom, form.timeTo)
  }

  /** The state of the scheduling modal that its handlers and effects change. */
  class AppointmentModal {
    var formData: FormData
    var editAppt: Option<Appointment>
    /** `timeFiltered`: the busy ranges of the chosen dentist and day. */
    var busy: seq<Interval>
    var modalError: string
    var successMsg: string
    var showModal: bool
    /** The create and update requests sent so far, oldest first. */
    var calls: seq<ApiCall>

    constructor ()
      ensures formData == EMPTY_FORM && editAppt == None && busy == []
      ensures modalError == "" && successMsg == "" && !showModal && calls == []
    {
      formData := EMPTY_FORM;
      editAppt := None;
      busy := [];
      modalError := "";
      successMsg := "";
      showModal := false;
      calls := [];
    }

    /** `clearForm`: forget the edited appointment, empty the form and the error. */
    method ClearForm()
      modifies this
      ensures editAppt == None && formData == EMPTY_FORM && modalError == ""
      ensures busy == old(busy) && successMsg == old(successMsg)
      ensures showModal == old(showModal) && calls == old(calls)
    {
      editAppt := None;
      formData := EMPTY_FORM;
      modalError := "";
    }

    /** "Schedule Appointment": open the modal on a cleared form. */
    method OpenNew()
      modifies this
      ensures showModal && editAppt == None && formData == EMPTY_FORM && modalError == ""
      ensures busy == old(busy) && successMsg == old(successMsg) && calls == old(calls)
    {
      showModal := true;
      ClearForm();
    }

    /** The edit button: remember the appointment, show the modal and clear the error. The
        effect that fills the form from the appointment runs only when the edited appointment
        changes, so reopening the same one keeps the fields as the user left them. */
    method OpenEdit(appt: Appointment)
      modifies this
      ensures editAppt == Some(appt) && showModal && modalError == ""
      ensures formData == if old(editAppt) == Some(appt) then old(formData) else FormOf(appt)
      ensures busy == old(busy) && successMsg == old(successMsg) && calls == old(calls)
    {
      var changed := editAppt != Some(appt);
      editAppt := Some(appt);
      showModal := true;
      modalError := "";
      if changed {
        formData := FormOf(appt);
      }
    }

    /** Hiding the modal keeps the form as it is. */
    method Close()
      modifies this
      ensures !showModal
      ensures formData == old(formData) && editAppt == old(editAppt) && busy == old(busy)
      ensures modalError == old(modalError) && successMsg == old(successMsg) && calls == old(calls)
    {
      showModal := false;
    }

    method ChooseDentist(value: string)
      modifies this
      ensures formData == old(formData).(dentistId := value)
      ensures editAppt == old(editAppt) && busy == old(busy) && modalError == old(modalError)
      ensures successMsg == old(successMsg) && showModal == old(showModal) && calls == old(calls)
    {
      formData := formData.(dentistId := value);
    }

    method ChooseDate(value: string)
      modifies this
      ensures formData == old(formData).(date := value)
      ensures editAppt == old(editAppt) && busy == old(busy) && modalError == old(modalError)
      ensures successMsg == old(successMsg) && showModal == old(showModal) && calls == old(calls)
    {
      formData := formData.(date := value);
    }

    /** The effect that loads the busy ranges once a dentist and a date are set; `response`
        is the appointments the server returned for them, `None` when the request failed
        (the error is only logged and the ranges stay as they were). */
    method LoadBusy(response: Option<seq<Appointment>>)
      modifies this
      ensures formData.dentistId == "" || formData.date == "" ==> busy == []
      ensures formData.dentistId != "" && formData.date != "" && response.Some? ==>
                busy == BusyIntervals(response.value, editAppt)
      ensures formData.dentistId != "" && formData.date != "" && response.None? ==> busy == old(busy)
      ensures formData == old(formData) && editAppt == old(editAppt) && modalError == old(modalError)
      ensures successMsg == old(successMsg) && showModal == old(showModal) && calls == old(calls)
    {
      if formData.dentistId != "" && formData.date != "" {
        if response.Some? {
          busy := BusyIntervals(response.value, editAppt);
        }
      } else {
        busy := [];
      }
    }

    /** Picking a start time also clears the end time. */
    method ChooseTimeFrom(value: string)
      modifies this
      ensures formData == old(formData).(timeFrom := value, timeTo := "")
      ensures RangeInOrder(formData)
      ensures editAppt == old(editAppt) && busy == old(busy) && modalError == old(modalError)
      ensures successMsg == old(successMsg) && showModal == old(showModal) && calls == old(calls)
    {
      formData := formData.(timeFrom := value, timeTo := "");
    }

    method ChooseTimeTo(value: string)
      modifies this
      ensures formData == old(formData).(timeTo := value)
      ensures editAppt == old(editAppt) && busy == old(busy) && modalError == old(modalError)
      ensures successMsg == old(successMsg) && showModal == old(showModal) && calls == old(calls)
    {
      formData := formData.(timeTo := value);
    }

    /** The effect that clears both times when the start is not before the end; a range in
        order is left alone. */
    method ResetInvertedRange()
      modifies this
      ensures RangeInOrder(formData)
      ensures RangeInOrder(old(formData)) ==> formData == old(formData)
      ensures !RangeInOrder(old(formData)) ==> formData == old(formData).(timeFrom := "", timeTo := "")
      ensures editAppt == old(editAppt) && busy == old(busy) && modalError == old(modalError)
      ensures successMsg == old(successMsg) && showModal == old(showModal) && calls == old(calls)
    {
      if formData.timeFrom != "" && formData.timeTo != "" && !Less(formData.timeFrom, formData.timeTo) {
        formData := formData.(timeFrom := "", timeTo := "");
      }
    }

    /** `handleModalSubmit`, given the clock and how the request ends. The first failing
        check sets its message and nothing is sent; a form that passes sends one create or
        update, after which success closes and resets the modal and failure shows the
        server's message or the fallback. */
    method HandleModalSubmit(today: string, now: string, outcome: Outcome)
      modifies this
      ensures busy == old(busy)
      ensures var v := Validate(old(formData), old(busy), today, now);
              v.Some? ==>
                && modalError == Message(v.value) && calls == old(calls)
                && formData == old(formData) && editAppt == old(editAppt)
                && showModal == old(showModal) && successMsg == old(successMsg)
      ensures var v := Validate(old(formData), old(busy), today, now);
              v.None? ==> calls == old(calls) + [SaveCall(old(editAppt), old(formData))]
      ensures var v := Validate(old(formData), old(busy), today, now);
              v.None? && outcome.Saved? ==>
                && !showModal && editAppt == None && formData == EMPTY_FORM
                && successMsg == SAVED && modalError == ""
      ensures var v := Validate(old(formData), old(busy), today, now);
              v.None? && outcome.Failed? ==>
                && modalError == FailureText(outcome.message, SAVE_FAILED)
                && formData == old(formData) && editAppt == old(editAppt)
                && showModal == old(showModal) && successMsg == old(successMsg)
    {
      modalError := "";
      if formData.dentistId == "" || formData.date == "" || formData.timeFrom == "" || formData.timeTo == "" {
        modalError := Message(MissingFields);
        return;
      }
      if Less(formData.date, today) {
        modalError := Message(PastDate);
        return;
      }
      if formData.date == today && Less(formData.timeFrom, now) {
        modalError := Message(PastStart);
        return;
      }
      if !Less(formData.timeFrom, formData.timeTo) {
        modalError := Message(EmptyRange);
        return;
      }
      if Conflicts(formData.timeFrom, formData.timeTo, busy) {
        modalError := Message(Conflict);
        return;
      }
      calls := calls + [SaveCall(editAppt, formData)];
      match outcome {
        case Saved =>
          showModal := false;
          editAppt := None;
          formData := EMPTY_FORM;
          successMsg := SAVED;
        case Failed(message) =>
          modalError := FailureText(message, SAVE_FAILED);
      }
    }
  }
}
