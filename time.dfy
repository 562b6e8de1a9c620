/** The time utilities of the scheduling front end (`src/utils/time.js`): the generator of
    bookable time slots for a working-hours window, and the 24-hour to 12-hour label formatter.

    A time of day is text, as in the source: slot values are `HH:MM:00`, clock inputs `H:MM`.
    The generator walks a `Clock` (hour and minute); `Minutes` gives the minute reading of a clock,
    and `ValueOrder` shows that the text order of slot values is their minute order. */
module Time {

  import opened Wrappers
  import opened JsText
  import opened JsArray

  /** An hour and minute, as read from a `H:MM` string. */
  datatype Clock = Clock(h: nat, m: nat)

  /** One option of a time dropdown: the 24-hour value and the 12-hour label (`label` in the source; a keyword here). */
  datatype Slot = Slot(value: string, caption: string)

  const DEFAULT_START: string := "09:00"
  const DEFAULT_END: string := "17:00"
  const DEFAULT_INTERVAL: nat := 30

  /** An end time of exactly this text makes the generator append `MIDNIGHT_SLOT`. */
  const MIDNIGHT_SENTINEL: string := "24:00"
  const MIDNIGHT_SLOT: Slot := Slot("00:00", "00:00")

  function Minutes(c: Clock): nat {
    c.h * 60 + c.m
  }

  /** `s.split(':').map(Number)`, taking the first two fields as hour and minute; `None` when
      there is no minute field or either field is not a number. */
  function ParseClock(s: string): Option<Clock> {
    var fields := Split(s, ':');
    if |fields| < 2 then None
    else
      match (NumberOf(fields[0]), NumberOf(fields[1]))
      case (Some(h), Some(m)) => Some(Clock(h, m))
      case _ => None
  }

  /** A time string with numeric hour and minute fields and a minute below 60. */
  predicate WellFormed(s: string) {
    ParseClock(s).Some? && ParseClock(s).value.m < 60
  }

  // ---------------------------------------------------------------------------
  // Formatting
  // ---------------------------------------------------------------------------

  /** `pad`: two digits for numbers below 10, the plain numeral otherwise. */
  function Pad(n: nat): string {
    if n < 10 then "0" + NatText(n) else NatText(n)
  }

  /** The hour on a 12-hour clock face: 0 and 12 both read 12. */
  function Hour12(h: nat): (r: nat)
    ensures 1 <= r <= 12
    ensures r == 12 <==> h % 12 == 0
    ensures r % 12 == h % 12
  {
    if h % 12 == 0 then 12 else h % 12
  }

  function Meridiem(h: nat): string {
    if h < 12 then "AM" else "PM"
  }

  /** The 24-hour value of a slot, `HH:MM:00`. */
  function ValueText(h: nat, m: nat): string {
    Pad(h) + ":" + Pad(m) + ":00"
  }

  /** The 12-hour label of a slot, `H:MM AM` or `H:MM PM`. */
  function LabelText(h: nat, m: nat): string {
    NatText(Hour12(h)) + ":" + Pad(m) + " " + Meridiem(h)
  }

  /** A clock time as `HH:MM`, the form of the current time (`toTimeString().slice(0, 5)`). */
  function ClockText(h: nat, m: nat): string {
    Pad(h) + ":" + Pad(m)
  }

  /** The slot for a clock time. */
  function SlotOf(c: Clock): Slot {
    Slot(ValueText(c.h, c.m), LabelText(c.h, c.m))
  }

  // ---------------------------------------------------------------------------
  // Slot generation
  // ---------------------------------------------------------------------------

  /** The minutes of a well-formed time string. */
  function MinutesOf(s: string): nat
    requires WellFormed(s)
  {
    Minutes(ParseClock(s).value)
  }

  /** The loop test of the generator: `c` is not later than `e`, hour first, then minute. */
  predicate NotAfter(c: Clock, e: Clock) {
    c.h < e.h || (c.h == e.h && c.m <= e.m)
  }

  /** One step of the generator's clock: add `interval` minutes and carry into the hour once. */
  function Tick(c: Clock, interval: nat): (r: Clock)
    requires c.m < 60 && interval <= 60
    ensures r.m < 60 && Minutes(r) == Minutes(c) + interval
  {
    if c.m + interval >= 60 then Clock(c.h + 1, c.m + interval - 60) else Clock(c.h, c.m + interval)
  }

  /** The clock times the generator visits from `c` on, while the clock is not later than `e`. */
  function Steps(c: Clock, e: Clock, interval: nat): (r: seq<Clock>)
    requires c.m < 60 && e.m < 60 && 0 < interval <= 60
    ensures r == [] <==> Minutes(c) > Minutes(e)
    ensures r != [] ==> r[0] == c
    decreases if Minutes(c) <= Minutes(e) then Minutes(e) - Minutes(c) + 1 else 0
  {
    ClockOrder(c, e);
    if NotAfter(c, e) then [c] + Steps(Tick(c, interval), e, interval) else []
  }

  /** What `generateTimeSlots(start, end, interval)` returns. */
  function Slots(start: string, end: string, interval: nat): (r: seq<Slot>)
    requires WellFormed(start) && WellFormed(end) && 0 < interval <= 60
    ensures MinutesOf(start) <= MinutesOf(end) ==> r != [] && r[0] == SlotOf(ParseClock(start).value)
    ensures end == MIDNIGHT_SENTINEL ==> r != [] && r[|r| - 1] == MIDNIGHT_SLOT
  {
    var steps := Steps(ParseClock(start).value, ParseClock(end).value, interval);
    var tail := if end == MIDNIGHT_SENTINEL then [MIDNIGHT_SLOT] else [];
    MappedEnds(steps, tail);
    Map(steps, SlotOf) + tail
  }

  /** The first slot of `steps.map(slotOf)` followed by `tail` is the first step's, and its last is
      the last of `tail`. */
  lemma MappedEnds(steps: seq<Clock>, tail: seq<Slot>)
    ensures var r := Map(steps, SlotOf) + tail;
            && (steps != [] ==> r[0] == SlotOf(steps[0]))
            && (tail != [] ==> r[|r| - 1] == tail[|tail| - 1])
  {
    if steps != [] {
      MapAt(steps, SlotOf, 0);
    }
  }

  /** `generateTimeSlots`: reads the hour and minute of `start` and `end`, walks the clock from
      `start` in steps of `interval` minutes while it is not later than `end`, and appends the
      midnight slot for the `24:00` sentinel. */
  method GenerateTimeSlots(start: string, end: string, interval: nat) returns (slots: seq<Slot>)
    requires WellFormed(start) && WellFormed(end)
    requires 0 < interval <= 60
    ensures slots == Slots(start, end, interval)
  {
    var s, e := ParseClock(start).value, ParseClock(end).value;
    slots := WalkClock(s, e, interval);
    if end == MIDNIGHT_SENTINEL {
      slots := slots + [MIDNIGHT_SLOT];
    }
  }

  /** The loop of `generateTimeSlots`: one slot per step from `s` while the clock is not later than `e`. */
  method WalkClock(s: Clock, e: Clock, interval: nat) returns (slots: seq<Slot>)
    requires s.m < 60 && e.m < 60 && 0 < interval <= 60
    ensures slots == Map(Steps(s, e, interval), SlotOf)
  {
    var endH, endM := e.h, e.m;
    slots := [];
    var currentH: nat, currentM: nat := s.h, s.m;
    ghost var done: seq<Clock> := [];
    while currentH < endH || (currentH == endH && currentM <= endM)
      invariant currentM < 60
      invariant done + Steps(Clock(currentH, currentM), e, interval) == Steps(s, e, interval)
      invariant slots == Map(done, SlotOf)
      decreases Minutes(e) + 1 - Minutes(Clock(currentH, currentM))
    {
      ghost var c := Clock(currentH, currentM);
      StepsNext(s, e, interval, done, c);
      slots := PushSlot(slots, currentH, currentM, done);
      done := done + [c];
      currentM := currentM + interval;
      if currentM >= 60 {
        currentM := currentM - 60;
        currentH := currentH + 1;
      }
      assert Clock(currentH, currentM) == Tick(c, interval);
    }
    StepsDone(s, e, interval, done, Clock(currentH, currentM));
  }

  /** One turn of the loop moves the current clock time from the steps still to come to the steps done. */
  lemma StepsNext(s: Clock, e: Clock, interval: nat, done: seq<Clock>, c: Clock)
    requires s.m < 60 && c.m < 60 && e.m < 60 && 0 < interval <= 60
    requires NotAfter(c, e) && done + Steps(c, e, interval) == Steps(s, e, interval)
    ensures (done + [c]) + Steps(Tick(c, interval), e, interval) == Steps(s, e, interval)
  {
    assert Steps(c, e, interval) == [c] + Steps(Tick(c, interval), e, interval);
    MoveFirst(done, c, Steps(Tick(c, interval), e, interval), Steps(s, e, interval));
  }

  /** When the loop test fails, every step has been taken. */
  lemma StepsDone(s: Clock, e: Clock, interval: nat, done: seq<Clock>, c: Clock)
    requires s.m < 60 && c.m < 60 && e.m < 60 && 0 < interval <= 60
    requires !NotAfter(c, e) && done + Steps(c, e, interval) == Steps(s, e, interval)
    ensures done == Steps(s, e, interval)
  {
    assert Steps(c, e, interval) == [];
    assert done + [] == done;
  }

  /** The loop body's `slots.push({ value, label })` for the clock time `h:m`: the 24-hour value
      and the 12-hour label. */
  method PushSlot(slots: seq<Slot>, h: nat, m: nat, ghost done: seq<Clock>) returns (slots': seq<Slot>)
    requires slots == Map(done, SlotOf)
    ensures slots' == Map(done + [Clock(h, m)], SlotOf)
  {
    var value := ValueText(h, m);
    var caption := LabelText(h, m);
    MapSnoc(done, Clock(h, m), SlotOf);
    slots' := slots + [Slot(value, caption)];
  }

  /** The source's loop test on hour and minute is the comparison of minutes since midnight. */
  lemma ClockOrder(c: Clock, e: Clock)
    requires c.m < 60 && e.m < 60
    ensures NotAfter(c, e) <==> Minutes(c) <= Minutes(e)
  {
  }

  // ---------------------------------------------------------------------------
  // Properties of the generator
  // ---------------------------------------------------------------------------

  lemma DivStep(x: nat, d: nat)
    requires 0 < d <= x
    ensures (x - d) / d + 1 == x / d
  {
    var q, r := (x - d) / d, (x - d) % d;
    assert x == (q + 1) * d + r;
    DivUnique(x, d, q + 1, r);
  }

  lemma DivUnique(x: nat, d: nat, q: nat, r: nat)
    requires 0 <= r < d && x == q * d + r
    ensures x / d == q
  {
    var q', r' := x / d, x % d;
    var k := q - q';
    assert k * d == r' - r by {
      assert q * d + r == q' * d + r';
    }
    if k >= 1 {
      MulAtLeast(k, d);
    } else if k <= -1 {
      assert (-k) * d == r - r';
      MulAtLeast(-k, d);
    }
  }

  lemma DivExact(x: nat, d: nat)
    requires d > 0 && x % d == 0
    ensures (x / d) * d == x
  {
  }

  lemma MulAtLeast(k: nat, d: nat)
    requires k >= 1
    ensures k * d >= d
  {
  }

  /** The generator makes `(end - start) / interval + 1` steps when `start` is not later than
      `end`, counted in minutes, and none otherwise. */
  lemma {:induction false} StepsLength(c: Clock, e: Clock, interval: nat)
    requires c.m < 60 && e.m < 60 && 0 < interval <= 60
    ensures |Steps(c, e, interval)| ==
              if Minutes(c) > Minutes(e) then 0 else (Minutes(e) - Minutes(c)) / interval + 1
    decreases if Minutes(c) <= Minutes(e) then Minutes(e) - Minutes(c) + 1 else 0
  {
    ClockOrder(c, e);
    if Minutes(c) <= Minutes(e) {
      var next := Tick(c, interval);
      var x := Minutes(e) - Minutes(c);
      assert |Steps(c, e, interval)| == 1 + |Steps(next, e, interval)|;
      StepsLength(next, e, interval);
      if Minutes(next) <= Minutes(e) {
        assert Minutes(e) - Minutes(next) == x - interval;
        DivStep(x, interval);
      } else {
        DivUnique(x, interval, 0, x);
      }
    } else {
      assert Steps(c, e, interval) == [];
    }
  }

  /** The `k`-th step lies `k * interval` minutes after the first, and not after `end`. */
  lemma {:induction false} StepsAt(c: Clock, e: Clock, interval: nat, k: nat)
    requires c.m < 60 && e.m < 60 && 0 < interval <= 60
    requires k < |Steps(c, e, interval)|
    ensures Steps(c, e, interval)[k].m < 60
    ensures Minutes(Steps(c, e, interval)[k]) == Minutes(c) + k * interval <= Minutes(e)
    decreases k
  {
    ClockOrder(c, e);
    if k > 0 {
      StepsAt(Tick(c, interval), e, interval, k - 1);
      assert (k - 1) * interval == k * interval - interval;
    }
  }

  /** The steps climb strictly. */
  lemma StepsAscending(c: Clock, e: Clock, interval: nat, i: nat, j: nat)
    requires c.m < 60 && e.m < 60 && 0 < interval <= 60
    requires i < j < |Steps(c, e, interval)|
    ensures Minutes(Steps(c, e, interval)[i]) < Minutes(Steps(c, e, interval)[j])
  {
    StepsAt(c, e, interval, i);
    StepsAt(c, e, interval, j);
    MulAtLeast(j - i, interval);
    assert (j - i) * interval == j * interval - i * interval;
  }

  /** Two digits then a tail compare by the two-digit number first, then by the tail. */
  lemma PadLess(x: nat, y: nat, a: string, b: string)
    requires x < 100 && y < 100
    ensures Less(Pad(x) + a, Pad(y) + b) <==> x < y || (x == y && Less(a, b))
  {
    PadDigits(x);
    PadDigits(y);
    assert Pad(x) + a == [Digit(x / 10)] + ([Digit(x % 10)] + a);
    assert Pad(y) + b == [Digit(y / 10)] + ([Digit(y % 10)] + b);
    LessCons(Digit(x / 10), [Digit(x % 10)] + a, Digit(y / 10), [Digit(y % 10)] + b);
    LessCons(Digit(x % 10), a, Digit(y % 10), b);
  }

  lemma PadDigits(n: nat)
    requires n < 100
    ensures Pad(n) == [Digit(n / 10), Digit(n % 10)]
  {
    if n < 10 {
      assert Digit(0) == '0';
    } else {
      assert NatText(n / 10) == [Digit(n / 10)];
    }
  }

  /** Slot values compare as text exactly as their clock times compare as minutes. */
  lemma ValueOrder(c1: Clock, c2: Clock)
    requires c1.h < 100 && c1.m < 60 && c2.h < 100 && c2.m < 60
    ensures Less(SlotOf(c1).value, SlotOf(c2).value) <==> Minutes(c1) < Minutes(c2)
  {
    assert ValueText(c1.h, c1.m) == Pad(c1.h) + (":" + (Pad(c1.m) + ":00"));
    assert ValueText(c2.h, c2.m) == Pad(c2.h) + (":" + (Pad(c2.m) + ":00"));
    PadLess(c1.h, c2.h, ":" + (Pad(c1.m) + ":00"), ":" + (Pad(c2.m) + ":00"));
    LessCons(':', Pad(c1.m) + ":00", ':', Pad(c2.m) + ":00");
    PadLess(c1.m, c2.m, ":00", ":00");
    LessIrreflexive(":00");
  }

  /** A slot value (`HH:MM:00`) is below a clock text (`HH:MM`) exactly when its time is earlier;
      at the same minute the longer value is not below. */
  lemma ValueBeforeClock(c: Clock, d: Clock)
    requires c.h < 100 && c.m < 60 && d.h < 100 && d.m < 60
    ensures Less(SlotOf(c).value, ClockText(d.h, d.m)) <==> Minutes(c) < Minutes(d)
  {
    assert ValueText(c.h, c.m) == Pad(c.h) + (":" + (Pad(c.m) + ":00"));
    assert ClockText(d.h, d.m) == Pad(d.h) + (":" + (Pad(d.m) + ""));
    PadLess(c.h, d.h, ":" + (Pad(c.m) + ":00"), ":" + (Pad(d.m) + ""));
    LessCons(':', Pad(c.m) + ":00", ':', Pad(d.m) + "");
    PadLess(c.m, d.m, ":00", "");
  }

  /** The loop's slots: `floor((end - start) / interval) + 1` of them (none when `start` is
      later than `end`), the `k`-th for the clock time `start + k * interval` minutes, which is
      not later than `end`. */
  lemma WalkShape(c: Clock, e: Clock, interval: nat)
    requires c.m < 60 && e.m < 60 && 0 < interval <= 60
    ensures var steps := Steps(c, e, interval);
            var r := Map(steps, SlotOf);
            && |r| == |steps| == (if Minutes(c) > Minutes(e) then 0 else (Minutes(e) - Minutes(c)) / interval + 1)
            && forall k :: 0 <= k < |steps| ==>
                 && r[k] == SlotOf(steps[k]) && steps[k].m < 60
                 && Minutes(steps[k]) == Minutes(c) + k * interval <= Minutes(e)
  {
    var steps := Steps(c, e, interval);
    StepsLength(c, e, interval);
    forall k | 0 <= k < |steps|
      ensures Map(steps, SlotOf)[k] == SlotOf(steps[k]) && steps[k].m < 60
      ensures Minutes(steps[k]) == Minutes(c) + k * interval <= Minutes(e)
    {
      StepsAt(c, e, interval, k);
      MapAt(steps, SlotOf, k);
    }
  }

  /** The shape of `generateTimeSlots(start, end, interval)` for well-formed times: `n` slots
      `interval` minutes apart starting at `start`, none later than `end`, where `n` is
      `floor((end - start) / interval) + 1` (0 when `start` is later than `end`), then the
      midnight slot exactly when `end` is the text `24:00`. */
  lemma SlotsShape(start: string, end: string, interval: nat)
    requires WellFormed(start) && WellFormed(end) && 0 < interval <= 60
    ensures var c, e := ParseClock(start).value, ParseClock(end).value;
            var steps := Steps(c, e, interval);
            var r := Slots(start, end, interval);
            && |steps| == (if Minutes(c) > Minutes(e) then 0 else (Minutes(e) - Minutes(c)) / interval + 1)
            && |r| == |steps| + (if end == MIDNIGHT_SENTINEL then 1 else 0)
            && (forall k :: 0 <= k < |steps| ==>
                  && r[k] == SlotOf(steps[k]) && steps[k].m < 60
                  && Minutes(steps[k]) == Minutes(c) + k * interval <= Minutes(e))
            && (end == MIDNIGHT_SENTINEL ==> r[|steps|] == MIDNIGHT_SLOT)
  {
    var c, e := ParseClock(start).value, ParseClock(end).value;
    WalkShape(c, e, interval);
  }

  /** No generated time slot can be mistaken for the midnight slot: values are 8 characters or more. */
  lemma SlotOfNotMidnight(c: Clock)
    ensures SlotOf(c) != MIDNIGHT_SLOT
  {
    PadValue(c.h);
    PadValue(c.m);
    assert |ValueText(c.h, c.m)| >= 8;
  }

  /** The last slot is the midnight slot exactly when `end` is the text `24:00`. */
  lemma MidnightOnlyForSentinel(start: string, end: string, interval: nat)
    requires WellFormed(start) && WellFormed(end) && 0 < interval <= 60
    requires Slots(start, end, interval) != []
    ensures var r := Slots(start, end, interval);
            r[|r| - 1] == MIDNIGHT_SLOT <==> end == MIDNIGHT_SENTINEL
  {
    var steps := Steps(ParseClock(start).value, ParseClock(end).value, interval);
    if end != MIDNIGHT_SENTINEL {
      assert Slots(start, end, interval) == Map(steps, SlotOf);
      MapAt(steps, SlotOf, |steps| - 1);
      SlotOfNotMidnight(steps[|steps| - 1]);
    }
  }

  /** When `start` is later than `end` the loop emits nothing. */
  lemma EmptyWhenStartAfterEnd(start: string, end: string, interval: nat)
    requires WellFormed(start) && WellFormed(end) && 0 < interval <= 60
    requires MinutesOf(start) > MinutesOf(end)
    ensures Slots(start, end, interval) == if end == MIDNIGHT_SENTINEL then [MIDNIGHT_SLOT] else []
  {
    ClockOrder(ParseClock(start).value, ParseClock(end).value);
  }

  /** The generator's values are strictly ascending, hence distinct, when the window ends
      before hour 100 (the two-digit hours the padding produces). */
  lemma SlotsAscending(start: string, end: string, interval: nat)
    requires WellFormed(start) && WellFormed(end) && 0 < interval <= 60
    requires ParseClock(end).value.h < 100
    ensures var n := |Steps(ParseClock(start).value, ParseClock(end).value, interval)|;
            var r := Slots(start, end, interval);
            forall i, j :: 0 <= i < j < n ==> Less(r[i].value, r[j].value)
  {
    var c, e := ParseClock(start).value, ParseClock(end).value;
    var steps := Steps(c, e, interval);
    var r := Slots(start, end, interval);
    forall i, j | 0 <= i < j < |steps|
      ensures Less(r[i].value, r[j].value)
    {
      StepsAscending(c, e, interval, i, j);
      StepsAt(c, e, interval, i);
      StepsAt(c, e, interval, j);
      MapAt(steps, SlotOf, i);
      MapAt(steps, SlotOf, j);
      ValueOrder(steps[i], steps[j]);
    }
  }

  /** With no midnight slot, all of the generator's values are strictly ascending. */
  lemma WindowAscending(start: string, end: string, interval: nat)
    requires WellFormed(start) && WellFormed(end) && 0 < interval <= 60
    requires ParseClock(end).value.h < 100 && end != MIDNIGHT_SENTINEL
    ensures var r := Slots(start, end, interval);
            forall i, j :: 0 <= i < j < |r| ==> Less(r[i].value, r[j].value)
  {
    SlotsAscending(start, end, interval);
    assert Slots(start, end, interval) == Map(Steps(ParseClock(start).value, ParseClock(end).value, interval), SlotOf) + [];
  }

  // ---------------------------------------------------------------------------
  // Reading times back
  // ---------------------------------------------------------------------------

  lemma PadValue(n: nat)
    ensures AllDigits(Pad(n)) && DigitsValue(Pad(n)) == n && 2 <= |Pad(n)|
  {
    DigitsValueOfNatText(n);
    if n < 10 {
      DigitsValueLeadingZero(NatText(n));
    }
  }

  /** A slot value parses back to the clock it was made from, so it can serve as a window bound. */
  lemma ParseValueText(h: nat, m: nat)
    ensures ParseClock(ValueText(h, m)) == Some(Clock(h, m))
  {
    PadValue(h);
    PadValue(m);
    SplitAt(Pad(h), ':', Pad(m) + [':'] + "00");
    SplitAt(Pad(m), ':', "00");
    SplitWhole("00", ':');
    assert ValueText(h, m) == Pad(h) + [':'] + (Pad(m) + [':'] + "00");
    assert Split(ValueText(h, m), ':') == [Pad(h), Pad(m), "00"];
  }

  /** An `HH:MM` text parses back to its clock. */
  lemma ParseClockText(h: nat, m: nat)
    ensures ParseClock(ClockText(h, m)) == Some(Clock(h, m))
  {
    PadValue(h);
    PadValue(m);
    SplitAt(Pad(h), ':', Pad(m));
    SplitWhole(Pad(m), ':');
  }

  // ---------------------------------------------------------------------------
  // formatTimeLabel
  // ---------------------------------------------------------------------------

  /** `formatTimeLabel(time)`: `""` for an empty time; otherwise the hour field read by
      `parseInt` on a 12-hour face, the minute field copied as given, and `AM`/`PM`.
      A missing minute field prints as `undefined`, an unreadable hour as `NaN`. */
  function FormatTimeLabel(time: string): (r: string)
    ensures time == "" ==> r == ""
    ensures time != "" ==> |r| >= 3 && (r[|r| - 3..] == " AM" || r[|r| - 3..] == " PM")
  {
    if time == "" then ""
    else
      var fields := Split(time, ':');
      var minute := if |fields| >= 2 then fields[1] else "undefined";
      match ParseInt(fields[0])
      case None => Suffixed("NaN:" + minute, "AM")
      case Some(h) => Suffixed(NatText(Hour12(h)) + ":" + minute, Meridiem(h))
  }

  /** `text + " " + meridiem`, ending in the space and the meridiem. */
  function Suffixed(text: string, meridiem: string): (r: string)
    requires |meridiem| == 2
    ensures |r| >= 3 && r[|r| - 3..] == " " + meridiem
  {
    text + " " + meridiem
  }

  /** The formatter gives a slot value the very label the generator gave it. */
  lemma FormatTimeLabelOfSlot(c: Clock)
    ensures FormatTimeLabel(SlotOf(c).value) == SlotOf(c).caption
  {
    var h, m := c.h, c.m;
    PadValue(h);
    PadValue(m);
    LeadingDigitsOfDigits(Pad(h));
    SplitAt(Pad(h), ':', Pad(m) + [':'] + "00");
    SplitAt(Pad(m), ':', "00");
    SplitWhole("00", ':');
    assert ValueText(h, m) == Pad(h) + [':'] + (Pad(m) + [':'] + "00");
    assert Split(ValueText(h, m), ':') == [Pad(h), Pad(m), "00"];
  }

  /** On an `HH:MM` text the formatter gives the generator's label for that time. */
  lemma FormatTimeLabelOfClock(h: nat, m: nat)
    ensures FormatTimeLabel(ClockText(h, m)) == LabelText(h, m)
  {
    PadValue(h);
    PadValue(m);
    LeadingDigitsOfDigits(Pad(h));
    SplitAt(Pad(h), ':', Pad(m));
    SplitWhole(Pad(m), ':');
  }

  /** On any text `H:M` or `H:M:...` with a numeric hour field, the formatter shows the
      12-hour hour, the minute field exactly as given (no padding is added) and the meridiem. */
  lemma FormatTimeLabelOfText(hs: string, ms: string, tail: string)
    requires hs != [] && AllDigits(hs) && ':' !in ms
    requires tail == [] || tail[0] == ':'
    ensures FormatTimeLabel(hs + [':'] + ms + tail)
            == NatText(Hour12(DigitsValue(hs))) + ":" + ms + " " + Meridiem(DigitsValue(hs))
  {
    var time := hs + [':'] + ms + tail;
    HourAndMinuteFields(hs, ms, tail);
    LeadingDigitsOfDigits(hs);
    assert ParseInt(hs) == Some(DigitsValue(hs));
    assert time != "";
  }

  /** The first two fields of `H:M` or `H:M:...` are the hour and the minute texts. */
  lemma HourAndMinuteFields(hs: string, ms: string, tail: string)
    requires AllDigits(hs) && ':' !in ms
    requires tail == [] || tail[0] == ':'
    ensures var fields := Split(hs + [':'] + ms + tail, ':');
            |fields| >= 2 && fields[0] == hs && fields[1] == ms
  {
    assert hs + [':'] + ms + tail == hs + [':'] + (ms + tail);
    SplitAt(hs, ':', ms + tail);
    if tail == [] {
      assert ms + tail == ms;
      SplitWhole(ms, ':');
    } else {
      assert ms + tail == ms + [':'] + tail[1..];
      SplitAt(ms, ':', tail[1..]);
    }
  }

  // ---------------------------------------------------------------------------
  // The defaults and worked examples
  // ---------------------------------------------------------------------------

  /** The default working day, 09:00 to 17:00 every 30 minutes, has 17 slots from
      `09:00:00` / `9:00 AM` to `17:00:00` / `5:00 PM`. */
  lemma DefaultSlots()
    ensures WellFormed(DEFAULT_START) && WellFormed(DEFAULT_END)
    ensures var r := Slots(DEFAULT_START, DEFAULT_END, DEFAULT_INTERVAL);
            && |r| == 17
            && r[0] == Slot("09:00:00", "9:00 AM")
            && r[16] == Slot("17:00:00", "5:00 PM")
  {
    var c, e := DefaultWindow();
    WindowSlots(DEFAULT_START, DEFAULT_END, DEFAULT_INTERVAL, c, e, 17,
                Slot("09:00:00", "9:00 AM"), Slot("17:00:00", "5:00 PM"));
  }

  /** The default window is a whole window of 17 slots with the labels of its ends. */
  lemma DefaultWindow() returns (c: Clock, e: Clock)
    ensures WholeWindow(DEFAULT_START, DEFAULT_END, DEFAULT_INTERVAL, c, e)
    ensures (Minutes(e) - Minutes(c)) / DEFAULT_INTERVAL + 1 == 17
    ensures SlotOf(c) == Slot("09:00:00", "9:00 AM") && SlotOf(e) == Slot("17:00:00", "5:00 PM")
  {
    c, e := DefaultClockPair();
    DefaultArithmetic(Minutes(e) - Minutes(c));
    DefaultLabels(c, e);
    assert DEFAULT_END[0] != MIDNIGHT_SENTINEL[0];
  }

  /** The clocks of the default window, known by their minute counts only (the solver is
      kept from unfolding the generator on literal clocks). */
  lemma DefaultClockPair() returns (c: Clock, e: Clock)
    ensures ParseClock(DEFAULT_START) == Some(c) && ParseClock(DEFAULT_END) == Some(e)
    ensures c.m < 60 && e.m < 60 && Minutes(c) == 540 && Minutes(e) == 1020
  {
    DefaultClocks();
    c, e := Clock(9, 0), Clock(17, 0);
  }

  /** The default window is 480 minutes: 16 intervals. */
  lemma DefaultArithmetic(span: int)
    requires span == 480
    ensures span % DEFAULT_INTERVAL == 0 && span / DEFAULT_INTERVAL + 1 == 17
  {
  }

  lemma DefaultLabels(c: Clock, e: Clock)
    requires c.m < 60 && e.m < 60 && Minutes(c) == 540 && Minutes(e) == 1020
    ensures SlotOf(c) == Slot("09:00:00", "9:00 AM")
    ensures SlotOf(e) == Slot("17:00:00", "5:00 PM")
  {
    assert c == Clock(9, 0) && e == Clock(17, 0);
    NineAndFive();
  }

  /** A window given as text, with clocks `c` and `e`, that does not end at the `24:00`
      sentinel and is a whole number of intervals long. */
  ghost predicate WholeWindow(start: string, end: string, interval: nat, c: Clock, e: Clock) {
    && ParseClock(start) == Some(c) && ParseClock(end) == Some(e) && c.m < 60 && e.m < 60
    && 0 < interval <= 60 && end != MIDNIGHT_SENTINEL
    && Minutes(c) <= Minutes(e) && (Minutes(e) - Minutes(c)) % interval == 0
  }

  /** `WindowEnds` for a whole window given as text: `n` slots from `first` to `last`. */
  lemma WindowSlots(start: string, end: string, interval: nat, c: Clock, e: Clock,
                    n: nat, first: Slot, last: Slot)
    requires WholeWindow(start, end, interval, c, e)
    requires (Minutes(e) - Minutes(c)) / interval + 1 == n
    requires SlotOf(c) == first && SlotOf(e) == last
    ensures WellFormed(start) && WellFormed(end)
    ensures var r := Slots(start, end, interval);
            && |r| == n
            && r[0] == first
            && r[n - 1] == last
  {
    WindowEnds(c, e, interval);
    assert Slots(start, end, interval) == Map(Steps(c, e, interval), SlotOf) + [];
  }

  /** When the window is a whole number of intervals long, the first slot is `start` and the
      last is `end` itself: the end bound is inclusive. */
  lemma WindowEnds(c: Clock, e: Clock, interval: nat)
    requires c.m < 60 && e.m < 60 && 0 < interval <= 60
    requires Minutes(c) <= Minutes(e) && (Minutes(e) - Minutes(c)) % interval == 0
    ensures var r := Map(Steps(c, e, interval), SlotOf);
            && |r| == (Minutes(e) - Minutes(c)) / interval + 1
            && r[0] == SlotOf(c)
            && r[|r| - 1] == SlotOf(e)
  {
    var steps := Steps(c, e, interval);
    var n := (Minutes(e) - Minutes(c)) / interval;
    WalkShape(c, e, interval);
    assert steps[0].m < 60 && Minutes(steps[0]) == Minutes(c);
    SameMinutes(steps[0], c);
    DivExact(Minutes(e) - Minutes(c), interval);
    assert steps[n].m < 60 && Minutes(steps[n]) == Minutes(e);
    SameMinutes(steps[n], e);
  }

  /** Two clocks with minutes below 60 and the same minute count are the same clock. */
  lemma SameMinutes(c: Clock, d: Clock)
    requires c.m < 60 && d.m < 60 && Minutes(c) == Minutes(d)
    ensures c == d
  {
  }

  lemma DefaultClocks()
    ensures ParseClock(DEFAULT_START) == Some(Clock(9, 0))
    ensures ParseClock(DEFAULT_END) == Some(Clock(17, 0))
  {
    assert Pad(0) == "00" by { PadDigits(0); assert Digit(0) == '0'; }
    assert Pad(9) == "09" by { PadDigits(9); assert Digit(0) == '0' && Digit(9) == '9'; }
    assert Pad(17) == "17" by { PadDigits(17); assert Digit(1) == '1' && Digit(7) == '7'; }
    assert ClockText(9, 0) == DEFAULT_START;
    assert ClockText(17, 0) == DEFAULT_END;
    ParseClockText(9, 0);
    ParseClockText(17, 0);
  }

  lemma NineAndFive()
    ensures SlotOf(Clock(9, 0)) == Slot("09:00:00", "9:00 AM")
    ensures SlotOf(Clock(17, 0)) == Slot("17:00:00", "5:00 PM")
  {
    Nine();
    Five();
  }

  lemma Nine()
    ensures SlotOf(Clock(9, 0)) == Slot("09:00:00", "9:00 AM")
  {
    assert Pad(0) == "00" by { PadDigits(0); assert Digit(0) == '0'; }
    assert Pad(9) == "09" by { PadDigits(9); assert Digit(0) == '0' && Digit(9) == '9'; }
    assert NatText(9) == "9" by { assert Digit(9) == '9'; }
    assert Hour12(9) == 9;
    assert ValueText(9, 0) == "09:00:00";
  }

  lemma Five()
    ensures SlotOf(Clock(17, 0)) == Slot("17:00:00", "5:00 PM")
  {
    assert Pad(0) == "00" by { PadDigits(0); assert Digit(0) == '0'; }
    assert Pad(17) == "17" by { PadDigits(17); assert Digit(1) == '1' && Digit(7) == '7'; }
    assert NatText(5) == "5" by { assert Digit(5) == '5'; }
    assert Hour12(17) == 5;
  }

  /** A window of one instant, start equal to end, yields that one slot (and the midnight
      slot after it for `24:00`). */
  lemma SingleSlot(start: string, interval: nat)
    requires WellFormed(start) && 0 < interval <= 60
    ensures Slots(start, start, interval) ==
              [SlotOf(ParseClock(start).value)] + (if start == MIDNIGHT_SENTINEL then [MIDNIGHT_SLOT] else [])
  {
  }

  /** `formatTimeLabel` on half past midnight, an afternoon time and the empty string. */
  lemma FormatTimeLabelExamples()
    ensures FormatTimeLabel("00:30") == "12:30 AM"
    ensures FormatTimeLabel("13:05") == "1:05 PM"
    ensures FormatTimeLabel("13:5") == "1:5 PM"
    ensures FormatTimeLabel("") == ""
  {
    HalfPastMidnight();
    FiveAfterOne();
    UnpaddedMinute();
  }

  /** An unpadded minute is shown as given: `13:5` gives `1:5 PM`. */
  lemma UnpaddedMinute()
    ensures FormatTimeLabel("13:5") == "1:5 PM"
  {
    ThirteenHundred();
    FormatTimeLabelOfText("13", "5", "");
    assert "13" + [':'] + "5" + "" == "13:5";
  }

  /** The hour field `13` reads as 13, which is 1 PM. */
  lemma ThirteenHundred()
    ensures AllDigits("13") && DigitsValue("13") == 13
    ensures NatText(Hour12(DigitsValue("13"))) == "1" && Meridiem(DigitsValue("13")) == "PM"
  {
    assert "13"[..1] == "1" && "1"[..0] == "";
    assert NatText(1) == "1" by { assert Digit(1) == '1'; }
  }

  lemma HalfPastMidnight()
    ensures FormatTimeLabel("00:30") == "12:30 AM"
  {
    assert Pad(0) == "00" by { PadDigits(0); assert Digit(0) == '0'; }
    assert Pad(30) == "30" by { PadDigits(30); assert Digit(3) == '3' && Digit(0) == '0'; }
    assert NatText(12) == "12" by { PadDigits(12); assert Digit(1) == '1' && Digit(2) == '2'; }
    assert ClockText(0, 30) == "00:30";
    assert Hour12(0) == 12;
    assert LabelText(0, 30) == "12:30 AM";
    FormatTimeLabelOfClock(0, 30);
  }

  lemma FiveAfterOne()
    ensures FormatTimeLabel("13:05") == "1:05 PM"
  {
    assert Pad(13) == "13" by { PadDigits(13); assert Digit(1) == '1' && Digit(3) == '3'; }
    assert Pad(5) == "05" by { PadDigits(5); assert Digit(0) == '0' && Digit(5) == '5'; }
    assert NatText(1) == "1" by { assert Digit(1) == '1'; }
    assert ClockText(13, 5) == "13:05";
    assert Hour12(13) == 1;
    assert LabelText(13, 5) == "1:05 PM";
    FormatTimeLabelOfClock(13, 5);
  }
}
