/** The dentists page (`src/pages/Dentist.js`): the working-hours dropdowns of the dentist form,
    the required-field check of its submit handler, and the sortable dentist table. */
module Dentists {

  import opened Wrappers
  import opened JsText
  import opened JsArray
  import opened Time

  /** A dentist record as the REST API returns it; a missing (`null`) text field is `""`, which
      `|| ''` and the falsiness tests treat alike. */
  datatype Dentist = Dentist(
    id: nat,
    name: string,
    email: string,
    specialization: string,
    availableStart: string,
    availableEnd: string)

  /** The columns the table can be sorted by. */
  datatype SortKey = Name | Email | Specialization

  datatype Direction = Asc | Desc

  datatype SortConfig = SortConfig(key: SortKey, direction: Direction)

  /** The table starts sorted by name, ascending. */
  const INITIAL_SORT: SortConfig := SortConfig(Name, Asc)

  /** The fields of the dentist form, all text. */
  datatype DentistForm = DentistForm(
    name: string,
    email: string,
    specialization: string,
    availableStart: string,
    availableEnd: string)

  const EMPTY_FORM: DentistForm := DentistForm("", "", "", "", "")

  const FILL_REQUIRED: string := "Fill all required fields"
  const SAVE_FAILED: string := "Failed to save dentist"
  const DENTIST_UPDATED: string := "Dentist updated successfully"
  const DENTIST_ADDED: string := "Dentist added successfully"

  /** A request the page sends to the REST API. */
  datatype DentistCall = CreateDentist(form: DentistForm) | UpdateDentist(id: nat, form: DentistForm)

  // ---------------------------------------------------------------------------
  // Working-hours dropdowns
  // ---------------------------------------------------------------------------

  const OPTIONS_FIRST: string := "00:00"
  const OPTIONS_LAST: string := "23:30"

  /** The window text `00:00` to `23:30` is well formed. */
  lemma OptionBounds()
    ensures ParseClock(OPTIONS_FIRST) == Some(Clock(0, 0))
    ensures ParseClock(OPTIONS_LAST) == Some(Clock(23, 30))
  {
    assert Pad(0) == "00" by { PadDigits(0); assert Digit(0) == '0'; }
    assert Pad(23) == "23" by { PadDigits(23); assert Digit(2) == '2' && Digit(3) == '3'; }
    assert Pad(30) == "30" by { PadDigits(30); assert Digit(3) == '3' && Digit(0) == '0'; }
    assert ClockText(0, 0) == OPTIONS_FIRST;
    assert ClockText(23, 30) == OPTIONS_LAST;
    ParseClockText(0, 0);
    ParseClockText(23, 30);
  }

  /** The start-time options, `generateTimeSlots('00:00', '23:30', 30)` (the `map` that copies
      `value` and `label` leaves each slot as it is). */
  function TimeOptions(): seq<Slot> {
    OptionBounds();
    Slots(OPTIONS_FIRST, OPTIONS_LAST, 30)
  }

  /** `timeOptions`: computed by the generator itself. */
  method ComputeTimeOptions() returns (options: seq<Slot>)
    ensures options == TimeOptions()
  {
    OptionBounds();
    options := GenerateTimeSlots(OPTIONS_FIRST, OPTIONS_LAST, 30);
  }

  /** 48 half-hour options, from `00:00:00` (`12:00 AM`) to `23:30:00` (`11:30 PM`), strictly
      ascending. */
  lemma TimeOptionsShape()
    ensures var r := TimeOptions();
            && |r| == 48
            && r[0] == Slot("00:00:00", "12:00 AM")
            && r[47] == Slot("23:30:00", "11:30 PM")
            && (forall i, j :: 0 <= i < j < |r| ==> Less(r[i].value, r[j].value))
  {
    TimeOptionsEnds();
    TimeOptionsAscending();
  }

  lemma TimeOptionsEnds()
    ensures |TimeOptions()| == 48
    ensures TimeOptions()[0] == Slot("00:00:00", "12:00 AM")
    ensures TimeOptions()[47] == Slot("23:30:00", "11:30 PM")
  {
    OptionSlots();
  }

  /** The generator's slots for the option window, stated without the `TimeOptions` name. */
  lemma OptionSlots()
    ensures WellFormed(OPTIONS_FIRST) && WellFormed(OPTIONS_LAST)
    ensures var r := Slots(OPTIONS_FIRST, OPTIONS_LAST, 30);
            && |r| == 48
            && r[0] == Slot("00:00:00", "12:00 AM")
            && r[47] == Slot("23:30:00", "11:30 PM")
  {
    var c, e := OptionWindow();
    WindowSlots(OPTIONS_FIRST, OPTIONS_LAST, 30, c, e, 48,
                Slot("00:00:00", "12:00 AM"), Slot("23:30:00", "11:30 PM"));
  }

  /** The clocks of the option window, known by their minute counts only. */
  lemma OptionClocks() returns (c: Clock, e: Clock)
    ensures ParseClock(OPTIONS_FIRST) == Some(c) && ParseClock(OPTIONS_LAST) == Some(e)
    ensures c.m < 60 && e.m < 60 && Minutes(c) == 0 && Minutes(e) == 1410
  {
    OptionBounds();
    c, e := Clock(0, 0), Clock(23, 30);
  }

  /** The option window is a whole window of 48 slots with the labels of its ends. */
  lemma OptionWindow() returns (c: Clock, e: Clock)
    ensures WholeWindow(OPTIONS_FIRST, OPTIONS_LAST, 30, c, e)
    ensures (Minutes(e) - Minutes(c)) / 30 + 1 == 48
    ensures SlotOf(c) == Slot("00:00:00", "12:00 AM") && SlotOf(e) == Slot("23:30:00", "11:30 PM")
  {
    OptionBounds();
    c, e := Clock(0, 0), Clock(23, 30);
    FirstOption();
    LastOption();
    assert OPTIONS_LAST[1] != MIDNIGHT_SENTINEL[1];
  }

  lemma TimeOptionsAscending()
    ensures var r := TimeOptions();
            forall i, j :: 0 <= i < j < |r| ==> Less(r[i].value, r[j].value)
  {
    var c, e := OptionClocks();
    assert e.h < 100;
    assert OPTIONS_LAST[1] != MIDNIGHT_SENTINEL[1];
    WindowAscending(OPTIONS_FIRST, OPTIONS_LAST, 30);
  }

  lemma FirstOption()
    ensures SlotOf(Clock(0, 0)) == Slot("00:00:00", "12:00 AM")
  {
    assert Pad(0) == "00" by { PadDigits(0); assert Digit(0) == '0'; }
    assert NatText(12) == "12" by { PadDigits(12); assert Digit(1) == '1' && Digit(2) == '2'; }
    assert Hour12(0) == 12;
  }

  lemma LastOption()
    ensures SlotOf(Clock(23, 30)) == Slot("23:30:00", "11:30 PM")
  {
    assert Pad(23) == "23" by { PadDigits(23); assert Digit(2) == '2' && Digit(3) == '3'; }
    assert Pad(30) == "30" by { PadDigits(30); assert Digit(3) == '3' && Digit(0) == '0'; }
    assert NatText(11) == "11" by { PadDigits(11); assert Digit(1) == '1'; }
    assert Hour12(23) == 11;
  }

  /** `availableEndTimes`: every option while no start is chosen, otherwise the options whose
      value is above the chosen start, in their order. */
  function AvailableEndTimes(options: seq<Slot>, availableStart: string): (r: seq<Slot>)
    ensures availableStart == "" ==> r == options
    ensures IsSubsequence(r, options)
    ensures availableStart != "" ==>
              forall t :: t in r <==> t in options && Less(availableStart, t.value)
  {
    if availableStart == "" then
      SubsequenceOfItself(options);
      options
    else
      var later := (t: Slot) => Less(availableStart, t.value);
      FilterSpec(options, later);
      Filter(options, later)
  }

  /** Choosing the `i`-th of strictly ascending options as the start leaves exactly the options
      after it as end times. */
  lemma {:induction false} EndTimesAfterStart(options: seq<Slot>, i: nat)
    requires forall k, l :: 0 <= k < l < |options| ==> Less(options[k].value, options[l].value)
    requires i < |options| && options[i].value != ""
    ensures AvailableEndTimes(options, options[i].value) == options[i + 1..]
  {
    var start := options[i].value;
    var p := (t: Slot) => Less(start, t.value);
    assert options == options[..i + 1] + options[i + 1..];
    forall k | 0 <= k <= i
      ensures !p(options[k])
    {
      if k < i {
        LessAsymmetric(options[k].value, start);
      } else {
        LessIrreflexive(start);
      }
    }
    assert forall k :: 0 <= k < |options[..i + 1]| ==> options[..i + 1][k] == options[k];
    FilterNone(options[..i + 1], p);
    FilterAll(options[i + 1..], p);
    FilterAppend(options[..i + 1], options[i + 1..], p);
  }

  /** On the page's own options, the start option `i` leaves the `47 - i` later ones. */
  lemma EndTimesAfterOption(i: nat)
    requires i < 48
    ensures |TimeOptions()| == 48
    ensures AvailableEndTimes(TimeOptions(), TimeOptions()[i].value) == TimeOptions()[i + 1..]
    ensures |AvailableEndTimes(TimeOptions(), TimeOptions()[i].value)| == 47 - i
  {
    var r := TimeOptions();
    TimeOptionsShape();
    if i > 0 {
      assert Less(r[0].value, r[i].value);
    } else {
      assert r[0].value == "00:00:00";
    }
    EndTimesAfterStart(r, i);
  }

  // ---------------------------------------------------------------------------
  // Sorting
  // ---------------------------------------------------------------------------

  /** `requestSort(key)`: descending when the same key is chosen again while ascending,
      ascending otherwise. */
  function NextSort(config: SortConfig, key: SortKey): (r: SortConfig)
    ensures r.key == key
    ensures r.direction == Desc <==> config.key == key && config.direction == Asc
  {
    if config.key == key && config.direction == Asc then SortConfig(key, Desc) else SortConfig(key, Asc)
  }

  /** Clicking the same column header keeps flipping the direction; a new column starts ascending. */
  lemma NextSortToggles(config: SortConfig, key: SortKey)
    ensures config.key == key ==> NextSort(config, key).direction != config.direction
    ensures NextSort(NextSort(config, key), key).direction != NextSort(config, key).direction
    ensures config.key != key ==> NextSort(config, key) == SortConfig(key, Asc)
  {
  }

  /** `a[sortConfig.key] || ''`. */
  function Field(d: Dentist, key: SortKey): string {
    match key
    case Name => d.name
    case Email => d.email
    case Specialization => d.specialization
  }

  /** The comparator handed to `sort`: negative when `a` goes first, positive when `b` does. */
  function Compare(config: SortConfig, a: Dentist, b: Dentist): (r: int)
    ensures -1 <= r <= 1
  {
    var valA, valB := Field(a, config.key), Field(b, config.key);
    if Less(valA, valB) then (if config.direction == Asc then -1 else 1)
    else if Less(valB, valA) then (if config.direction == Asc then 1 else -1)
    else 0
  }

  /** `a` may precede `b`: ascending puts no key above a later one, descending no key below. */
  lemma CompareOrder(config: SortConfig, a: Dentist, b: Dentist)
    ensures var valA, valB := Field(a, config.key), Field(b, config.key);
            && (Compare(config, a, b) <= 0 <==>
                 if config.direction == Asc then !Less(valB, valA) else !Less(valA, valB))
            && (Compare(config, a, b) == 0 <==> valA == valB)
  {
    var valA, valB := Field(a, config.key), Field(b, config.key);
    if Less(valA, valB) {
      LessAsymmetric(valA, valB);
    } else if valA != valB {
      LessTotal(valA, valB);
    } else {
      LessIrreflexive(valA);
    }
  }

  lemma CompareAntisymmetric(config: SortConfig, a: Dentist, b: Dentist)
    ensures Compare(config, a, b) == -Compare(config, b, a)
  {
    var valA, valB := Field(a, config.key), Field(b, config.key);
    if Less(valA, valB) {
      LessAsymmetric(valA, valB);
    }
  }

  /** Descending order is ascending order with the arguments swapped. */
  lemma CompareDescending(key: SortKey, a: Dentist, b: Dentist)
    ensures Compare(SortConfig(key, Desc), a, b) == Compare(SortConfig(key, Asc), b, a)
  {
    var valA, valB := Field(a, key), Field(b, key);
    if Less(valA, valB) {
      LessAsymmetric(valA, valB);
    }
  }

  lemma NotLessTransitive(x: string, y: string, z: string)
    requires !Less(y, x) && !Less(z, y)
    ensures !Less(z, x)
  {
    if Less(z, x) {
      NotLessThenLess(y, x, z);
    }
  }

  /** The comparator is a total preorder, so a sort by it is well defined. */
  lemma CompareTransitive(config: SortConfig, a: Dentist, b: Dentist, c: Dentist)
    requires Compare(config, a, b) <= 0 && Compare(config, b, c) <= 0
    ensures Compare(config, a, c) <= 0
  {
    var valA, valB, valC := Field(a, config.key), Field(b, config.key), Field(c, config.key);
    CompareOrder(config, a, b);
    CompareOrder(config, b, c);
    CompareOrder(config, a, c);
    if config.direction == Asc {
      NotLessTransitive(valA, valB, valC);
    } else {
      NotLessTransitive(valC, valB, valA);
    }
  }

  /** Every pair of entries is in the comparator's order. */
  ghost predicate SortedBy(s: seq<Dentist>, config: SortConfig) {
    forall i, j :: 0 <= i < j < |s| ==> Compare(config, s[i], s[j]) <= 0
  }

  function Reversed<T>(s: seq<T>): seq<T> {
    seq(|s|, i requires 0 <= i < |s| => s[|s| - 1 - i])
  }

  /** Sorted descending is exactly sorted ascending read backwards. */
  lemma DescendingIsReversedAscending(s: seq<Dentist>, key: SortKey)
    ensures SortedBy(s, SortConfig(key, Desc)) <==> SortedBy(Reversed(s), SortConfig(key, Asc))
  {
    var r := Reversed(s);
    var n := |s|;
    if SortedBy(s, SortConfig(key, Desc)) {
      forall i, j | 0 <= i < j < n
        ensures Compare(SortConfig(key, Asc), r[i], r[j]) <= 0
      {
        CompareDescending(key, s[n - 1 - j], s[n - 1 - i]);
      }
    }
    if SortedBy(r, SortConfig(key, Asc)) {
      forall i, j | 0 <= i < j < n
        ensures Compare(SortConfig(key, Desc), s[i], s[j]) <= 0
      {
        assert r[n - 1 - j] == s[j] && r[n - 1 - i] == s[i];
        CompareDescending(key, s[i], s[j]);
      }
    }
  }

  /** While `s[j]` sinks into the sorted prefix `s[..i]`: the other entries up to `i` are in
      order, and `s[j]` goes strictly before each entry it has passed. */
  ghost predicate Sinking(s: seq<Dentist>, config: SortConfig, j: nat, i: nat)
    requires j <= i < |s|
  {
    && (forall k, l :: 0 <= k < l <= i && k != j && l != j ==> Compare(config, s[k], s[l]) <= 0)
    && (forall l :: j < l <= i ==> Compare(config, s[j], s[l]) < 0)
  }

  lemma SinkStart(s: seq<Dentist>, config: SortConfig, i: nat)
    requires i < |s| && SortedBy(s[..i], config)
    ensures Sinking(s, config, i, i)
  {
    forall k, l | 0 <= k < l <= i && k != i && l != i
      ensures Compare(config, s[k], s[l]) <= 0
    {
      assert s[..i][k] == s[k] && s[..i][l] == s[l];
    }
  }

  lemma SinkStep(s: seq<Dentist>, config: SortConfig, j: nat, i: nat)
    requires 0 < j <= i < |s| && Sinking(s, config, j, i)
    requires Compare(config, s[j - 1], s[j]) > 0
    ensures Sinking(s[j - 1 := s[j]][j := s[j - 1]], config, j - 1, i)
    ensures multiset(s[j - 1 := s[j]][j := s[j - 1]]) == multiset(s)
  {
    var t := s[j - 1 := s[j]][j := s[j - 1]];
    CompareAntisymmetric(config, s[j - 1], s[j]);
    forall k, l | 0 <= k < l <= i && k != j - 1 && l != j - 1
      ensures Compare(config, t[k], t[l]) <= 0
    {
      var k', l' := if k == j then j - 1 else k, if l == j then j - 1 else l;
      assert t[k] == s[k'] && t[l] == s[l'];
    }
  }

  lemma SinkDone(s: seq<Dentist>, config: SortConfig, j: nat, i: nat)
    requires j <= i < |s| && Sinking(s, config, j, i)
    requires j == 0 || Compare(config, s[j - 1], s[j]) <= 0
    ensures SortedBy(s[..i + 1], config)
  {
    forall k, l | 0 <= k < l <= i
      ensures Compare(config, s[k], s[l]) <= 0
    {
      if l == j && k < j - 1 {
        CompareTransitive(config, s[k], s[j - 1], s[j]);
      }
    }
  }

  /** `sortable.sort(comparator)`, in place, by insertion with adjacent swaps (stable, as
      `Array.prototype.sort` is). */
  method SortInPlace(a: array<Dentist>, config: SortConfig)
    modifies a
    ensures SortedBy(a[..], config)
    ensures multiset(a[..]) == multiset(old(a[..]))
  {
    var i := 0;
    while i < a.Length
      invariant 0 <= i <= a.Length
      invariant SortedBy(a[..i], config)
      invariant multiset(a[..]) == multiset(old(a[..]))
    {
      Insert(a, config, i);
      i := i + 1;
    }
    assert a[..a.Length] == a[..];
  }

  /** Sinks `a[i]` into the sorted prefix `a[..i]`, so that `a[..i + 1]` is sorted. */
  method Insert(a: array<Dentist>, config: SortConfig, i: nat)
    requires i < a.Length && SortedBy(a[..i], config)
    modifies a
    ensures SortedBy(a[..i + 1], config)
    ensures a[i + 1..] == old(a[i + 1..])
    ensures multiset(a[..]) == multiset(old(a[..]))
  {
    SinkStart(a[..], config, i);
    var j := i;
    while j > 0 && Compare(config, a[j - 1], a[j]) > 0
      invariant 0 <= j <= i
      invariant Sinking(a[..], config, j, i)
      invariant a[i + 1..] == old(a[i + 1..])
      invariant multiset(a[..]) == multiset(old(a[..]))
    {
      SinkStep(a[..], config, j, i);
      a[j - 1], a[j] := a[j], a[j - 1];
      j := j - 1;
    }
    SinkDone(a[..], config, j, i);
  }

  /** `sortedDentists`: sorts a copy of the list, so the page's own list is untouched. The
      result holds the same records, with keys (missing ones read as `""`) non-decreasing in
      ascending mode and non-increasing in descending mode. */
  method SortedDentists(dentists: seq<Dentist>, config: SortConfig) returns (sorted: seq<Dentist>)
    ensures multiset(sorted) == multiset(dentists)
    ensures SortedBy(sorted, config)
    ensures config.direction == Asc ==>
              forall i, j :: 0 <= i < j < |sorted| ==> !Less(Field(sorted[j], config.key), Field(sorted[i], config.key))
    ensures config.direction == Desc ==>
              forall i, j :: 0 <= i < j < |sorted| ==> !Less(Field(sorted[i], config.key), Field(sorted[j], config.key))
  {
    var sortable := new Dentist[|dentists|](k requires 0 <= k < |dentists| => dentists[k]);
    assert sortable[..] == dentists;
    SortInPlace(sortable, config);
    sorted := sortable[..];
    forall i, j | 0 <= i < j < |sorted|
      ensures config.direction == Asc ==> !Less(Field(sorted[j], config.key), Field(sorted[i], config.key))
      ensures config.direction == Desc ==> !Less(Field(sorted[i], config.key), Field(sorted[j], config.key))
    {
      CompareOrder(config, sorted[i], sorted[j]);
    }
  }

  // ---------------------------------------------------------------------------
  // The form
  // ---------------------------------------------------------------------------

  /** The submit guard: the name, the start of the working hours or their end is missing. */
  predicate MissingRequired(form: DentistForm) {
    form.name == "" || form.availableStart == "" || form.availableEnd == ""
  }

  /** The form filled from a record being edited (`dentist.x || ''`). */
  function FormOf(d: Dentist): (r: DentistForm)
    ensures r.name == d.name && r.email == d.email && r.specialization == d.specialization
    ensures r.availableStart == d.availableStart && r.availableEnd == d.availableEnd
  {
    DentistForm(d.name, d.email, d.specialization, d.availableStart, d.availableEnd)
  }

  /** The request a complete form sends: an update of the record being edited, else a create. */
  function SaveCall(editDentist: Option<Dentist>, form: DentistForm): (r: DentistCall)
    ensures r.form == form
    ensures r.UpdateDentist? <==> editDentist.Some?
    ensures r.UpdateDentist? ==> r.id == editDentist.value.id
  {
    match editDentist
    case Some(d) => UpdateDentist(d.id, form)
    case None => CreateDentist(form)
  }

  /** The state of the dentists page that its handlers change. */
  class DentistsPage {
    var dentists: seq<Dentist>
    var sortConfig: SortConfig
    var formData: DentistForm
    var editDentist: Option<Dentist>
    var formError: string
    var successMessage: string
    var showForm: bool
    /** The create and update requests sent so far, oldest first. */
    var calls: seq<DentistCall>

    constructor ()
      ensures dentists == [] && sortConfig == INITIAL_SORT
      ensures formData == EMPTY_FORM && editDentist == None
      ensures formError == "" && successMessage == "" && !showForm && calls == []
    {
      dentists := [];
      sortConfig := INITIAL_SORT;
      formData := EMPTY_FORM;
      editDentist := None;
      formError := "";
      successMessage := "";
      showForm := false;
      calls := [];
    }

    /** `openForm(dentist)`: the edited record's fields, or an empty form for a new dentist. */
    method OpenForm(dentist: Option<Dentist>)
      modifies this
      ensures formData == (if dentist.Some? then FormOf(dentist.value) else EMPTY_FORM)
      ensures editDentist == dentist && formError == "" && showForm
      ensures dentists == old(dentists) && sortConfig == old(sortConfig)
      ensures successMessage == old(successMessage) && calls == old(calls)
    {
      if dentist.Some? {
        formData := FormOf(dentist.value);
      } else {
        formData := EMPTY_FORM;
      }
      editDentist := dentist;
      formError := "";
      showForm := true;
    }

    /** `requestSort(key)`. */
    method RequestSort(key: SortKey)
      modifies this
      ensures sortConfig == NextSort(old(sortConfig), key)
      ensures dentists == old(dentists) && formData == old(formData) && editDentist == old(editDentist)
      ensures formError == old(formError) && successMessage == old(successMessage)
      ensures showForm == old(showForm) && calls == old(calls)
    {
      var direction := Asc;
      if sortConfig.key == key && sortConfig.direction == Asc {
        direction := Desc;
      }
      sortConfig := SortConfig(key, direction);
    }

    /** `handleSubmit`, given how the request ends: a form missing a required field only sets
        the error and sends nothing; otherwise the update or create is sent, and on success the
        form closes and resets, on failure the server's message (or the fallback) is shown.
        Reloading the list afterwards is not part of this model. */
    method HandleSubmit(outcome: Outcome)
      modifies this
      ensures dentists == old(dentists) && sortConfig == old(sortConfig)
      ensures MissingRequired(old(formData)) ==>
                && formError == FILL_REQUIRED && calls == old(calls)
                && formData == old(formData) && editDentist == old(editDentist)
                && showForm == old(showForm) && successMessage == old(successMessage)
      ensures !MissingRequired(old(formData)) ==>
                calls == old(calls) + [SaveCall(old(editDentist), old(formData))]
      ensures !MissingRequired(old(formData)) && outcome.Saved? ==>
                && !showForm && editDentist == None && formData == EMPTY_FORM && formError == ""
                && successMessage == (if old(editDentist).Some? then DENTIST_UPDATED else DENTIST_ADDED)
      ensures !MissingRequired(old(formData)) && outcome.Failed? ==>
                && formError == FailureText(outcome.message, SAVE_FAILED)
                && formData == old(formData) && editDentist == old(editDentist)
                && showForm == old(showForm) && successMessage == old(successMessage)
    {
      if formData.name == "" || formData.availableStart == "" || formData.availableEnd == "" {
        formError := FILL_REQUIRED;
        return;
      }
      calls := calls + [SaveCall(editDentist, formData)];
      match outcome {
        case Saved =>
          successMessage := if editDentist.Some? then DENTIST_UPDATED else DENTIST_ADDED;
          showForm := false;
          editDentist := None;
          formData := EMPTY_FORM;
          formError := "";
        case Failed(message) =>
          formError := FailureText(message, SAVE_FAILED);
      }
    }

    /** The table as shown: `sortedDentists` for the current list and sort. */
    method SortedView() returns (sorted: seq<Dentist>)
      ensures multiset(sorted) == multiset(dentists)
      ensures SortedBy(sorted, sortConfig)
    {
      sorted := SortedDentists(dentists, sortConfig);
    }
  }
}
