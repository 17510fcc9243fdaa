/** The filter panel: when the "clear all" button shows, and the settings
    its day dropdown and checkboxes write through `onFilterChange`. */
module FilterPanel {
  import opened Options
  import opened Strings
  import opened Seqs
  import opened Dates
  import opened Types
  import opened Filters
  import opened Helpers

  /** The option ids of the day dropdown. */
  const DayOptionIds: seq<string> := ["monday", "tuesday", "wednesday", "thursday", "friday"]

  /** The time-slot checkboxes as (value, label) pairs. */
  const TimeSlotOptions: seq<(string, string)> := [
    ("8", "8-9"), ("9", "9-10"), ("10", "10-11"), ("11", "11-12"),
    ("12", "12-13"), ("13", "13-14"), ("14", "14-15"), ("15", "15-16"),
    ("16", "16-17"), ("17", "17-18"), ("18", "18-19")]

  /** The values of the age-group checkboxes. */
  const AgeGroupOptionValues: seq<string> := ["kind", "teen", "erwachsene"]

  /** Every choice the panel offers is one the filters understand: each day
      id names a weekday field, each slot value resolves to the range its
      box is labelled with, and the age-group values are the labels
      `determineAgeGroup` produces, one per group. */
  lemma PanelOptionsResolve()
    ensures forall k :: 0 <= k < |DayOptionIds| ==> DayField(DayOptionIds[k]).Some?
    ensures forall k :: 0 <= k < |TimeSlotOptions| ==>
      TimeSlotOptions[k].0 in TimeSlotMapping && TimeSlotMapping[TimeSlotOptions[k].0] == TimeSlotOptions[k].1
    ensures forall g: AgeGroup :: AgeGroupLabel(g) in AgeGroupOptionValues
    ensures forall v :: v in AgeGroupOptionValues ==> exists g: AgeGroup :: AgeGroupLabel(g) == v
  {
    DayOptionsResolve();
    SlotOptionsResolve();
    AgeGroupOptionsResolve();
  }

  lemma DayOptionsResolve()
    ensures forall k :: 0 <= k < |DayOptionIds| ==> DayField(DayOptionIds[k]).Some?
  {
    assert Lower("monday") == "monday" && Lower("tuesday") == "tuesday" && Lower("wednesday") == "wednesday"
      && Lower("thursday") == "thursday" && Lower("friday") == "friday";
  }

  lemma SlotOptionsResolve()
    ensures forall k :: 0 <= k < |TimeSlotOptions| ==>
      TimeSlotOptions[k].0 in TimeSlotMapping && TimeSlotMapping[TimeSlotOptions[k].0] == TimeSlotOptions[k].1
  {
  }

  lemma AgeGroupOptionsResolve()
    ensures forall g: AgeGroup :: AgeGroupLabel(g) in AgeGroupOptionValues
    ensures forall v :: v in AgeGroupOptionValues ==> exists g: AgeGroup :: AgeGroupLabel(g) == v
  {
    assert AgeGroupLabel(Kind) == "kind" && AgeGroupLabel(Teen) == "teen" && AgeGroupLabel(Erwachsene) == "erwachsene";
  }

  /** `isAnyFilterActive`: a weekday, a time slot, a home-visit answer or an
      age group is selected, or the search term has a non-blank character.
      The treatment and duplicate settings are not consulted. */
  function IsAnyFilterActive(f: FilterState): (r: bool)
    ensures r <==> Truthy(f.selectedDay) || |f.selectedTimeSlots| > 0 || |f.selectedHomeVisit| > 0
                   || |f.selectedAgeGroups| > 0 || !AllWhitespace(f.searchTerm)
  {
    TrimEmptyIffBlank(f.searchTerm);
    Truthy(f.selectedDay) || |f.selectedTimeSlots| > 0 || |f.selectedHomeVisit| > 0
    || |f.selectedAgeGroups| > 0 || (f.searchTerm != "" && Trim(f.searchTerm) != "")
  }

  /** After `clearFilters` the clear button is hidden. */
  lemma ClearedIsInactive()
    ensures !IsAnyFilterActive(DefaultFilters)
  {
  }

  /** When the panel reports nothing active and the two settings it does
      not show are off, a submission is hidden only by a blank search term,
      and only when it has neither name field. */
  lemma InactivePanelFilter(all: seq<Submission>, f: FilterState, parse: DateParser, today: CalendarDate, x: Submission)
    requires !IsAnyFilterActive(f) && f.selectedTreatment == [] && !f.showDuplicatesOnly
    ensures Keep(f, all, parse, today, x) <==>
      f.searchTerm == "" || x.answers.name1.Some? || x.answers.vorname.Some?
  {
    if f.searchTerm != "" {
      BlankSearchNeedsNameField(f, x);
    }
  }

  /** A checkbox change: a checked value is appended, an unchecked value is
      removed wherever it occurs and the rest keep their order. */
  function Toggle(current: seq<string>, value: string, checked: bool): (r: seq<string>)
    ensures checked ==> r == current + [value]
    ensures !checked ==> value !in r && IsSubsequence(r, current)
    ensures !checked ==> forall v :: v in current && v != value ==> v in r
    ensures !checked ==> forall v :: v != value ==> Count(r, v) == Count(current, v)
  {
    if checked then current + [value]
    else
      FilterIsSubsequence(current, v => v != value);
      FilterCounts(current, v => v != value);
      FilterSeq(current, v => v != value)
  }

  /** Unchecking a value that checking added restores the list. */
  lemma {:induction false} ToggleRoundTrip(current: seq<string>, value: string)
    requires value !in current
    ensures Toggle(Toggle(current, value, true), value, false) == current
  {
    var p := (v: string) => v != value;
    FilterAllKept(current, p);
    FilterAppendRejected(current, value, p);
  }

  lemma {:induction false} FilterAppendRejected(s: seq<string>, value: string, p: string -> bool)
    requires !p(value)
    ensures FilterSeq(s + [value], p) == FilterSeq(s, p)
  {
    if s != [] {
      assert (s + [value])[1..] == s[1..] + [value];
      FilterAppendRejected(s[1..], value, p);
    } else {
      assert FilterSeq([value], p) == FilterSeq([value][1..], p);
    }
  }

  /** `handleTimeSlotChange`: the slot list takes the toggled list, so the
      value is selected exactly when its box is checked; nothing else changes. */
  function HandleTimeSlotChange(f: FilterState, value: string, checked: bool): (u: FilterUpdate)
    ensures var g := ApplyUpdate(f, u);
      g.selectedTimeSlots == Toggle(f.selectedTimeSlots, value, checked)
      && (value in g.selectedTimeSlots <==> checked)
      && forall k :: k != TimeSlotsKey ==> SameAt(g, f, k)
  {
    SetTimeSlots(Toggle(f.selectedTimeSlots, value, checked))
  }

  /** `handleHomeVisitChange`, the same for the home-visit answers. */
  function HandleHomeVisitChange(f: FilterState, value: string, checked: bool): (u: FilterUpdate)
    ensures var g := ApplyUpdate(f, u);
      g.selectedHomeVisit == Toggle(f.selectedHomeVisit, value, checked)
      && (value in g.selectedHomeVisit <==> checked)
      && forall k :: k != HomeVisitKey ==> SameAt(g, f, k)
  {
    SetHomeVisit(Toggle(f.selectedHomeVisit, value, checked))
  }

  /** `handleAgeGroupChange`, the same for the age groups. */
  function HandleAgeGroupChange(f: FilterState, value: string, checked: bool): (u: FilterUpdate)
    ensures var g := ApplyUpdate(f, u);
      g.selectedAgeGroups == Toggle(f.selectedAgeGroups, value, checked)
      && (value in g.selectedAgeGroups <==> checked)
      && forall k :: k != AgeGroupsKey ==> SameAt(g, f, k)
  {
    SetAgeGroups(Toggle(f.selectedAgeGroups, value, checked))
  }

  /** The day dropdown's `onSelect`: the chosen option id, or `null` when
      nothing (or an empty id) is chosen, so an empty day is never stored. */
  function DaySelect(f: FilterState, optionId: Option<string>): (u: FilterUpdate)
    ensures var g := ApplyUpdate(f, u);
      (g.selectedDay.Some? ==> g.selectedDay == optionId && g.selectedDay.value != "")
      && (Truthy(optionId) ==> g.selectedDay == optionId)
      && (Truthy(g.selectedDay) <==> Truthy(optionId))
      && forall k :: k != DayKey ==> SameAt(g, f, k)
  {
    SetDay(if Truthy(optionId) then optionId else None)
  }
}
