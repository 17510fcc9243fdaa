/** The filter hook: filter settings, the passes that narrow the submission
    list (search, weekday, time slots, home visit, treatment, age group,
    duplicate names), and the state updates `updateFilter`/`clearFilters`. */
module Filters {
  import opened Options
  import opened Strings
  import opened Seqs
  import opened Dates
  import opened Types
  import opened Helpers

  /** Time-slot option ids to the hour ranges stored in the weekday fields. */
  const TimeSlotMapping: map<string, string> := map[
    "8" := "8-9", "9" := "9-10", "10" := "10-11", "11" := "11-12",
    "12" := "12-13", "13" := "13-14", "14" := "14-15", "15" := "15-16",
    "16" := "16-17", "17" := "17-18", "18" := "18-19"]

  /** English weekday keys to the German weekday fields. */
  const DayFieldMapping: map<string, Weekday> := map[
    "monday" := Montag, "tuesday" := Dienstag, "wednesday" := Mittwoch,
    "thursday" := Donnerstag, "friday" := Freitag]

  /** The settings the hook starts with and `clearFilters` restores. */
  const DefaultFilters: FilterState := FilterState(None, [], [], [], [], "", false)

  /** The weekday field a day key selects, found after lowercasing the key. */
  function DayField(day: string): (r: Option<Weekday>)
    ensures r.Some? <==> Lower(day) in DayFieldMapping
  {
    Lookup(DayFieldMapping, Lower(day))
  }

  /** An availability list, `[]` when the field is missing. */
  function AvailabilityOrEmpty(a: Answers, d: Option<Weekday>): seq<string> {
    match d
    case None => []
    case Some(w) => if DayAvailability(a, w).Some? then DayAvailability(a, w).value else []
  }

  /** Every selected slot is known and its hour range is in `avail`. */
  predicate CoversSlots(avail: seq<string>, slots: seq<string>) {
    forall k :: 0 <= k < |slots| ==> slots[k] in TimeSlotMapping && TimeSlotMapping[slots[k]] in avail
  }

  // ----- the passes -----

  /** A name field that contains the search term once lowercased. */
  predicate FieldMatches(o: Option<string>, term: string) {
    o.Some? && Includes(Lower(o.value), term)
  }

  predicate PassSearch(f: FilterState, x: Submission) {
    if f.searchTerm == "" then true
    else
      var term := Trim(Lower(f.searchTerm));
      FieldMatches(x.answers.name1, term) || FieldMatches(x.answers.vorname, term)
  }

  predicate PassDay(f: FilterState, x: Submission) {
    if !Truthy(f.selectedDay) then true
    else if x.answers.flexible then true
    else match DayField(f.selectedDay.value)
      case None => false
      case Some(w) => DayAvailability(x.answers, w).Some? && |DayAvailability(x.answers, w).value| > 0
  }

  predicate PassTimeSlots(f: FilterState, x: Submission) {
    if |f.selectedTimeSlots| == 0 then true
    else if x.answers.flexible then true
    else if !Truthy(f.selectedDay) then
      CoversSlots(AvailabilityOrEmpty(x.answers, Some(Montag)), f.selectedTimeSlots)
      || CoversSlots(AvailabilityOrEmpty(x.answers, Some(Dienstag)), f.selectedTimeSlots)
      || CoversSlots(AvailabilityOrEmpty(x.answers, Some(Mittwoch)), f.selectedTimeSlots)
      || CoversSlots(AvailabilityOrEmpty(x.answers, Some(Donnerstag)), f.selectedTimeSlots)
      || CoversSlots(AvailabilityOrEmpty(x.answers, Some(Freitag)), f.selectedTimeSlots)
    else CoversSlots(AvailabilityOrEmpty(x.answers, DayField(f.selectedDay.value)), f.selectedTimeSlots)
  }

  /** A non-empty answer equal, ignoring case, to one of the selected values. */
  predicate AnswerSelected(answer: Option<string>, selected: seq<string>) {
    Truthy(answer) && exists k :: 0 <= k < |selected| && Lower(answer.value) == Lower(selected[k])
  }

  predicate PassHomeVisit(f: FilterState, x: Submission) {
    |f.selectedHomeVisit| == 0 || AnswerSelected(x.answers.hausbesuchVerordnet, f.selectedHomeVisit)
  }

  predicate PassTreatment(f: FilterState, x: Submission) {
    |f.selectedTreatment| == 0 || AnswerSelected(x.answers.schonInBehandlung, f.selectedTreatment)
  }

  predicate PassAgeGroup(f: FilterState, parse: DateParser, today: CalendarDate, x: Submission) {
    if |f.selectedAgeGroups| == 0 then true
    else
      var g := DetermineAgeGroup(x.answers.geburtsdatum, parse, today);
      g.Some? && AgeGroupLabel(g.value) in f.selectedAgeGroups
  }

  /** The duplicate-name key: first name, a space, last name, lowercased and trimmed. */
  function NameKey(x: Submission): string {
    Trim(Lower(OrEmpty(x.answers.vorname) + " " + OrEmpty(x.answers.name1)))
  }

  /** The name keys of a list of submissions, position by position. */
  function NameKeys(s: seq<Submission>): (keys: seq<string>)
    ensures |keys| == |s| && forall i :: 0 <= i < |s| ==> keys[i] == NameKey(s[i])
  {
    seq(|s|, i requires 0 <= i < |s| => NameKey(s[i]))
  }

  /** How many submissions of `s` have the name key `key`. */
  function NameCount(s: seq<Submission>, key: string): nat {
    Count(NameKeys(s), key)
  }

  predicate PassDuplicates(f: FilterState, all: seq<Submission>, x: Submission) {
    !f.showDuplicatesOnly || (NameKey(x) != "" && NameCount(all, NameKey(x)) > 1)
  }

  /** A submission shown under the settings `f`. */
  predicate Keep(f: FilterState, all: seq<Submission>, parse: DateParser, today: CalendarDate, x: Submission) {
    PassSearch(f, x) && PassDay(f, x) && PassTimeSlots(f, x) && PassHomeVisit(f, x)
    && PassTreatment(f, x) && PassAgeGroup(f, parse, today, x) && PassDuplicates(f, all, x)
  }

  function KeepFn(f: FilterState, all: seq<Submission>, parse: DateParser, today: CalendarDate): Submission -> bool {
    x => Keep(f, all, parse, today, x)
  }

  /** `filteredSubmissions` as one filter: the submissions kept by every pass, in their order. */
  function FilterSubmissions(all: seq<Submission>, f: FilterState, parse: DateParser, today: CalendarDate): (r: seq<Submission>)
    ensures forall x :: x in r <==> x in all && Keep(f, all, parse, today, x)
    ensures IsSubsequence(r, all)
  {
    FilterIsSubsequence(all, KeepFn(f, all, parse, today));
    FilterSeq(all, KeepFn(f, all, parse, today))
  }

  // ----- counting names -----

  /** The first pass of the duplicate filter: counts of the non-empty name keys. */
  method CountNames(all: seq<Submission>) returns (counts: map<string, nat>)
    ensures forall k :: k in counts <==> k != "" && NameCount(all, k) > 0
    ensures forall k :: k in counts ==> counts[k] == NameCount(all, k)
  {
    ghost var keys := NameKeys(all);
    counts := map[];
    var i := 0;
    while i < |all|
      invariant 0 <= i <= |all|
      invariant CountsOf(counts, keys[..i])
    {
      CountsExtend(counts, keys, i);
      counts := AddName(counts, NameKey(all[i]));
      i := i + 1;
    }
    assert keys[..|all|] == keys;
    CountsOfAll(all, counts);
  }

  lemma CountsOfAll(all: seq<Submission>, counts: map<string, nat>)
    requires CountsOf(counts, NameKeys(all))
    ensures forall k :: k in counts <==> k != "" && NameCount(all, k) > 0
    ensures forall k :: k in counts ==> counts[k] == NameCount(all, k)
  {
  }

  /** `counts` holds the counts of the non-empty keys of `prefix`, and only those. */
  ghost predicate CountsOf(counts: map<string, nat>, prefix: seq<string>) {
    && (forall k :: k in counts <==> k != "" && Count(prefix, k) > 0)
    && (forall k :: k in counts ==> counts[k] == Count(prefix, k))
  }

  /** One step of the counting loop: a non-empty key's count goes up by one. */
  function AddName(counts: map<string, nat>, key: string): map<string, nat> {
    if key != "" then counts[key := Lookup(counts, key).GetOr(0) + 1] else counts
  }

  lemma CountsExtend(counts: map<string, nat>, keys: seq<string>, i: int)
    requires 0 <= i < |keys| && CountsOf(counts, keys[..i])
    ensures CountsOf(AddName(counts, keys[i]), keys[..i + 1])
  {
    CountStep(keys, i);
  }

  /** The second pass of the duplicate filter, reading the counts. */
  predicate CountedTwice(counts: map<string, nat>, x: Submission) {
    NameKey(x) != "" && Lookup(counts, NameKey(x)).GetOr(0) > 1
  }

  /** The passes up to and including the named one. */
  predicate UpToDay(f: FilterState, x: Submission) {
    PassSearch(f, x) && PassDay(f, x)
  }

  predicate UpToTimeSlots(f: FilterState, x: Submission) {
    UpToDay(f, x) && PassTimeSlots(f, x)
  }

  predicate UpToHomeVisit(f: FilterState, x: Submission) {
    UpToTimeSlots(f, x) && PassHomeVisit(f, x)
  }

  predicate UpToTreatment(f: FilterState, x: Submission) {
    UpToHomeVisit(f, x) && PassTreatment(f, x)
  }

  predicate UpToAgeGroup(f: FilterState, parse: DateParser, today: CalendarDate, x: Submission) {
    UpToTreatment(f, x) && PassAgeGroup(f, parse, today, x)
  }

  /** The passes and their running conjunctions as predicate values. */
  function SearchFn(f: FilterState): Submission -> bool { x => PassSearch(f, x) }
  function DayFn(f: FilterState): Submission -> bool { x => PassDay(f, x) }
  function TimeSlotsFn(f: FilterState): Submission -> bool { x => PassTimeSlots(f, x) }
  function HomeVisitFn(f: FilterState): Submission -> bool { x => PassHomeVisit(f, x) }
  function TreatmentFn(f: FilterState): Submission -> bool { x => PassTreatment(f, x) }
  function AgeGroupFn(f: FilterState, parse: DateParser, today: CalendarDate): Submission -> bool {
    x => PassAgeGroup(f, parse, today, x)
  }
  function CountedTwiceFn(counts: map<string, nat>): Submission -> bool { x => CountedTwice(counts, x) }
  function UpToDayFn(f: FilterState): Submission -> bool { x => UpToDay(f, x) }
  function UpToTimeSlotsFn(f: FilterState): Submission -> bool { x => UpToTimeSlots(f, x) }
  function UpToHomeVisitFn(f: FilterState): Submission -> bool { x => UpToHomeVisit(f, x) }
  function UpToTreatmentFn(f: FilterState): Submission -> bool { x => UpToTreatment(f, x) }
  function UpToAgeGroupFn(f: FilterState, parse: DateParser, today: CalendarDate): Submission -> bool {
    x => UpToAgeGroup(f, parse, today, x)
  }

  /** One guarded pass: applied when its setting is active, skipped when the
      pass would keep everything anyway; either way the list grows by one
      conjunct of the overall filter. */
  lemma PassStep<T>(all: seq<T>, cur: seq<T>, before: T -> bool, pass: T -> bool, after: T -> bool, active: bool)
    requires cur == FilterSeq(all, before)
    requires forall x :: x in all ==> after(x) == (before(x) && pass(x))
    requires !active ==> forall x :: x in all ==> pass(x)
    ensures (if active then FilterSeq(cur, pass) else cur) == FilterSeq(all, after)
  {
    if active {
      FilterThen(all, before, pass, after);
    } else {
      FilterSame(all, before, after);
    }
  }

  lemma SearchStep(all: seq<Submission>, f: FilterState)
    ensures (if f.searchTerm != "" then FilterSeq(all, SearchFn(f)) else all) == FilterSeq(all, SearchFn(f))
  {
    if f.searchTerm == "" {
      FilterAllKept(all, SearchFn(f));
    }
  }

  lemma DayStep(all: seq<Submission>, f: FilterState, cur: seq<Submission>)
    requires cur == FilterSeq(all, SearchFn(f))
    ensures (if Truthy(f.selectedDay) then FilterSeq(cur, DayFn(f)) else cur) == FilterSeq(all, UpToDayFn(f))
  {
    PassStep(all, cur, SearchFn(f), DayFn(f), UpToDayFn(f), Truthy(f.selectedDay));
  }

  lemma TimeSlotsStep(all: seq<Submission>, f: FilterState, cur: seq<Submission>)
    requires cur == FilterSeq(all, UpToDayFn(f))
    ensures (if |f.selectedTimeSlots| > 0 then FilterSeq(cur, TimeSlotsFn(f)) else cur) == FilterSeq(all, UpToTimeSlotsFn(f))
  {
    PassStep(all, cur, UpToDayFn(f), TimeSlotsFn(f), UpToTimeSlotsFn(f), |f.selectedTimeSlots| > 0);
  }

  lemma HomeVisitStep(all: seq<Submission>, f: FilterState, cur: seq<Submission>)
    requires cur == FilterSeq(all, UpToTimeSlotsFn(f))
    ensures (if |f.selectedHomeVisit| > 0 then FilterSeq(cur, HomeVisitFn(f)) else cur) == FilterSeq(all, UpToHomeVisitFn(f))
  {
    PassStep(all, cur, UpToTimeSlotsFn(f), HomeVisitFn(f), UpToHomeVisitFn(f), |f.selectedHomeVisit| > 0);
  }

  lemma TreatmentStep(all: seq<Submission>, f: FilterState, cur: seq<Submission>)
    requires cur == FilterSeq(all, UpToHomeVisitFn(f))
    ensures (if |f.selectedTreatment| > 0 then FilterSeq(cur, TreatmentFn(f)) else cur) == FilterSeq(all, UpToTreatmentFn(f))
  {
    PassStep(all, cur, UpToHomeVisitFn(f), TreatmentFn(f), UpToTreatmentFn(f), |f.selectedTreatment| > 0);
  }

  lemma AgeGroupStep(all: seq<Submission>, f: FilterState, parse: DateParser, today: CalendarDate, cur: seq<Submission>)
    requires cur == FilterSeq(all, UpToTreatmentFn(f))
    ensures (if |f.selectedAgeGroups| > 0 then FilterSeq(cur, AgeGroupFn(f, parse, today)) else cur)
      == FilterSeq(all, UpToAgeGroupFn(f, parse, today))
  {
    PassStep(all, cur, UpToTreatmentFn(f), AgeGroupFn(f, parse, today), UpToAgeGroupFn(f, parse, today), |f.selectedAgeGroups| > 0);
  }

  /** With the counts of the whole list, the second duplicate pass completes the filter. */
  lemma DuplicatesStep(all: seq<Submission>, f: FilterState, parse: DateParser, today: CalendarDate,
                       cur: seq<Submission>, counts: map<string, nat>)
    requires cur == FilterSeq(all, UpToAgeGroupFn(f, parse, today))
    requires f.showDuplicatesOnly ==> forall k :: k in counts <==> k != "" && NameCount(all, k) > 0
    requires f.showDuplicatesOnly ==> forall k :: k in counts ==> counts[k] == NameCount(all, k)
    ensures (if f.showDuplicatesOnly then FilterSeq(cur, CountedTwiceFn(counts)) else cur) == FilterSubmissions(all, f, parse, today)
  {
    var pass := if f.showDuplicatesOnly then CountedTwiceFn(counts) else (x => true);
    forall x | x in all
      ensures KeepFn(f, all, parse, today)(x) == (UpToAgeGroupFn(f, parse, today)(x) && pass(x))
    {
      assert pass(x) == PassDuplicates(f, all, x);
    }
    PassStep(all, cur, UpToAgeGroupFn(f, parse, today), pass, KeepFn(f, all, parse, today), f.showDuplicatesOnly);
  }

  /** `filteredSubmissions`: the passes one after another, each only when its
      setting is active, as the memoised computation does them. */
  method FilteredSubmissions(all: seq<Submission>, f: FilterState, parse: DateParser, today: CalendarDate)
    returns (filtered: seq<Submission>)
    ensures filtered == FilterSubmissions(all, f, parse, today)
  {
    filtered := all;
    SearchStep(all, f);
    if f.searchTerm != "" {
      filtered := FilterSeq(filtered, SearchFn(f));
    }
    DayStep(all, f, filtered);
    if Truthy(f.selectedDay) {
      filtered := FilterSeq(filtered, DayFn(f));
    }
    TimeSlotsStep(all, f, filtered);
    if |f.selectedTimeSlots| > 0 {
      filtered := FilterSeq(filtered, TimeSlotsFn(f));
    }
    HomeVisitStep(all, f, filtered);
    if |f.selectedHomeVisit| > 0 {
      filtered := FilterSeq(filtered, HomeVisitFn(f));
    }
    TreatmentStep(all, f, filtered);
    if |f.selectedTreatment| > 0 {
      filtered := FilterSeq(filtered, TreatmentFn(f));
    }
    AgeGroupStep(all, f, parse, today, filtered);
    if |f.selectedAgeGroups| > 0 {
      filtered := FilterSeq(filtered, AgeGroupFn(f, parse, today));
    }
    if f.showDuplicatesOnly {
      var counts := CountNames(all);
      DuplicatesStep(all, f, parse, today, filtered, counts);
      filtered := FilterSeq(filtered, CountedTwiceFn(counts));
    } else {
      DuplicatesStep(all, f, parse, today, filtered, map[]);
    }
  }

  // ----- properties of the filters -----

  /** With the default settings every submission is shown. */
  lemma ClearedShowsAll(all: seq<Submission>, parse: DateParser, today: CalendarDate)
    ensures FilterSubmissions(all, DefaultFilters, parse, today) == all
  {
    FilterAllKept(all, KeepFn(all := all, f := DefaultFilters, parse := parse, today := today));
  }

  /** A flexible patient passes the weekday and time-slot filters whatever they select. */
  lemma FlexiblePassesSchedule(f: FilterState, x: Submission)
    requires x.answers.flexible
    ensures PassDay(f, x) && PassTimeSlots(f, x)
  {
  }

  /** A search term of only whitespace becomes empty after trimming and then
      matches every submission that has a last or a first name field at all,
      even an empty one. */
  lemma {:induction false} BlankSearchNeedsNameField(f: FilterState, x: Submission)
    requires f.searchTerm != "" && AllWhitespace(f.searchTerm)
    ensures PassSearch(f, x) <==> x.answers.name1.Some? || x.answers.vorname.Some?
  {
    LowerKeepsBlank(f.searchTerm);
    TrimEmptyIffBlank(Lower(f.searchTerm));
    if x.answers.name1.Some? {
      assert OccursAt(Lower(x.answers.name1.value), [], 0);
    }
    if x.answers.vorname.Some? {
      assert OccursAt(Lower(x.answers.vorname.value), [], 0);
    }
  }

  /** With the duplicate filter on, a shown submission shares its non-empty
      name key with another submission of the full list. */
  lemma ShownDuplicateHasTwin(all: seq<Submission>, f: FilterState, parse: DateParser, today: CalendarDate, x: Submission)
    requires f.showDuplicatesOnly && x in FilterSubmissions(all, f, parse, today)
    ensures NameKey(x) != ""
    ensures exists i, j :: 0 <= i < j < |all| && NameKey(all[i]) == NameKey(x) && NameKey(all[j]) == NameKey(x)
  {
    CountTwice(NameKeys(all), NameKey(x));
  }

  /** With the duplicate filter on, a submission of the list is shown exactly
      when it passes the other filters and its non-empty name key sits at two
      different positions of the unfiltered list. */
  lemma DuplicateFilterMeaning(all: seq<Submission>, f: FilterState, parse: DateParser, today: CalendarDate, x: Submission)
    requires f.showDuplicatesOnly && x in all
    ensures x in FilterSubmissions(all, f, parse, today) <==>
      UpToAgeGroup(f, parse, today, x) && NameKey(x) != ""
      && exists i, j :: 0 <= i < j < |all| && NameKey(all[i]) == NameKey(x) && NameKey(all[j]) == NameKey(x)
  {
    var keys := NameKeys(all);
    assert x in FilterSubmissions(all, f, parse, today) <==>
      UpToAgeGroup(f, parse, today, x) && NameKey(x) != "" && Count(keys, NameKey(x)) > 1;
    CountTwice(keys, NameKey(x));
    assert (exists i, j :: 0 <= i < j < |keys| && keys[i] == NameKey(x) && keys[j] == NameKey(x))
       <==> (exists i, j :: 0 <= i < j < |all| && NameKey(all[i]) == NameKey(x) && NameKey(all[j]) == NameKey(x));
  }

  /** With a known weekday selected, the day pass keeps the flexible
      patients and those who gave a non-empty list for that day. */
  lemma DayFilterMeaning(f: FilterState, d: string, x: Submission, w: Weekday)
    requires f.selectedDay == Some(d) && d != "" && DayField(d) == Some(w)
    ensures PassDay(f, x) <==> x.answers.flexible || |AvailabilityOrEmpty(x.answers, Some(w))| > 0
  {
  }

  // ----- updating the settings -----

  /** The seven keys of the filter settings. */
  datatype FilterKey = DayKey | TimeSlotsKey | HomeVisitKey | AgeGroupsKey | TreatmentKey | SearchKey | DuplicatesKey

  /** `updateFilter(key, value)`, one constructor per key. */
  datatype FilterUpdate =
    | SetDay(day: Option<string>)
    | SetTimeSlots(slots: seq<string>)
    | SetHomeVisit(homeVisit: seq<string>)
    | SetAgeGroups(ageGroups: seq<string>)
    | SetTreatment(treatment: seq<string>)
    | SetSearchTerm(term: string)
    | SetShowDuplicates(show: bool)

  function KeyOf(u: FilterUpdate): FilterKey {
    match u
    case SetDay(_) => DayKey
    case SetTimeSlots(_) => TimeSlotsKey
    case SetHomeVisit(_) => HomeVisitKey
    case SetAgeGroups(_) => AgeGroupsKey
    case SetTreatment(_) => TreatmentKey
    case SetSearchTerm(_) => SearchKey
    case SetShowDuplicates(_) => DuplicatesKey
  }

  /** `f` and `g` hold the same value under key `k`. */
  predicate SameAt(f: FilterState, g: FilterState, k: FilterKey) {
    match k
    case DayKey => f.selectedDay == g.selectedDay
    case TimeSlotsKey => f.selectedTimeSlots == g.selectedTimeSlots
    case HomeVisitKey => f.selectedHomeVisit == g.selectedHomeVisit
    case AgeGroupsKey => f.selectedAgeGroups == g.selectedAgeGroups
    case TreatmentKey => f.selectedTreatment == g.selectedTreatment
    case SearchKey => f.searchTerm == g.searchTerm
    case DuplicatesKey => f.showDuplicatesOnly == g.showDuplicatesOnly
  }

  /** `f` holds the value that `u` writes. */
  predicate Written(f: FilterState, u: FilterUpdate) {
    match u
    case SetDay(v) => f.selectedDay == v
    case SetTimeSlots(v) => f.selectedTimeSlots == v
    case SetHomeVisit(v) => f.selectedHomeVisit == v
    case SetAgeGroups(v) => f.selectedAgeGroups == v
    case SetTreatment(v) => f.selectedTreatment == v
    case SetSearchTerm(v) => f.searchTerm == v
    case SetShowDuplicates(v) => f.showDuplicatesOnly == v
  }

  /** `{ ...prev, [key]: value }`: the named key takes the value; every other key keeps its value. */
  function ApplyUpdate(f: FilterState, u: FilterUpdate): (r: FilterState)
    ensures Written(r, u)
    ensures forall k :: k != KeyOf(u) ==> SameAt(r, f, k)
  {
    match u
    case SetDay(v) => f.(selectedDay := v)
    case SetTimeSlots(v) => f.(selectedTimeSlots := v)
    case SetHomeVisit(v) => f.(selectedHomeVisit := v)
    case SetAgeGroups(v) => f.(selectedAgeGroups := v)
    case SetTreatment(v) => f.(selectedTreatment := v)
    case SetSearchTerm(v) => f.(searchTerm := v)
    case SetShowDuplicates(v) => f.(showDuplicatesOnly := v)
  }

  /** Settings agreeing on every key are the same settings. */
  lemma SameEverywhere(f: FilterState, g: FilterState)
    requires forall k :: SameAt(f, g, k)
    ensures f == g
  {
    assert SameAt(f, g, DayKey) && SameAt(f, g, TimeSlotsKey) && SameAt(f, g, HomeVisitKey)
      && SameAt(f, g, AgeGroupsKey) && SameAt(f, g, TreatmentKey) && SameAt(f, g, SearchKey)
      && SameAt(f, g, DuplicatesKey);
  }

  /** Writing the same key twice keeps the second value. */
  lemma UpdateOverwrites(f: FilterState, u: FilterUpdate, v: FilterUpdate)
    requires KeyOf(u) == KeyOf(v)
    ensures ApplyUpdate(ApplyUpdate(f, u), v) == ApplyUpdate(f, v)
  {
  }

  /** Updates of different keys commute. */
  lemma UpdatesCommute(f: FilterState, u: FilterUpdate, v: FilterUpdate)
    requires KeyOf(u) != KeyOf(v)
    ensures ApplyUpdate(ApplyUpdate(f, u), v) == ApplyUpdate(ApplyUpdate(f, v), u)
  {
  }

  /** The state of the filter hook. */
  class FilterHook {
    var filters: FilterState

    constructor()
      ensures filters == DefaultFilters
    {
      filters := DefaultFilters;
    }

    /** `updateFilter(key, value)`. */
    method UpdateFilter(u: FilterUpdate)
      modifies this
      ensures filters == ApplyUpdate(old(filters), u)
    {
      filters := ApplyUpdate(filters, u);
    }

    /** `clearFilters()`: back to the starting settings. */
    method ClearFilters()
      modifies this
      ensures filters == DefaultFilters
    {
      filters := DefaultFilters;
    }
  }
}
