/** The date helpers of the dashboard: German date formatting, age text,
    age groups and the waiting time of the oldest submission. The current
    date (`new Date()`) is the parameter `today`; `new Date(text)` is the
    parameter `parse`. */
module Helpers {
  import opened Options
  import opened Strings
  import opened Dates
  import opened Types

  /** The text shown for a date that does not parse. */
  const InvalidDateText: string := "Ung\U{FC}ltiges Datum"

  // ----- formatToGermanDate -----

  /** `formatToGermanDate`: `dd.mm.yyyy`, or the invalid-date text. */
  function FormatToGermanDate(s: string, parse: DateParser): (r: string)
    ensures NewDate(parse, s).None? ==> r == InvalidDateText
    ensures NewDate(parse, s).Some? ==> |r| >= 7 && r[2] == '.' && r[5] == '.'
  {
    match NewDate(parse, s)
    case None => InvalidDateText
    case Some(d) => GermanDate(d)
  }

  function GermanDate(d: CalendarDate): string {
    Pad2(d.day) + "." + Pad2(d.month) + "." + IntToString(d.year)
  }

  /** The German text of a date splits at its dots into day, month and year,
      and reads back to the same date. */
  lemma GermanDateFields(d: CalendarDate)
    ensures Split(GermanDate(d), '.') == [Pad2(d.day), Pad2(d.month), IntToString(d.year)]
    ensures d.year >= 0 ==> ParseNat(IntToString(d.year)) == Some(d.year)
    ensures ParseNat(Pad2(d.day)) == Some(d.day) && ParseNat(Pad2(d.month)) == Some(d.month)
  {
    var dd, mm, yy := Pad2(d.day), Pad2(d.month), IntToString(d.year);
    assert '.' !in dd && '.' !in mm && '.' !in yy by {
      assert !IsDigit('.');
    }
    assert GermanDate(d) == dd + ['.'] + (mm + ['.'] + yy);
    SplitAppend(dd, '.', mm + ['.'] + yy);
    SplitAppend(mm, '.', yy);
    SplitNoSeparator(yy, '.');
    if d.year >= 0 { ParseNatToString(d.year); }
  }

  // ----- age -----

  /** The birthday of `b` has not yet come in the year of `t`. */
  predicate BeforeBirthday(b: Date, t: Date) {
    t.month < b.month || (t.month == b.month && t.day < b.day)
  }

  /** Completed years from birth date `b` to date `t`: the anniversary of
      that many years is at or before `t`, the next one is after it. */
  function AgeInYears(b: Date, t: Date): (r: int)
    ensures DateAtOrBefore(Date(b.year + r, b.month, b.day), t)
    ensures DateBefore(t, Date(b.year + r + 1, b.month, b.day))
    ensures r == t.year - b.year || r == t.year - b.year - 1
  {
    t.year - b.year - (if BeforeBirthday(b, t) then 1 else 0)
  }

  /** Only one number of years fits between two anniversaries. */
  lemma AgeInYearsUnique(b: Date, t: Date, k: int)
    requires DateAtOrBefore(Date(b.year + k, b.month, b.day), t)
    requires DateBefore(t, Date(b.year + k + 1, b.month, b.day))
    ensures k == AgeInYears(b, t)
  {
  }

  /** The `years` and `months` that `calculateAge` prints. */
  datatype AgeParts = AgeParts(years: int, months: int)

  /** The age as `calculateAge` computes it: `years` is the completed years;
      `months` is the month distance, borrowed from a year when the birthday
      is still to come. A birthday later this month gives 12 months. */
  function AgeDifference(b: CalendarDate, t: CalendarDate): (r: AgeParts)
    ensures r.years == AgeInYears(b, t)
    ensures 0 <= r.months <= 12
    ensures r.months == 12 <==> (t.month == b.month && t.day < b.day)
    ensures 12 * r.years + r.months == 12 * (t.year - b.year) + (t.month - b.month)
  {
    var years := t.year - b.year;
    var months := t.month - b.month;
    if months < 0 || (months == 0 && t.day < b.day) then AgeParts(years - 1, months + 12)
    else AgeParts(years, months)
  }

  /** `calculateAge`: "<years> Jahre, <months> Mo", or the invalid-date text. */
  function CalculateAge(birth: string, parse: DateParser, today: CalendarDate): (r: string)
    ensures r == InvalidDateText <==> NewDate(parse, birth).None?
    ensures NewDate(parse, birth).Some? ==>
      var p := AgeDifference(NewDate(parse, birth).value, today);
      r == IntToString(p.years) + " Jahre, " + IntToString(p.months) + " Mo"
  {
    match NewDate(parse, birth)
    case None => InvalidDateText
    case Some(b) =>
      var p := AgeDifference(b, today);
      var y := IntToString(p.years);
      var r := y + " Jahre, " + IntToString(p.months) + " Mo";
      assert r[0] == y[0];
      assert r[0] != InvalidDateText[0] by {
        if p.years < 0 { assert y[0] == '-'; } else { assert IsDigit(y[0]); }
      }
      r
  }

  // ----- age groups -----

  datatype AgeGroup = Kind | Teen | Erwachsene

  /** The option id of an age group. */
  function AgeGroupLabel(g: AgeGroup): (r: string)
    ensures r == "kind" <==> g == Kind
    ensures r == "teen" <==> g == Teen
    ensures r == "erwachsene" <==> g == Erwachsene
  {
    match g
    case Kind => "kind"
    case Teen => "teen"
    case Erwachsene => "erwachsene"
  }

  /** The group of an age in years: up to 12, 13 to 17, 18 to 120, none above. */
  function AgeGroupOf(age: int): (r: Option<AgeGroup>)
    ensures r == Some(Kind) <==> age <= 12
    ensures r == Some(Teen) <==> 13 <= age <= 17
    ensures r == Some(Erwachsene) <==> 18 <= age <= 120
    ensures r == None <==> age > 120
  {
    if age <= 12 then Some(Kind)
    else if age <= 17 then Some(Teen)
    else if age <= 120 then Some(Erwachsene)
    else None
  }

  /** `determineAgeGroup`: no group for a missing, empty or invalid birth
      date; otherwise the group of the completed years. */
  function DetermineAgeGroup(birth: Option<string>, parse: DateParser, today: CalendarDate): (r: Option<AgeGroup>)
    ensures birth.None? ==> r == None
    ensures birth.Some? && NewDate(parse, birth.value).None? ==> r == None
    ensures birth.Some? && NewDate(parse, birth.value).Some? ==>
      r == AgeGroupOf(AgeInYears(NewDate(parse, birth.value).value, today))
  {
    match birth
    case None => None
    case Some(text) =>
      if text == "" then None
      else match NewDate(parse, text)
        case None => None
        case Some(b) => AgeGroupOf(AgeInYears(b, today))
  }

  // ----- waiting time -----

  /** The date text of a submission: `date_5bd8`, or else `_createdDate`. */
  function DateText(s: Submission): (r: string)
    ensures s.answers.date5bd8.Some? && s.answers.date5bd8.value != "" ==> r == s.answers.date5bd8.value
    ensures s.answers.date5bd8.None? || s.answers.date5bd8 == Some("") ==> r == s.createdDate
  {
    match s.answers.date5bd8
    case Some(d) => if d != "" then d else s.createdDate
    case None => s.createdDate
  }

  function SubmissionDate(s: Submission, parse: DateParser): Option<CalendarDate> {
    NewDate(parse, DateText(s))
  }

  /** `new Date(x) < new Date(y)`: false when either is an invalid date. */
  predicate EarlierDate(x: Option<CalendarDate>, y: Option<CalendarDate>) {
    x.Some? && y.Some? && DayNumber(x.value) < DayNumber(y.value)
  }

  /** One step of the reduce that looks for the oldest submission. */
  function ReduceStep(oldest: Submission, s: Submission, parse: DateParser): (r: Submission)
    ensures r == oldest || r == s
  {
    if DateText(s) == "" then oldest
    else if EarlierDate(SubmissionDate(s, parse), SubmissionDate(oldest, parse)) then s
    else oldest
  }

  /** The reduce over `rest`, starting from `oldest`. */
  function OldestFrom(oldest: Submission, rest: seq<Submission>, parse: DateParser): (r: Submission)
    ensures r == oldest || r in rest
    decreases |rest|
  {
    if rest == [] then oldest
    else OldestFrom(ReduceStep(oldest, rest[0], parse), rest[1..], parse)
  }

  /** The reduce of `calculateWaitingTime`, seeded with the first submission. */
  function OldestSubmission(subs: seq<Submission>, parse: DateParser): (r: Submission)
    requires |subs| > 0
    ensures r in subs
  {
    OldestFrom(subs[0], subs, parse)
  }

  /** Starting from a dated submission, the reduce ends at a dated
      submission no later than the start and than every dated one seen. */
  lemma {:induction false} OldestFromMinimal(oldest: Submission, rest: seq<Submission>, parse: DateParser)
    requires SubmissionDate(oldest, parse).Some?
    ensures var o := SubmissionDate(OldestFrom(oldest, rest, parse), parse);
      o.Some? && DayNumber(o.value) <= DayNumber(SubmissionDate(oldest, parse).value) &&
      forall x :: x in rest && SubmissionDate(x, parse).Some? ==> DayNumber(o.value) <= DayNumber(SubmissionDate(x, parse).value)
    decreases |rest|
  {
    if rest != [] {
      var next := ReduceStep(oldest, rest[0], parse);
      OldestFromMinimal(next, rest[1..], parse);
      forall x | x in rest
        ensures x == rest[0] || x in rest[1..]
      {
      }
    }
  }

  /** Starting from an undated submission, the reduce never moves. */
  lemma {:induction false} OldestFromStuck(oldest: Submission, rest: seq<Submission>, parse: DateParser)
    requires SubmissionDate(oldest, parse).None?
    ensures OldestFrom(oldest, rest, parse) == oldest
    decreases |rest|
  {
    if rest != [] {
      OldestFromStuck(oldest, rest[1..], parse);
    }
  }

  /** With a dated first submission, the oldest is dated and no dated submission is earlier. */
  lemma OldestIsEarliest(subs: seq<Submission>, parse: DateParser)
    requires |subs| > 0 && SubmissionDate(subs[0], parse).Some?
    ensures var o := SubmissionDate(OldestSubmission(subs, parse), parse);
      o.Some? && forall x :: x in subs && SubmissionDate(x, parse).Some? ==> DayNumber(o.value) <= DayNumber(SubmissionDate(x, parse).value)
  {
    OldestFromMinimal(subs[0], subs, parse);
  }

  /** `a`'s date is strictly before `b`'s; false when either is invalid. */
  predicate StrictlyEarlier(a: Submission, b: Submission, parse: DateParser) {
    EarlierDate(SubmissionDate(a, parse), SubmissionDate(b, parse))
  }

  /** `s[k]` is strictly earlier than every dated submission before it. */
  predicate EarlierThanDatedBefore(s: seq<Submission>, k: int, parse: DateParser)
    requires 0 <= k < |s|
  {
    forall i :: 0 <= i < k && SubmissionDate(s[i], parse).Some? ==> StrictlyEarlier(s[k], s[i], parse)
  }

  lemma ShiftEarlierThanDatedBefore(s: seq<Submission>, k: int, parse: DateParser)
    requires |s| > 0 && 0 <= k < |s| - 1 && EarlierThanDatedBefore(s[1..], k, parse)
    requires SubmissionDate(s[0], parse).Some? ==> StrictlyEarlier(s[k + 1], s[0], parse)
    ensures EarlierThanDatedBefore(s, k + 1, parse)
  {
    forall i | 0 <= i < k + 1 && SubmissionDate(s[i], parse).Some?
      ensures StrictlyEarlier(s[k + 1], s[i], parse)
    {
      if i > 0 {
        assert s[i] == s[1..][i - 1];
      }
    }
  }

  /** The reduce moves only to a strictly earlier submission, so from a
      dated start it ends at the start (`k == -1`) or at an element `rest[k]`
      earlier than the start and than every dated element before it. */
  lemma {:induction false} OldestFromFirst(oldest: Submission, rest: seq<Submission>, parse: DateParser)
    returns (k: int)
    requires SubmissionDate(oldest, parse).Some?
    ensures -1 <= k < |rest|
    ensures k == -1 ==> OldestFrom(oldest, rest, parse) == oldest
    ensures k >= 0 ==>
      OldestFrom(oldest, rest, parse) == rest[k] && StrictlyEarlier(rest[k], oldest, parse) && EarlierThanDatedBefore(rest, k, parse)
    decreases |rest|
  {
    if rest == [] {
      return -1;
    }
    var picked := DateText(rest[0]) != "" && StrictlyEarlier(rest[0], oldest, parse);
    var next := if picked then rest[0] else oldest;
    assert ReduceStep(oldest, rest[0], parse) == next;
    var k' := OldestFromFirst(next, rest[1..], parse);
    if k' >= 0 {
      ShiftEarlierThanDatedBefore(rest, k', parse);
      k := k' + 1;
    } else if picked {
      k := 0;
    } else {
      k := -1;
    }
  }

  /** With a dated first submission, the oldest is the first of the
      submissions with the least date: together with `OldestIsEarliest`,
      every dated submission before it is strictly later, so ties keep the
      earlier submission. */
  lemma OldestIsFirstEarliest(subs: seq<Submission>, parse: DateParser)
    requires |subs| > 0 && SubmissionDate(subs[0], parse).Some?
    ensures exists k :: 0 <= k < |subs| && subs[k] == OldestSubmission(subs, parse) && EarlierThanDatedBefore(subs, k, parse)
  {
    var k := OldestFromFirst(subs[0], subs, parse);
    if k == -1 {
      assert EarlierThanDatedBefore(subs, 0, parse);
    }
  }

  /** With an undated first submission, the reduce returns that submission. */
  lemma OldestIsFirstWhenUndated(subs: seq<Submission>, parse: DateParser)
    requires |subs| > 0 && SubmissionDate(subs[0], parse).None?
    ensures OldestSubmission(subs, parse) == subs[0]
  {
    OldestFromStuck(subs[0], subs, parse);
  }

  /** Whole 30-day months (`Math.floor`) and the remaining days (JavaScript's
      `%`, whose remainder takes the sign of the dividend). For a
      negative difference the two roundings differ: unless the difference is
      a multiple of 30, the parts add up to 30 days less than it. */
  function SplitDays(d: int): (r: WaitingTime)
    ensures d >= 0 ==> 0 <= r.days < 30 && 30 * r.months + r.days == d
    ensures d < 0 ==> -30 < r.days <= 0
    ensures d < 0 && d % 30 == 0 ==> r.days == 0 && 30 * r.months == d
    ensures d < 0 && d % 30 != 0 ==> 30 * r.months + r.days == d - 30
  {
    WaitingTime(d / 30, if d >= 0 then d % 30 else -((-d) % 30))
  }

  /** `calculateWaitingTime`: zero for no submissions; `None` stands for the
      NaN parts that come out when the oldest submission's date is invalid. */
  function CalculateWaitingTime(subs: seq<Submission>, parse: DateParser, today: CalendarDate): (r: Option<WaitingTime>)
    ensures |subs| == 0 ==> r == Some(WaitingTime(0, 0))
    ensures r.None? <==> |subs| > 0 && SubmissionDate(subs[0], parse).None?
    ensures r.Some? && |subs| > 0 ==>
      var o := SubmissionDate(OldestSubmission(subs, parse), parse);
      o.Some? && r == Some(SplitDays(DayNumber(today) - DayNumber(o.value)))
      && forall x :: x in subs && SubmissionDate(x, parse).Some? ==> DayNumber(o.value) <= DayNumber(SubmissionDate(x, parse).value)
  {
    if |subs| == 0 then Some(WaitingTime(0, 0))
    else
      var oldest := OldestSubmission(subs, parse);
      var result := match SubmissionDate(oldest, parse)
        case None => None
        case Some(o) => Some(SplitDays(DayNumber(today) - DayNumber(o)));
      if SubmissionDate(subs[0], parse).Some? then
        OldestIsEarliest(subs, parse); result
      else
        OldestIsFirstWhenUndated(subs, parse); result
  }
}
