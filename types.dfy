/** The records the dashboard works on: form submissions as the backend
    delivers them, the filter settings, and the waiting-time summary. */
module Types {
  import opened Options

  /** A JavaScript truthiness test on an optional string. */
  predicate Truthy(o: Option<string>) {
    o.Some? && o.value != ""
  }

  /** The five weekday fields of the form, each a list of hour ranges such as "8-9". */
  datatype Weekday = Montag | Dienstag | Mittwoch | Donnerstag | Freitag

  /** The answers of one form (the `submissions` object). Every answer is
      optional; `flexible` is the untyped `form_field_ab01` flag, read only
      for its truthiness. */
  datatype Answers = Answers(
    name1: Option<string>,
    vorname: Option<string>,
    email: Option<string>,
    geburtsdatum: Option<string>,
    geschlecht: Option<string>,
    date5bd8: Option<string>,
    schonInBehandlung: Option<string>,
    hausbesuchVerordnet: Option<string>,
    montag: Option<seq<string>>,
    dienstag: Option<seq<string>>,
    mittwoch: Option<seq<string>>,
    donnerstag: Option<seq<string>>,
    freitag: Option<seq<string>>,
    address: Option<string>,
    telefon: Option<string>,
    diagnose: Option<string>,
    aerztin: Option<string>,
    krankenkasse: Option<string>,
    flexible: bool)

  /** One form submission: its id, its creation timestamp text and its answers. */
  datatype Submission = Submission(id: string, createdDate: string, answers: Answers)

  /** The availability list a submission gives for a weekday, if any. */
  function DayAvailability(a: Answers, d: Weekday): Option<seq<string>> {
    match d
    case Montag => a.montag
    case Dienstag => a.dienstag
    case Mittwoch => a.mittwoch
    case Donnerstag => a.donnerstag
    case Freitag => a.freitag
  }

  /** The filter settings held by the filter hook; `selectedDay` is `null`
      or an English weekday key, the lists hold option ids. */
  datatype FilterState = FilterState(
    selectedDay: Option<string>,
    selectedTimeSlots: seq<string>,
    selectedHomeVisit: seq<string>,
    selectedAgeGroups: seq<string>,
    selectedTreatment: seq<string>,
    searchTerm: string,
    showDuplicatesOnly: bool)

  /** Whole months of 30 days and the days left over. */
  datatype WaitingTime = WaitingTime(months: int, days: int)
}
