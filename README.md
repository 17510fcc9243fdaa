# Patient dashboard core, modelled in Dafny

A physiotherapy practice runs a dashboard over the patients' registration-form
submissions. This project models the client-side data pipeline the dashboard
uses to turn the full submission list into what it shows:

- **Filters** (`useFilters`): a chain of `.filter` passes, combined with AND:
  - free-text name search;
  - weekday and time-slot availability, which a "flexible" patient bypasses;
  - home visit and prior treatment answers;
  - age group;
  - a duplicate-name filter that counts normalised full names over the
    unfiltered list.

  It also covers `updateFilter` (one key replaced) and `clearFilters`.
- **Helpers**:
  - the German date format `dd.mm.yyyy`;
  - age in years with a month and day correction, and the `N Jahre, M Mo` text;
  - the age buckets `kind`, `teen` and `erwachsene`, with the thresholds 12, 17 and 120;
  - the waiting time since the oldest submission, split into 30-day months and the remaining days.
- **Filter panel**:
  - `isAnyFilterActive`, which decides whether the clear button shows;
  - the checkbox toggles, which append or remove a value;
  - the day dropdown;
  - the tables of options the panel offers.
- **Patient table**:
  - a copy sorted by name, date or birth-date text, ascending or descending;
  - the sort toggle;
  - pages of 20 and the "Zeige … bis … von …" label;
  - the age-colour rule and the K/E badge.
- **Patients page**:
  - its own rows with `dd.mm.yyyy` date texts, sorted by the date they denote;
  - its own sort toggle, pagination and row selection.
- **Notes hook** (`useNotes`):
  - an in-memory cache of notes per submission, with a loading guard;
  - the browser's `localStorage`, modelled as a map;
  - the single debounce timer that delays saves.

The pure parts of the source are written as datatypes, functions and lemmas.
The parts that change state are written as classes whose methods modify
their fields:

- `Filters.FilterHook`;
- `PatientTable.TableState`;
- `PatientsPage.PageState`;
- `Notes.NotesCache`.

The duplicate-name count is a method with a loop that fills a map, as the
source's `forEach` does. The filter chain is a method that reassigns
`filtered` pass by pass. Each of them is proved equal to a specification
function.

Modelling choices that hold throughout:

- A date is a `Date(year, month, day)` triple. `CalendarDate` is the valid ones.
- JavaScript's `new Date(text)` is a parameter `parse: string -> Option<CalendarDate>`.
  `None` stands for an invalid date. The empty text is always invalid.
- "Now" is a parameter `today`.
- Time differences are differences of day numbers (days since 1970-01-01).
- JavaScript's `%` truncates toward zero, and the model writes that out.
- String `<` is lexicographic order over characters.
- `Array.prototype.sort` is modelled by an insertion sort over the same comparator.
  The lemmas state what any sort must produce:
  - the output is a permutation of the input;
  - it is ordered by the comparator;
  - when keys are distinct, it is the unique such order.

Where the code and its documentation disagree, the model follows the code:

- The notes hook's debounce is one timer for the whole hook, not one per submission.
  A save for another submission within the delay cancels the first
  (`Notes.SaveTwoThenFire`).
- The `FilterState` interface lacks `selectedTreatment` and `showDuplicatesOnly`.
  The model uses the state as `useFilters` builds it, with all seven keys.

Files: `options.dfy`, `seqs.dfy`, `strings.dfy`, `sorting.dfy` and `dates.dfy` are general
support (option values, JavaScript-style slicing, lowercasing and trimming,
splitting and joining, decimal text, the sort, the calendar). `types.dfy`,
`helpers.dfy`, `filters.dfy`, `filter_panel.dfy`, `patient_table.dfy`,
`patients_page.dfy` and `notes.dfy` follow the source files one by one.

## Model

| member | source | states |
|---|---|---|
| Dates.DayNumberOrder | src/dashboard/utils/helpers.ts:74 | Comparing two valid dates by their `getTime()` day numbers agrees with their calendar order, in both directions. |
| Helpers.FormatToGermanDate | src/dashboard/utils/helpers.ts:8-17 | An invalid date yields "Ungültiges Datum". A valid one yields a text with `.` at positions 2 and 5. |
| Helpers.GermanDateFields | src/dashboard/utils/helpers.ts:12-16 | The formatted date splits at `.` into the two-digit day, the two-digit month (1-based) and the year. Each part reads back as the number it came from (the year when non-negative). |
| Helpers.AgeInYears | src/dashboard/utils/helpers.ts:27-33 | The age is the number of completed years: the birthday in year birth+age has passed and the one in year birth+age+1 has not. It is the year difference, or one less. |
| Helpers.AgeInYearsUnique | src/dashboard/utils/helpers.ts:27-33 | The completed-years characterisation has exactly one solution, so the year correction computes it. |
| Helpers.AgeDifference | src/dashboard/utils/helpers.ts:27-33 | The year part is the age in completed years. The month part lies in 0..12 and is 12 exactly when the month matches but the day has not come. Years and months together give the calendar month difference. |
| Helpers.CalculateAge | src/dashboard/utils/helpers.ts:19-36 | "Ungültiges Datum" exactly for an invalid birth date, otherwise the `N Jahre, M Mo` text of the age parts. |
| Helpers.AgeGroupLabel | src/dashboard/utils/helpers.ts:53-59 | The labels `kind`, `teen` and `erwachsene` correspond one to one to the three groups. |
| Helpers.AgeGroupOf | src/dashboard/utils/helpers.ts:53-60 | `kind` iff age ≤ 12 (future birth dates included), `teen` iff 13..17, `erwachsene` iff 18..120, none iff above 120. |
| Helpers.DetermineAgeGroup | src/dashboard/utils/helpers.ts:38-61 | No group for a missing or invalid birth date; otherwise the bucket of the age in completed years. |
| Helpers.DateText | src/dashboard/utils/helpers.ts:69 | The date text is `date_5bd8` when that is non-empty, otherwise the creation date. |
| Helpers.ReduceStep | src/dashboard/utils/helpers.ts:69-74 | One step of the `reduce` returns either the current oldest or the new submission. |
| Helpers.OldestFrom | src/dashboard/utils/helpers.ts:68-75 | The fold's result is the start value or one of the remaining submissions. |
| Helpers.OldestSubmission | src/dashboard/utils/helpers.ts:68-75 | The oldest submission is one of the submissions. |
| Helpers.OldestFromFirst | src/dashboard/utils/helpers.ts:68-75 | From a dated start, the reduce ends at the start, or at an element strictly earlier than the start and than every dated element before it, because the comparison is a strict `<`. |
| Helpers.OldestIsFirstEarliest | src/dashboard/utils/helpers.ts:68-75 | With a dated first submission, the oldest is strictly earlier than every dated submission before it. With `OldestIsEarliest` this makes it the first of the submissions with the least date, so ties keep the earlier submission. |
| Helpers.OldestFromMinimal | src/dashboard/utils/helpers.ts:68-75 | From a dated start, the fold's result is dated, and no date in the list is earlier. |
| Helpers.OldestFromStuck | src/dashboard/utils/helpers.ts:72-74 | From an undated start, every comparison fails, so the fold keeps the start. |
| Helpers.OldestIsEarliest | src/dashboard/utils/helpers.ts:68-75 | When the first submission has a date, the oldest has the least date of all dated submissions. |
| Helpers.OldestIsFirstWhenUndated | src/dashboard/utils/helpers.ts:68-75 | When the first submission has no valid date, the oldest is the first submission. |
| Helpers.SplitDays | src/dashboard/utils/helpers.ts:83-86 | For d ≥ 0: `days` in 0..29 and `30*months + days == d`. For d < 0 (floor for months, truncating `%` for days): `days` in -29..0, and `30*months + days` is d, or d-30 when 30 does not divide d. |
| Helpers.CalculateWaitingTime | src/dashboard/utils/helpers.ts:63-90 | No submissions give 0 months and 0 days. The result is undefined (NaN) exactly when the first submission is undated. Otherwise it is the split day count from the oldest date to today, and that date is the least of the dated submissions. |
| Filters.DayField | src/dashboard/hooks/useFilters.ts:24-30 | The lower-cased day id resolves to a German weekday field exactly when it is a key of the table. |
| Filters.NameKeys | src/dashboard/hooks/useFilters.ts:139-141 | Position by position, the normalised `vorname + " " + name_1` key of each submission. |
| Filters.FilterSubmissions | src/dashboard/hooks/useFilters.ts:43-159 | A submission is shown iff it is in the list and passes all seven passes, and the result is a subsequence of the list, so order is kept and nothing is added. |
| Filters.CountNames | src/dashboard/hooks/useFilters.ts:135-146 | The loop's map holds exactly the non-empty name keys of the unfiltered list, each with its number of occurrences. |
| Filters.SearchStep | src/dashboard/hooks/useFilters.ts:47-56 | Skipping the pass for an empty term shows the same as applying it. |
| Filters.DayStep | src/dashboard/hooks/useFilters.ts:59-70 | After the day pass (skipped when no day is set), the list is the input filtered by search and day together. |
| Filters.TimeSlotsStep | src/dashboard/hooks/useFilters.ts:73-97 | The same for the passes up to time slots. |
| Filters.HomeVisitStep | src/dashboard/hooks/useFilters.ts:100-109 | The same for the passes up to home visit. |
| Filters.TreatmentStep | src/dashboard/hooks/useFilters.ts:112-121 | The same for the passes up to prior treatment. |
| Filters.AgeGroupStep | src/dashboard/hooks/useFilters.ts:124-130 | The same for the passes up to the age group. |
| Filters.DuplicatesStep | src/dashboard/hooks/useFilters.ts:133-156 | Filtering by a map of counts from the first pass gives the full specification result. |
| Filters.PassStep | src/dashboard/hooks/useFilters.ts:44-158 | Filtering an already filtered list by one more pass equals filtering the input by both at once. A pass whose guard is off keeps everything. |
| Filters.FilteredSubmissions | src/dashboard/hooks/useFilters.ts:43-159 | The pass-by-pass reassignment of `filtered`, with the name counts computed first, is exactly the specification's filtered list. |
| Filters.ClearedShowsAll | src/dashboard/hooks/useFilters.ts:33-41 | With the default (or cleared) filters the full list is shown unchanged. |
| Filters.FlexiblePassesSchedule | src/dashboard/hooks/useFilters.ts:62-64 | A flexible submission passes the day and time-slot passes whatever is selected. |
| Filters.BlankSearchNeedsNameField | src/dashboard/hooks/useFilters.ts:47-55 | A search term of only blanks trims to "". It then matches exactly the submissions with a surname or a first name. |
| Filters.ShownDuplicateHasTwin | src/dashboard/hooks/useFilters.ts:148-155 | A submission shown by the duplicate filter has a non-empty name key that occurs at two different positions of the unfiltered list. |
| Filters.DuplicateFilterMeaning | src/dashboard/hooks/useFilters.ts:133-156 | With the duplicate filter on, a submission of the list is shown iff it passes the other six filters and its non-empty name key occurs at two different positions of the unfiltered list. |
| Filters.DayFilterMeaning | src/dashboard/hooks/useFilters.ts:59-69 | With a day selected, a submission passes iff it is flexible or its availability list for that weekday is non-empty. |
| Filters.ApplyUpdate | src/dashboard/hooks/useFilters.ts:161-163 | The named key takes the new value, and every other key keeps its value. |
| Filters.SameEverywhere | src/dashboard/hooks/useFilters.ts:33-41 | Two filter states that agree on every key are equal, so the keys describe the whole state. |
| Filters.UpdateOverwrites | src/dashboard/hooks/useFilters.ts:161-163 | A later update of the same key overrides the earlier one. |
| Filters.UpdatesCommute | src/dashboard/hooks/useFilters.ts:161-163 | Updates of different keys can be applied in either order. |
| Filters.FilterHook.constructor | src/dashboard/hooks/useFilters.ts:33-41 | The hook starts with the default filters. |
| Filters.FilterHook.UpdateFilter | src/dashboard/hooks/useFilters.ts:161-163 | The state becomes the update of the previous state. |
| Filters.FilterHook.ClearFilters | src/dashboard/hooks/useFilters.ts:165-175 | The state becomes the default filters. |
| FilterPanel.PanelOptionsResolve | src/dashboard/components/FilterPanel.tsx:39-70 | Each day id resolves to a weekday field. Each time-slot value maps to the range its box is labelled with. The age-group values correspond to the groups' labels. |
| FilterPanel.IsAnyFilterActive | src/dashboard/components/FilterPanel.tsx:24-32 | It holds iff a day is selected, any of the three lists is non-empty, or the search term has a non-blank character. Treatment and duplicates are not consulted. |
| FilterPanel.ClearedIsInactive | src/dashboard/components/FilterPanel.tsx:101-109 | After clearing, the clear button is hidden. |
| FilterPanel.InactivePanelFilter | src/dashboard/components/FilterPanel.tsx:24-32 | When nothing is active and the two unshown settings are off, only a blank non-empty search term can hide a submission, namely one without name fields. |
| FilterPanel.Toggle | src/dashboard/components/FilterPanel.tsx:74-76 | Checking appends the value. Unchecking removes every occurrence of it, keeps the others in their order, and keeps each other value as often as before. |
| FilterPanel.ToggleRoundTrip | src/dashboard/components/FilterPanel.tsx:74-76 | Checking a value that is not selected and then unchecking it restores the list. |
| FilterPanel.FilterAppendRejected | src/dashboard/components/FilterPanel.tsx:76 | Removing a value that was appended at the end removes just that element. |
| FilterPanel.HandleTimeSlotChange | src/dashboard/components/FilterPanel.tsx:72-78 | The slot list becomes the toggled list, so the value is selected iff checked. Nothing else changes. |
| FilterPanel.HandleHomeVisitChange | src/dashboard/components/FilterPanel.tsx:80-86 | The same for the home-visit answers. |
| FilterPanel.HandleAgeGroupChange | src/dashboard/components/FilterPanel.tsx:88-94 | The same for the age groups. |
| FilterPanel.DaySelect | src/dashboard/components/FilterPanel.tsx:119 | The day becomes the chosen id, or null when there is none or it is empty. Nothing else changes. |
| PatientTable.SortKey | src/dashboard/components/PatientTable.tsx:49-64 | There is a key exactly for the fields `name`, `date` and `age`. |
| PatientTable.TableCompare | src/dashboard/components/PatientTable.tsx:62-70 | The result is -1, 0 or 1. It is 0 iff the field is unknown or the keys are equal. A result ≤ 0 means the keys are in string order (ascending) or in reverse string order (descending). |
| PatientTable.SortedPatients | src/dashboard/components/PatientTable.tsx:46-71 | The sorted copy is a permutation of the rows. |
| PatientTable.AtOrBeforeTransitive | src/dashboard/components/PatientTable.tsx:67-69 | "Not less than" on the sort keys is transitive. |
| PatientTable.TableCompareAntisymmetric | src/dashboard/components/PatientTable.tsx:66-70 | Swapping the rows negates the comparison. |
| PatientTable.TableCompareFlip | src/dashboard/components/PatientTable.tsx:66-70 | The descending comparator is the ascending one with its arguments swapped. |
| PatientTable.TableCompareConsistent | src/dashboard/components/PatientTable.tsx:46-71 | The comparator is total and transitive on any rows, so the sort is well defined. |
| PatientTable.DistinctKeysTieOnlyEqual | src/dashboard/components/PatientTable.tsx:66-70 | When keys are pairwise distinct, only a row ties with itself. |
| PatientTable.SortedPatientsOrdered | src/dashboard/components/PatientTable.tsx:46-71 | For a known field, keys are non-decreasing (ascending) or non-increasing (descending) along the sorted rows. |
| PatientTable.UnknownFieldKeepsOrder | src/dashboard/components/PatientTable.tsx:62-63 | An unknown sort field leaves the rows in their order. |
| PatientTable.DescendingReversesAscending | src/dashboard/components/PatientTable.tsx:66-70 | With distinct keys, the descending order is the ascending order reversed. |
| PatientTable.TotalPages | src/dashboard/components/PatientTable.tsx:41 | `ceil(n/20)`: zero pages iff no rows, otherwise the fewest pages of 20 that hold n rows. |
| PatientTable.CurrentPatients | src/dashboard/components/PatientTable.tsx:42-43 | PatientTable.tsx:73 has the slice itself. At most 20 rows. On an existing page, exactly the sorted rows from `(page-1)*20` up to `min(page*20, n)`. Beyond the last page, nothing. |
| PatientTable.RowOnPage | src/dashboard/components/PatientTable.tsx:41-43 | Row i is on page `i/20 + 1`, at position `i % 20`. |
| PatientTable.PagerShown | src/dashboard/components/PatientTable.tsx:247-255 | The pager shows iff there are more than 20 rows. |
| PatientTable.ShownRange | src/dashboard/components/PatientTable.tsx:257-261 | On an existing page the label's numbers satisfy 1 ≤ first ≤ last ≤ n. They span at most 20 rows, and exactly as many as the page shows. |
| PatientTable.RangeLabel | src/dashboard/components/PatientTable.tsx:257-261 | On an existing page the label splits at spaces into the seven words "Zeige", first, "bis", last, "von", n, "Patienten". Its three numbers read back as the first and last shown row number and the row count. |
| PatientTable.AgeColor | src/dashboard/components/PatientTable.tsx:84-99 | Four colours, each with its iff: `#CCCCCC` without a date; `#C8DEFD` for age ≤ 18; `#0D52BF` for 19..120; `#F0F0F0` for an invalid date or above 120. |
| PatientTable.AgeCell | src/dashboard/components/PatientTable.tsx:168-172 | "Kein Geburtsdatum" without a birth date, otherwise the `calculateAge` text. |
| PatientTable.KeBadge | src/dashboard/components/PatientTable.tsx:143-157 | "-" iff there is no birth date. "K" iff the raw year difference is ≤ 18. "E" otherwise, including for an invalid date. |
| PatientTable.KeBadgeVersusAge | src/dashboard/components/PatientTable.tsx:146-155 | A child of up to 17 completed years gets "K", and "K" implies an age of at most 18. The badge has no birthday correction. |
| PatientTable.NextSort | src/dashboard/components/PatientTable.tsx:75-82 | The clicked field becomes the sort field. Its order flips when it was already the sort field, and otherwise becomes descending. |
| PatientTable.SortClickTwice | src/dashboard/components/PatientTable.tsx:75-82 | Two clicks on the sort field restore the sort state. |
| PatientTable.ColumnSortField | src/dashboard/components/PatientTable.tsx:240-243 | A column click asks for the lower-cased title, which has the same length. |
| PatientTable.OnlyNameColumnSorts | src/dashboard/components/PatientTable.tsx:101-243 | Of the column titles, only "Name" lowercases to a known sort field. |
| PatientTable.TableState.constructor | src/dashboard/components/PatientTable.tsx:37-39 | The table starts on page 1, sorted by date, descending. |
| PatientTable.PageOrdered | src/dashboard/components/PatientTable.tsx:46-73 | On an existing page, the rows of a sort by a known field are in order by their keys, ascending or descending as asked. |
| PatientTable.TableState.Rows | src/dashboard/components/PatientTable.tsx:46-73 | The current page's slice of the sorted patients. At most 20 rows, each one of the patients. On an existing page there are exactly `min(page*20, n) - (page-1)*20` of them, and beyond the last page none. A known sort field puts them in key order. With an unknown field they are the patients' own slice for the page. |
| PatientTable.TableState.HandleSort | src/dashboard/components/PatientTable.tsx:75-82 | The sort state moves as `NextSort` says. The page is not reset. |
| PatientTable.TableState.SetCurrentPage | src/dashboard/components/PatientTable.tsx:249-253 | The pager sets the page and nothing else. |
| PatientsPage.GermanToIsoFields | src/dashboard/pages/patienten/page.tsx:56-57 | `split('.').reverse().join('-')` turns `d.m.y` into `y-m-d` for parts without dots. |
| PatientsPage.GermanDateToIso | src/dashboard/pages/patienten/page.tsx:56-57 | The German text of a date becomes the ISO text of the same year, month and day. |
| PatientsPage.RowCompare | src/dashboard/pages/patienten/page.tsx:54-61 | The result is 0 for another field or an invalid date. For two valid dates it is negative iff the first is earlier (ascending) or later (descending), and 0 iff they are the same day. |
| PatientsPage.SortedRows | src/dashboard/pages/patienten/page.tsx:51-62 | The result is a permutation, and without a sort it is the rows in their order. |
| PatientsPage.OtherFieldKeepsOrder | src/dashboard/pages/patienten/page.tsx:60 | Sorting by any field but the date keeps the rows in order. |
| PatientsPage.RowCompareConsistent | src/dashboard/pages/patienten/page.tsx:54-61 | On rows with valid dates the date comparator is total and transitive. |
| PatientsPage.PairInOrder | src/dashboard/pages/patienten/page.tsx:58 | A comparison ≤ 0 means the first date is no later (ascending) or no earlier (descending). |
| PatientsPage.SortedRowsInOrder | src/dashboard/pages/patienten/page.tsx:54-61 | A list sorted by the date comparator has its dates in order. |
| PatientsPage.SortedByDate | src/dashboard/pages/patienten/page.tsx:51-62 | With valid dates, sorting by date gives a permutation whose dates are in order for the direction. |
| PatientsPage.PageRows | src/dashboard/pages/patienten/page.tsx:66-69 | At most 20 rows. Which rows is stated by `PatientsPage.PaginationAgrees`. |
| PatientsPage.PaginationAgrees | src/dashboard/pages/patienten/page.tsx:65-69 | For every page number, the page's slice cuts the same rows as the patient table's start and end indices. |
| PatientsPage.PageShownRange | src/dashboard/pages/patienten/page.tsx:424 | The page's label shows the same range as the patient table's. |
| PatientsPage.NextSortBy | src/dashboard/pages/patienten/page.tsx:122-129 | The clicked field becomes the sort. The direction flips on the same field, and a new field starts descending. |
| PatientsPage.DateClicks | src/dashboard/pages/patienten/page.tsx:122-129 | Clicking the date column gives newest first, then oldest first, then newest first again. |
| PatientsPage.SelectionStrings | src/dashboard/pages/patienten/page.tsx:131-132 | No ids give []. Text ids are kept. Number ids become their decimal texts, one per id, and each non-negative one reads back as its number. |
| PatientsPage.PageState.constructor | src/dashboard/pages/patienten/page.tsx:29-31 | The page starts on page 1, with no selection and no sort. |
| PatientsPage.PageDatesInOrder | src/dashboard/pages/patienten/page.tsx:51-69 | With a date sort and valid dates, the rows of an existing page are in date order, in the direction asked. |
| PatientsPage.PageState.CurrentRows | src/dashboard/pages/patienten/page.tsx:51-69 | The current page's slice of the sorted rows. At most 20 rows, each one of the page's rows. On an existing page there are exactly `min(page*20, n) - (page-1)*20` of them, and beyond the last page none. Without a date sort they are the unsorted slice for the page. With a date sort and valid dates they are in date order. |
| PatientsPage.PageState.HandleSort | src/dashboard/pages/patienten/page.tsx:122-129 | The sort moves as `NextSortBy` says. Nothing else changes. |
| PatientsPage.PageState.HandleSelectionChange | src/dashboard/pages/patienten/page.tsx:131-134 | The selection becomes the ids as strings. Nothing else changes. |
| PatientsPage.PageState.HandlePageChange | src/dashboard/pages/patienten/page.tsx:136-138 | The page changes, and nothing else. |
| Notes.NoteKey | src/dashboard/hooks/useNotes.ts:37 | The key is `note_` followed by the submission id. |
| Notes.NoteKeyInjective | src/dashboard/hooks/useNotes.ts:41 | Different submissions have different storage keys. |
| Notes.StoredText | src/dashboard/hooks/useNotes.ts:41 | The stored text under the note's key, or "" when there is none. |
| Notes.StoredTextWrite | src/dashboard/hooks/useNotes.ts:60 | Writing one submission's note leaves every other submission's stored text unchanged. |
| Notes.LoadedNote | src/dashboard/hooks/useNotes.ts:36-44 | A loaded note has id `note_<id>`, the given id, e-mail and name, the stored text, and creation and update times set to now. |
| Notes.WithText | src/dashboard/hooks/useNotes.ts:81-84 | The spread writes the new text and keeps every other field of the previous entry. Without a previous entry, only the text is set. |
| Notes.ApplySave | src/dashboard/hooks/useNotes.ts:63-70 | After the save, the entry has the saved text and a new update time. An existing entry keeps all its other fields. A new entry has no other field set. Every other entry is unchanged. |
| Notes.NotesCache.constructor | src/dashboard/hooks/useNotes.ts:14-15 | The caches start empty over the existing storage, with no save waiting. |
| Notes.NotesCache.LoadNoteForSubmission | src/dashboard/hooks/useNotes.ts:26-54 | A cached id returns its cached entry and changes nothing. The loading guard never fires in the model, because the flag is set and cleared in one step. Otherwise the note is built from storage and cached, or null is returned when storage throws. Either way the loading flag ends false. |
| Notes.NotesCache.SaveNote | src/dashboard/hooks/useNotes.ts:18-24 | A call cancels any waiting save and waits with its own arguments. Nothing is written yet. |
| Notes.NotesCache.TimerFires | src/dashboard/hooks/useNotes.ts:56-76 | The waiting text is stored under the note key and saved into the cache with a new update time. When storage throws, nothing changes. |
| Notes.NotesCache.UpdateNoteText | src/dashboard/hooks/useNotes.ts:78-86 | Only that entry's text changes. Storage and the other entries stay as they are. |
| Notes.SaveTwoThenFire | src/dashboard/hooks/useNotes.ts:18-24 | With one timer for the hook, a second save cancels the first even for another submission, whose text is then never stored. |
| Notes.SaveThenReload | src/dashboard/hooks/useNotes.ts:41 | A saved note, loaded by a fresh hook over the same storage, reads back the saved text. |

## Left out

- JavaScript date parsing, time zones and the wall clock are outside the model. `new Date(text)` is the parameter `parse`, and `new Date()` is the parameter `today`. The Berlin clock on the patients page (page.tsx:72-94) is left out.
- Milliseconds are not modelled. Dates have day precision, and the floating-point millisecond difference divided by a day length (helpers.ts:81-82) is a difference of day numbers.
- Helpers.CalculateWaitingTime: an invalid oldest date yields NaN in the source. The model returns `None`, and it does not model NaN arithmetic further.
- Helpers.FormatToGermanDate: the year part is the decimal text of the year. The contract fixes the layout up to the year, and `Helpers.GermanDateFields` gives the three parts.
- Strings are sequences of characters, not UTF-16 code units.
- `toLowerCase` is modelled for ASCII and Latin-1 capitals.
- String `<` is compared character by character.
- The host `Array.prototype.sort` algorithm is not modelled. Stability is not stated: the lemmas state permutation and order, and uniqueness when keys are distinct.
- The timer's 1000 ms delay is not modelled. Firing is the explicit method `TimerFires`.
- `localStorage` failures are the flags `readFails` and `writeFails`.
- `console` output is left out.
- Notes.NotesCache.LoadNoteForSubmission: the source batches its state updates and runs asynchronously. The model applies them in order within one step, so only the final loading flag is visible.
- `updateFilter` takes `any` value in the source. The model offers one update per key, with that key's type.
- Rendering and layout are left out. This covers the HB and WV badges too. The WV badge reads an answer field (`wurden_sie…`) which the submission type does not declare, so under that type the badge shows "Alt".
- Toasts, modals, the search input of the patients page (page.tsx:397, whose term is never applied) and the demo data (page.tsx:36-48) are left out.
- The backend web methods, the charts, the statistics cards, the search bar and the notes debug view are not part of this model.
- PatientsPage.PageRows: JavaScript's slice also accepts page numbers below 1, where negative indices count from the end. The model computes those slices (`Seqs.JsSlice`), but the contract only bounds their length.
