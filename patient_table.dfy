/** The patient table: sorting by name, date or birth date, pagination of
    20 rows, the age colour and the child/adult badge, and the table's
    sort and page state. */
module PatientTable {
  import opened Options
  import opened Strings
  import opened Seqs
  import opened Sorting
  import opened Dates
  import opened Types
  import opened Helpers

  const ItemsPerPage: nat := 20

  // ----- sorting -----

  /** The text a row is sorted by for a sort field; `None` for a field the table does not know. */
  function SortKey(field: string, x: Submission): (r: Option<string>)
    ensures r.Some? <==> field == "name" || field == "date" || field == "age"
  {
    if field == "name" then Some(Trim(OrEmpty(x.answers.name1) + " " + OrEmpty(x.answers.vorname)))
    else if field == "date" then Some(DateText(x))
    else if field == "age" then Some(OrEmpty(x.answers.geburtsdatum))
    else None
  }

  /** The comparator of the table's sort: string order of the keys, reversed
      for `Desc`; every pair ties for an unknown field. */
  function TableCompare(field: string, order: Order, a: Submission, b: Submission): (r: int)
    ensures -1 <= r <= 1
    ensures r == 0 <==> SortKey(field, a).None? || SortKey(field, a) == SortKey(field, b)
    ensures SortKey(field, a).Some? ==>
      (r <= 0 <==> if order == Asc then !LexLess(SortKey(field, b).value, SortKey(field, a).value)
                   else !LexLess(SortKey(field, a).value, SortKey(field, b).value))
  {
    match (SortKey(field, a), SortKey(field, b))
    case (Some(ka), Some(kb)) =>
      LexLessTrichotomous(ka, kb);
      LexLessAsymmetric(ka, kb);
      if order == Asc then (if LexLess(ka, kb) then -1 else if LexLess(kb, ka) then 1 else 0)
      else (if LexLess(kb, ka) then -1 else if LexLess(ka, kb) then 1 else 0)
    case _ => 0
  }

  function TableCmp(field: string, order: Order): (Submission, Submission) -> int {
    (a, b) => TableCompare(field, order, a, b)
  }

  /** `sortedPatients`: a sorted copy of the rows. */
  function SortedPatients(patients: seq<Submission>, field: string, order: Order): (r: seq<Submission>)
    ensures multiset(r) == multiset(patients)
  {
    SortBy(patients, TableCmp(field, order))
  }

  /** Compares at or before: the key of `b` is not less than the key of `a`. */
  lemma AtOrBeforeTransitive(a: string, b: string, c: string)
    requires !LexLess(b, a) && !LexLess(c, b)
    ensures !LexLess(c, a)
  {
    LexLessTrichotomous(a, b);
    LexLessTrichotomous(b, c);
    if LexLess(a, b) && LexLess(b, c) {
      LexLessTransitive(a, b, c);
      LexLessAsymmetric(a, c);
    } else if LexLess(a, b) {
      LexLessAsymmetric(a, b);
    } else if LexLess(b, c) {
      LexLessAsymmetric(b, c);
    } else {
      LexLessIrreflexive(a);
    }
  }

  /** Swapping the rows negates the comparison. */
  lemma TableCompareAntisymmetric(field: string, order: Order, a: Submission, b: Submission)
    ensures TableCompare(field, order, a, b) == -TableCompare(field, order, b, a)
  {
    if SortKey(field, a).Some? {
      LexLessAsymmetric(SortKey(field, a).value, SortKey(field, b).value);
    }
  }

  /** Descending order compares as ascending order with the rows swapped. */
  lemma TableCompareFlip(field: string, a: Submission, b: Submission)
    ensures TableCompare(field, Desc, a, b) == TableCompare(field, Asc, b, a)
  {
  }

  /** The table's comparator orders any rows consistently. */
  lemma TableCompareConsistent(field: string, order: Order, s: seq<Submission>)
    ensures ConsistentOn(TableCmp(field, order), s)
  {
    var cmp := TableCmp(field, order);
    forall a, b | a in s && b in s
      ensures cmp(a, b) <= 0 || cmp(b, a) <= 0
    {
      TableCompareAntisymmetric(field, order, a, b);
    }
    forall a, b, c | a in s && b in s && c in s && cmp(a, b) <= 0 && cmp(b, c) <= 0
      ensures cmp(a, c) <= 0
    {
      if SortKey(field, a).Some? {
        var ka, kb, kc := SortKey(field, a).value, SortKey(field, b).value, SortKey(field, c).value;
        if order == Asc {
          AtOrBeforeTransitive(ka, kb, kc);
        } else {
          AtOrBeforeTransitive(kc, kb, ka);
        }
      }
    }
  }

  /** Rows with pairwise different keys tie only with themselves. */
  lemma DistinctKeysTieOnlyEqual(patients: seq<Submission>, field: string, order: Order, s: seq<Submission>)
    requires forall x, y :: x in patients && y in patients && SortKey(field, x) == SortKey(field, y) ==> x == y
    requires forall x :: x in s ==> x in patients
    requires field == "name" || field == "date" || field == "age"
    ensures TiesOnlyEqual(TableCmp(field, order), s)
  {
    var cmp := TableCmp(field, order);
    forall x, y | x in s && y in s && cmp(x, y) <= 0 && cmp(y, x) <= 0
      ensures x == y
    {
      TableCompareAntisymmetric(field, order, x, y);
    }
  }

  /** For a known field the sorted rows have non-decreasing keys (`Asc`) or
      non-increasing keys (`Desc`) in string order, and they are the same rows. */
  lemma SortedPatientsOrdered(patients: seq<Submission>, field: string, order: Order)
    requires field == "name" || field == "date" || field == "age"
    ensures var r := SortedPatients(patients, field, order);
      multiset(r) == multiset(patients) &&
      forall i, j :: 0 <= i < j < |r| ==>
        if order == Asc then !LexLess(SortKey(field, r[j]).value, SortKey(field, r[i]).value)
        else !LexLess(SortKey(field, r[i]).value, SortKey(field, r[j]).value)
  {
    TableCompareConsistent(field, order, patients);
    SortBySorted(patients, TableCmp(field, order));
    var r := SortedPatients(patients, field, order);
    forall i, j | 0 <= i < j < |r|
      ensures if order == Asc then !LexLess(SortKey(field, r[j]).value, SortKey(field, r[i]).value)
              else !LexLess(SortKey(field, r[i]).value, SortKey(field, r[j]).value)
    {
      assert TableCompare(field, order, r[i], r[j]) <= 0;
      LexLessAsymmetric(SortKey(field, r[i]).value, SortKey(field, r[j]).value);
    }
  }

  /** For an unknown field (every pair ties) the rows keep their order. */
  lemma UnknownFieldKeepsOrder(patients: seq<Submission>, field: string, order: Order)
    requires field != "name" && field != "date" && field != "age"
    ensures SortedPatients(patients, field, order) == patients
  {
    SortByAllTies(patients, TableCmp(field, order));
  }

  /** When no two different rows share a key, descending order is ascending order reversed. */
  lemma DescendingReversesAscending(patients: seq<Submission>, field: string)
    requires field == "name" || field == "date" || field == "age"
    requires forall x, y :: x in patients && y in patients && SortKey(field, x) == SortKey(field, y) ==> x == y
    ensures SortedPatients(patients, field, Desc) == Reverse(SortedPatients(patients, field, Asc))
  {
    var asc := SortedPatients(patients, field, Asc);
    var desc := SortedPatients(patients, field, Desc);
    var up, down := TableCmp(field, Asc), TableCmp(field, Desc);
    TableCompareConsistent(field, Asc, patients);
    TableCompareConsistent(field, Desc, patients);
    SortBySorted(patients, up);
    SortBySorted(patients, down);
    forall x, y | x in asc && y in asc ensures down(x, y) == up(y, x) {
      TableCompareFlip(field, x, y);
    }
    ReverseSorted(asc, up, down);
    ReversePermutes(asc);
    assert forall x :: x in desc ==> x in multiset(patients);
    DistinctKeysTieOnlyEqual(patients, field, Desc, desc);
    SortedUnique(desc, Reverse(asc), down);
  }

  // ----- pagination -----

  /** `Math.ceil(n / 20)`: the fewest pages of 20 that hold `n` rows. */
  function TotalPages(n: nat): (r: nat)
    ensures r == 0 <==> n == 0
    ensures r > 0 ==> ItemsPerPage * (r - 1) < n <= ItemsPerPage * r
  {
    (n + ItemsPerPage - 1) / ItemsPerPage
  }

  function StartIndex(page: int): int {
    (page - 1) * ItemsPerPage
  }

  function EndIndex(page: int, n: nat): int {
    if StartIndex(page) + ItemsPerPage < n then StartIndex(page) + ItemsPerPage else n
  }

  /** `currentPatients`: the rows of one page. At most 20; on a page
      between 1 and the last, the rows from the page's start index on; past
      the last page, none. */
  function CurrentPatients<T>(sorted: seq<T>, page: int): (r: seq<T>)
    ensures |r| <= ItemsPerPage
    ensures 1 <= page <= TotalPages(|sorted|) ==>
      0 <= StartIndex(page) < EndIndex(page, |sorted|) <= |sorted|
      && r == sorted[StartIndex(page)..EndIndex(page, |sorted|)]
    ensures page > TotalPages(|sorted|) ==> r == []
  {
    JsSlice(sorted, StartIndex(page), EndIndex(page, |sorted|))
  }

  /** Row `i` of the sorted rows is shown on page `i / 20 + 1` at position `i % 20`. */
  lemma RowOnPage<T>(sorted: seq<T>, i: nat)
    requires i < |sorted|
    ensures 1 <= i / ItemsPerPage + 1 <= TotalPages(|sorted|)
    ensures var rows := CurrentPatients(sorted, i / ItemsPerPage + 1);
      i % ItemsPerPage < |rows| && rows[i % ItemsPerPage] == sorted[i]
  {
  }

  /** Row `a` may come before row `b`: both have keys, in string order for
      `Asc` and in reverse string order for `Desc`. */
  predicate KeysInOrder(field: string, order: Order, a: Submission, b: Submission) {
    SortKey(field, a).Some? && SortKey(field, b).Some? &&
    if order == Asc then !LexLess(SortKey(field, b).value, SortKey(field, a).value)
    else !LexLess(SortKey(field, a).value, SortKey(field, b).value)
  }

  function InOrderFn(field: string, order: Order): (Submission, Submission) -> bool {
    (a, b) => KeysInOrder(field, order, a, b)
  }

  /** An existing page of the sorted rows keeps their key order. */
  lemma PageOrdered(patients: seq<Submission>, field: string, order: Order, page: int)
    requires field == "name" || field == "date" || field == "age"
    requires 1 <= page <= TotalPages(|patients|)
    ensures var r := CurrentPatients(SortedPatients(patients, field, order), page);
      forall i, j :: 0 <= i < j < |r| ==> KeysInOrder(field, order, r[i], r[j])
  {
    SortedPatientsOrdered(patients, field, order);
    var sorted := SortedPatients(patients, field, order);
    var ok := InOrderFn(field, order);
    assert |sorted| == |multiset(sorted)| == |patients|;
    assert CurrentPatients(sorted, page) == sorted[StartIndex(page)..EndIndex(page, |patients|)];
    assert forall i, j :: 0 <= i < j < |sorted| ==> ok(sorted[i], sorted[j]);
    SliceOrdered(sorted, StartIndex(page), EndIndex(page, |patients|), ok);
  }

  /** The pager is rendered only when there is more than one page, that is, more than 20 rows. */
  lemma PagerShown(n: nat)
    ensures TotalPages(n) > 1 <==> n > ItemsPerPage
  {
  }

  /** The first and last row numbers of "Zeige <first> bis <last> von <n> Patienten";
      on a page between 1 and the last they count exactly the rows shown. */
  function ShownRange(page: int, n: nat): (r: (int, int))
    ensures 1 <= page <= TotalPages(n) ==>
      1 <= r.0 <= r.1 <= n && r.1 - r.0 + 1 <= ItemsPerPage
      && forall s: seq<Submission> :: |s| == n ==> r.1 - r.0 + 1 == |CurrentPatients(s, page)|
  {
    (StartIndex(page) + 1, EndIndex(page, n))
  }

  /** The label text `Zeige {first} bis {last} von {n} Patienten`. On an
      existing page it splits at spaces back into its seven words, whose three
      numbers read back as the first and last row number and the row count. */
  function RangeLabel(page: int, n: nat): (r: string)
    ensures 1 <= page <= TotalPages(n) ==>
      var parts := Split(r, ' ');
      |parts| == 7 && parts[0] == "Zeige" && parts[2] == "bis" && parts[4] == "von" && parts[6] == "Patienten"
      && ParseNat(parts[1]) == Some(ShownRange(page, n).0 as nat)
      && ParseNat(parts[3]) == Some(ShownRange(page, n).1 as nat)
      && ParseNat(parts[5]) == Some(n)
  {
    var first := ShownRange(page, n).0;
    var last := ShownRange(page, n).1;
    var words := ["Zeige", IntToString(first), "bis", IntToString(last), "von", IntToString(n), "Patienten"];
    if 1 <= page <= TotalPages(n) then
      NoSpaceInNumber(first);
      NoSpaceInNumber(last);
      NoSpaceInNumber(n);
      assert forall k :: 0 <= k < |words| ==> ' ' !in words[k];
      SplitJoin(words, ' ');
      ParseNatToString(first);
      ParseNatToString(last);
      ParseNatToString(n);
      Join(words, ' ')
    else
      Join(words, ' ')
  }

  lemma NoSpaceInNumber(k: int)
    ensures ' ' !in IntToString(k)
  {
    var s := IntToString(k);
    forall i | 0 <= i < |s|
      ensures s[i] != ' '
    {
      assert IsDigit(s[i]) || s[i] == '-';
    }
  }

  // ----- age colour and badge -----

  /** `getAgeColor`: grey without a birth date, light blue up to 18 completed
      years, dark blue up to 120, and the pale fallback otherwise, which an
      invalid date also reaches (its age is NaN). */
  function AgeColor(birth: string, parse: DateParser, today: CalendarDate): (r: string)
    ensures r == "#CCCCCC" <==> birth == ""
    ensures r == "#C8DEFD" <==> birth != "" && NewDate(parse, birth).Some? && AgeInYears(NewDate(parse, birth).value, today) <= 18
    ensures r == "#0D52BF" <==> birth != "" && NewDate(parse, birth).Some? && 18 < AgeInYears(NewDate(parse, birth).value, today) <= 120
    ensures r == "#F0F0F0" <==> birth != "" && (NewDate(parse, birth).None? || AgeInYears(NewDate(parse, birth).value, today) > 120)
  {
    if birth == "" then "#CCCCCC"
    else match NewDate(parse, birth)
      case None => "#F0F0F0"
      case Some(b) =>
        var age := AgeInYears(b, today);
        if age <= 18 then "#C8DEFD" else if age <= 120 then "#0D52BF" else "#F0F0F0"
  }

  /** The "Alter" cell text: the age text, or "Kein Geburtsdatum" without a birth date. */
  function AgeCell(birth: Option<string>, parse: DateParser, today: CalendarDate): (r: string)
    ensures !Truthy(birth) ==> r == "Kein Geburtsdatum"
    ensures Truthy(birth) ==> r == CalculateAge(birth.value, parse, today)
  {
    if birth.Some? && birth.value != "" then CalculateAge(birth.value, parse, today) else "Kein Geburtsdatum"
  }

  /** The "K/E" cell: "-" without a birth date; "K" when the difference of
      the calendar years is at most 18; "E" otherwise, also for an invalid date. */
  function KeBadge(birth: Option<string>, parse: DateParser, today: CalendarDate): (r: string)
    ensures r == "-" <==> !Truthy(birth)
    ensures r == "K" <==>
      Truthy(birth) && NewDate(parse, birth.value).Some? && today.year - NewDate(parse, birth.value).value.year <= 18
    ensures r == "E" <==>
      Truthy(birth) && !(NewDate(parse, birth.value).Some? && today.year - NewDate(parse, birth.value).value.year <= 18)
  {
    if !Truthy(birth) then "-"
    else match NewDate(parse, birth.value)
      case None => "E"
      case Some(b) => if today.year - b.year <= 18 then "K" else "E"
  }

  /** The badge ignores whether the birthday has come: every child of up to
      17 completed years shows "K", but so can someone of 18. */
  lemma KeBadgeVersusAge(birth: string, parse: DateParser, today: CalendarDate)
    requires birth != "" && NewDate(parse, birth).Some?
    ensures var age := AgeInYears(NewDate(parse, birth).value, today);
      (age <= 17 ==> KeBadge(Some(birth), parse, today) == "K")
      && (KeBadge(Some(birth), parse, today) == "K" ==> age <= 18)
  {
  }

  // ----- table state -----

  /** The sort state after a click on `clicked`: the same field flips the
      order, another field is sorted newest first (`Desc`). */
  function NextSort(field: string, order: Order, clicked: string): (r: (string, Order))
    ensures r.0 == clicked
    ensures clicked == field ==> r.1 == Flip(order)
    ensures clicked != field ==> r.1 == Desc
  {
    if clicked == field then (field, Flip(order)) else (clicked, Desc)
  }

  /** Two clicks on the sorted field restore the order. */
  lemma SortClickTwice(field: string, order: Order)
    ensures var (f1, o1) := NextSort(field, order, field); NextSort(f1, o1, field) == (field, order)
  {
  }

  /** The sort field a column click asks for: the lowercased column title. */
  function ColumnSortField(title: string): (r: string)
    ensures |r| == |title|
  {
    Lower(title)
  }

  /** Of the column titles, only "Name" lowercases to a sort field; a click
      on the date column asks for a field the sort does not know. */
  lemma OnlyNameColumnSorts()
    ensures ColumnSortField("Name") == "name"
    ensures forall t :: t in ["Datum (Neueste)", "Datum (\U{C4}lteste)", "HB", "WV", "K/E", "Alter", ""] ==>
      var f := ColumnSortField(t); f != "name" && f != "date" && f != "age"
  {
    assert Lower("Name") == "name" by {
      assert Lower("Name")[0] == LowerChar('N');
    }
    assert Lower("K/E")[0] == 'k';
  }

  /** The rows, sort field, sort order and current page of the table. */
  class TableState {
    var currentPage: int
    var sortField: string
    var sortOrder: Order

    constructor()
      ensures currentPage == 1 && sortField == "date" && sortOrder == Desc
    {
      currentPage := 1;
      sortField := "date";
      sortOrder := Desc;
    }

    /** The rows shown: the current page of the sorted rows. An existing
        page holds the rows from its start index to its end index, in key
        order for a known field; for an unknown field it is that page of the
        patients as given; past the last page it is empty. */
    function Rows(patients: seq<Submission>): (r: seq<Submission>)
      reads this
      ensures |r| <= ItemsPerPage
      ensures forall x :: x in r ==> x in patients
      ensures 1 <= currentPage <= TotalPages(|patients|) ==>
        |r| == EndIndex(currentPage, |patients|) - StartIndex(currentPage)
      ensures currentPage > TotalPages(|patients|) ==> r == []
      ensures (sortField == "name" || sortField == "date" || sortField == "age") && 1 <= currentPage <= TotalPages(|patients|) ==>
        forall i, j :: 0 <= i < j < |r| ==> KeysInOrder(sortField, sortOrder, r[i], r[j])
      ensures sortField != "name" && sortField != "date" && sortField != "age" ==>
        r == CurrentPatients(patients, currentPage)
      ensures r == CurrentPatients(SortedPatients(patients, sortField, sortOrder), currentPage)
    {
      var sorted := SortedPatients(patients, sortField, sortOrder);
      var r := CurrentPatients(sorted, currentPage);
      assert forall x :: x in sorted ==> x in multiset(patients);
      if sortField != "name" && sortField != "date" && sortField != "age" then
        UnknownFieldKeepsOrder(patients, sortField, sortOrder);
        r
      else if 1 <= currentPage <= TotalPages(|patients|) then
        PageOrdered(patients, sortField, sortOrder, currentPage);
        r
      else
        r
    }

    /** `handleSort(field)`. */
    method HandleSort(clicked: string)
      modifies this
      ensures (sortField, sortOrder) == NextSort(old(sortField), old(sortOrder), clicked)
      ensures currentPage == old(currentPage)
    {
      if sortField == clicked {
        sortOrder := Flip(sortOrder);
      } else {
        sortField := clicked;
        sortOrder := Desc;
      }
    }

    /** The pager's `onChange`. */
    method SetCurrentPage(page: int)
      modifies this
      ensures currentPage == page && sortField == old(sortField) && sortOrder == old(sortOrder)
    {
      currentPage := page;
    }
  }
}
