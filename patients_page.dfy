/** The patients page: its own table rows with German date texts, the sort
    by date, pagination of 20 rows, row selection and the page state. */
module PatientsPage {
  import opened Options
  import opened Strings
  import opened Seqs
  import opened Sorting
  import opened Dates
  import opened Helpers
  import PatientTable

  const ItemsPerPage: nat := 20

  /** A row of the page's table; `date` is a `dd.mm.yyyy` text. */
  datatype Row = Row(id: string, name: string, date: string, age: string, hb: string, wv: string, ke: string)

  /** The sort state: a field and a direction, or no sort at all (`null`). */
  datatype SortSpec = SortSpec(field: string, direction: Order)

  /** `s.split('.').reverse().join('-')`. */
  function GermanToIso(s: string): string {
    Join(Reverse(Split(s, '.')), '-')
  }

  /** A `dd.mm.yyyy` text turns into `yyyy-mm-dd`. */
  lemma GermanToIsoFields(d: string, m: string, y: string)
    requires '.' !in d && '.' !in m && '.' !in y
    ensures GermanToIso(d + "." + m + "." + y) == y + "-" + m + "-" + d
  {
    assert [d, m, y][1..] == [m, y];
    assert [m, y][1..] == [y];
    assert Join([m, y], '.') == m + ['.'] + y;
    assert Join([d, m, y], '.') == d + ['.'] + (m + ['.'] + y);
    assert d + "." + m + "." + y == Join([d, m, y], '.');
    SplitJoin([d, m, y], '.');
    assert Reverse([d, m, y]) == [y, m, d];
    assert [y, m, d][1..] == [m, d];
    assert [m, d][1..] == [d];
    assert Join([m, d], '-') == m + ['-'] + d;
    assert Join([y, m, d], '-') == y + ['-'] + (m + ['-'] + d);
  }

  /** The German text of a date becomes the ISO text with the same year, month and day. */
  lemma GermanDateToIso(c: CalendarDate)
    ensures GermanToIso(GermanDate(c)) == IntToString(c.year) + "-" + Pad2(c.month) + "-" + Pad2(c.day)
  {
    var dd, mm, yy := Pad2(c.day), Pad2(c.month), IntToString(c.year);
    assert !IsDigit('.');
    GermanToIsoFields(dd, mm, yy);
  }

  /** The date of a row, through `new Date` of its ISO text. */
  function RowDate(r: Row, parse: DateParser): Option<CalendarDate> {
    NewDate(parse, GermanToIso(r.date))
  }

  /** The page's comparator: for the date field the difference of the
      times, later minus earlier for `desc`; an invalid date gives NaN, which
      the sort treats as a tie; every other field ties. */
  function RowCompare(spec: SortSpec, parse: DateParser, a: Row, b: Row): (r: int)
    ensures spec.field != "date" || RowDate(a, parse).None? || RowDate(b, parse).None? ==> r == 0
    ensures spec.field == "date" && RowDate(a, parse).Some? && RowDate(b, parse).Some? ==>
      var ta, tb := DayNumber(RowDate(a, parse).value), DayNumber(RowDate(b, parse).value);
      (r < 0 <==> if spec.direction == Asc then ta < tb else tb < ta) && (r == 0 <==> ta == tb)
  {
    if spec.field != "date" then 0
    else match (RowDate(a, parse), RowDate(b, parse))
      case (Some(da), Some(db)) =>
        if spec.direction == Asc then DayNumber(da) - DayNumber(db) else DayNumber(db) - DayNumber(da)
      case _ => 0
  }

  function RowCmp(spec: SortSpec, parse: DateParser): (Row, Row) -> int {
    (a, b) => RowCompare(spec, parse, a, b)
  }

  /** `sortedPatients`: the rows as they are without a sort, else a sorted copy. */
  function SortedRows(rows: seq<Row>, sortBy: Option<SortSpec>, parse: DateParser): (r: seq<Row>)
    ensures multiset(r) == multiset(rows)
    ensures sortBy.None? ==> r == rows
  {
    match sortBy
    case None => rows
    case Some(spec) => SortBy(rows, RowCmp(spec, parse))
  }

  /** Sorting by any field other than the date keeps the rows in their order. */
  lemma OtherFieldKeepsOrder(rows: seq<Row>, spec: SortSpec, parse: DateParser)
    requires spec.field != "date"
    ensures SortedRows(rows, Some(spec), parse) == rows
  {
    SortByAllTies(rows, RowCmp(spec, parse));
  }

  /** On rows with valid dates the date comparator is consistent. */
  lemma RowCompareConsistent(rows: seq<Row>, spec: SortSpec, parse: DateParser)
    requires forall r :: r in rows ==> RowDate(r, parse).Some?
    ensures ConsistentOn(RowCmp(spec, parse), rows)
  {
    var cmp := RowCmp(spec, parse);
    forall a, b, c | a in rows && b in rows && c in rows && cmp(a, b) <= 0 && cmp(b, c) <= 0
      ensures cmp(a, c) <= 0
    {
    }
  }

  /** `a` has a date no later (`asc`) or no earlier (`desc`) than `b`. */
  predicate DateInOrder(spec: SortSpec, parse: DateParser, a: Row, b: Row)
    requires RowDate(a, parse).Some? && RowDate(b, parse).Some?
  {
    var ta, tb := DayNumber(RowDate(a, parse).value), DayNumber(RowDate(b, parse).value);
    if spec.direction == Asc then ta <= tb else tb <= ta
  }

  lemma PairInOrder(spec: SortSpec, parse: DateParser, a: Row, b: Row)
    requires spec.field == "date" && RowDate(a, parse).Some? && RowDate(b, parse).Some?
    requires RowCompare(spec, parse, a, b) <= 0
    ensures DateInOrder(spec, parse, a, b)
  {
  }

  /** A sequence sorted by the date comparator has its dates in order. */
  lemma SortedRowsInOrder(s: seq<Row>, spec: SortSpec, parse: DateParser)
    requires spec.field == "date"
    requires forall r :: r in s ==> RowDate(r, parse).Some?
    requires SortedBy(s, RowCmp(spec, parse))
    ensures forall i, j :: 0 <= i < j < |s| ==>
      RowDate(s[i], parse).Some? && RowDate(s[j], parse).Some? && DateInOrder(spec, parse, s[i], s[j])
  {
    forall i, j | 0 <= i < j < |s|
      ensures RowDate(s[i], parse).Some? && RowDate(s[j], parse).Some? && DateInOrder(spec, parse, s[i], s[j])
    {
      assert s[i] in s && s[j] in s;
      PairInOrder(spec, parse, s[i], s[j]);
    }
  }

  /** When every row's date is valid, sorting by date orders the rows by
      their dates: oldest first for `asc`, newest first for `desc`. */
  lemma SortedByDate(rows: seq<Row>, spec: SortSpec, parse: DateParser)
    requires spec.field == "date"
    requires forall r :: r in rows ==> RowDate(r, parse).Some?
    ensures var s := SortedRows(rows, Some(spec), parse);
      forall i, j :: 0 <= i < j < |s| ==>
        RowDate(s[i], parse).Some? && RowDate(s[j], parse).Some? && DateInOrder(spec, parse, s[i], s[j])
  {
    var cmp := RowCmp(spec, parse);
    var s := SortBy(rows, cmp);
    assert SortedRows(rows, Some(spec), parse) == s;
    RowCompareConsistent(rows, spec, parse);
    SortBySorted(rows, cmp);
    forall x | x in s
      ensures RowDate(x, parse).Some?
    {
      assert x in multiset(s);
    }
    SortedRowsInOrder(s, spec, parse);
  }

  // ----- pagination -----

  /** `currentPatients`: the slice from `(page - 1) * 20` to `page * 20`. */
  function PageRows<T>(sorted: seq<T>, page: int): (r: seq<T>)
    ensures |r| <= ItemsPerPage
  {
    JsSlice(sorted, (page - 1) * ItemsPerPage, page * ItemsPerPage)
  }

  /** The page and the patient table cut the same rows for every page number,
      though one ends its slice at `page * 20` and the other at the row count. */
  lemma PaginationAgrees<T>(sorted: seq<T>, page: int)
    ensures PageRows(sorted, page) == PatientTable.CurrentPatients(sorted, page)
  {
  }

  /** Both rows have valid dates, and they are in order for the direction. */
  predicate DatedInOrder(spec: SortSpec, parse: DateParser, a: Row, b: Row) {
    RowDate(a, parse).Some? && RowDate(b, parse).Some? && DateInOrder(spec, parse, a, b)
  }

  function DatedInOrderFn(spec: SortSpec, parse: DateParser): (Row, Row) -> bool {
    (a, b) => DatedInOrder(spec, parse, a, b)
  }

  /** When every row's date is valid, an existing page of the date-sorted
      rows has its dates in order. */
  lemma PageDatesInOrder(rows: seq<Row>, spec: SortSpec, parse: DateParser, page: int)
    requires spec.field == "date"
    requires forall r :: r in rows ==> RowDate(r, parse).Some?
    requires 1 <= page <= PatientTable.TotalPages(|rows|)
    ensures var r := PageRows(SortedRows(rows, Some(spec), parse), page);
      forall i, j :: 0 <= i < j < |r| ==> DatedInOrder(spec, parse, r[i], r[j])
  {
    SortedByDate(rows, spec, parse);
    var sorted := SortedRows(rows, Some(spec), parse);
    var ok := DatedInOrderFn(spec, parse);
    assert |sorted| == |multiset(sorted)| == |rows|;
    PaginationAgrees(sorted, page);
    assert PageRows(sorted, page) == sorted[PatientTable.StartIndex(page)..PatientTable.EndIndex(page, |rows|)];
    assert forall i, j :: 0 <= i < j < |sorted| ==> ok(sorted[i], sorted[j]);
    SliceOrdered(sorted, PatientTable.StartIndex(page), PatientTable.EndIndex(page, |rows|), ok);
  }

  /** The first and last row numbers of the page's "Zeige … bis … von …" label;
      they are those of the patient table's label. */
  function PageShownRange(page: int, n: nat): (r: (int, int))
    ensures r == PatientTable.ShownRange(page, n)
  {
    ((page - 1) * ItemsPerPage + 1, if page * ItemsPerPage < n then page * ItemsPerPage else n)
  }

  // ----- sort and selection state -----

  /** `handleSort(field)`: the same field flips the direction; another
      field, or no sort yet, sorts newest first. */
  function NextSortBy(prev: Option<SortSpec>, field: string): (r: Option<SortSpec>)
    ensures r.Some? && r.value.field == field
    ensures prev.Some? && prev.value.field == field ==> r.value.direction == Flip(prev.value.direction)
    ensures !(prev.Some? && prev.value.field == field) ==> r.value.direction == Desc
  {
    if prev.Some? && prev.value.field == field then Some(SortSpec(field, Flip(prev.value.direction)))
    else Some(SortSpec(field, Desc))
  }

  /** The first click sorts newest first, the second oldest first, the third newest first again. */
  lemma DateClicks()
    ensures NextSortBy(None, "date") == Some(SortSpec("date", Desc))
    ensures NextSortBy(NextSortBy(None, "date"), "date") == Some(SortSpec("date", Asc))
    ensures NextSortBy(NextSortBy(NextSortBy(None, "date"), "date"), "date") == Some(SortSpec("date", Desc))
  {
  }

  /** The ids the table reports as selected: none, texts, or numbers. */
  datatype SelectedIds = NoIds | TextIds(texts: seq<string>) | NumberIds(numbers: seq<int>)

  /** `selectedIds ? selectedIds.map(id => String(id)) : []`. */
  function SelectionStrings(ids: SelectedIds): (r: seq<string>)
    ensures ids.NoIds? ==> r == []
    ensures ids.TextIds? ==> r == ids.texts
    ensures ids.NumberIds? ==> |r| == |ids.numbers|
    ensures ids.NumberIds? ==>
      forall i :: 0 <= i < |r| && ids.numbers[i] >= 0 ==> ParseNat(r[i]) == Some(ids.numbers[i])
  {
    match ids
    case NoIds => []
    case TextIds(texts) => texts
    case NumberIds(numbers) =>
      var r := seq(|numbers|, i requires 0 <= i < |numbers| => IntToString(numbers[i]));
      assert forall i :: 0 <= i < |r| && numbers[i] >= 0 ==> ParseNat(r[i]) == Some(numbers[i]) by {
        forall i | 0 <= i < |r| && numbers[i] >= 0 ensures ParseNat(r[i]) == Some(numbers[i]) {
          ParseNatToString(numbers[i]);
        }
      }
      r
  }

  /** The page's state: current page, selected row ids, sort. */
  class PageState {
    var currentPage: int
    var selectedRows: seq<string>
    var sortBy: Option<SortSpec>

    constructor()
      ensures currentPage == 1 && selectedRows == [] && sortBy == None
    {
      currentPage := 1;
      selectedRows := [];
      sortBy := None;
    }

    /** The rows shown: the current page of the sorted rows. An existing
        page holds the rows from its start index to its end index; without a
        date sort it is that page of the rows as given; with a date sort over
        valid dates its dates are in order; past the last page it is empty. */
    function CurrentRows(rows: seq<Row>, parse: DateParser): (r: seq<Row>)
      reads this
      ensures |r| <= ItemsPerPage
      ensures forall x :: x in r ==> x in rows
      ensures 1 <= currentPage <= PatientTable.TotalPages(|rows|) ==>
        |r| == PatientTable.EndIndex(currentPage, |rows|) - PatientTable.StartIndex(currentPage)
      ensures currentPage > PatientTable.TotalPages(|rows|) ==> r == []
      ensures sortBy.None? || sortBy.value.field != "date" ==> r == PageRows(rows, currentPage)
      ensures sortBy.Some? && sortBy.value.field == "date" && (forall x :: x in rows ==> RowDate(x, parse).Some?)
              && 1 <= currentPage <= PatientTable.TotalPages(|rows|) ==>
        forall i, j :: 0 <= i < j < |r| ==> DatedInOrder(sortBy.value, parse, r[i], r[j])
      ensures r == PageRows(SortedRows(rows, sortBy, parse), currentPage)
    {
      var sorted := SortedRows(rows, sortBy, parse);
      assert forall x :: x in sorted ==> x in multiset(rows);
      assert |sorted| == |multiset(sorted)| == |rows|;
      PaginationAgrees(sorted, currentPage);
      if sortBy.Some? && sortBy.value.field != "date" then
        OtherFieldKeepsOrder(rows, sortBy.value, parse);
        PageRows(sorted, currentPage)
      else if sortBy.Some? && (forall x :: x in rows ==> RowDate(x, parse).Some?)
              && 1 <= currentPage <= PatientTable.TotalPages(|rows|) then
        PageDatesInOrder(rows, sortBy.value, parse, currentPage);
        PageRows(sorted, currentPage)
      else
        PageRows(sorted, currentPage)
    }

    method HandleSort(field: string)
      modifies this
      ensures sortBy == NextSortBy(old(sortBy), field)
      ensures currentPage == old(currentPage) && selectedRows == old(selectedRows)
    {
      if sortBy.Some? && sortBy.value.field == field {
        sortBy := Some(SortSpec(field, Flip(sortBy.value.direction)));
      } else {
        sortBy := Some(SortSpec(field, Desc));
      }
    }

    method HandleSelectionChange(ids: SelectedIds)
      modifies this
      ensures selectedRows == SelectionStrings(ids)
      ensures currentPage == old(currentPage) && sortBy == old(sortBy)
    {
      selectedRows := SelectionStrings(ids);
    }

    method HandlePageChange(page: int)
      modifies this
      ensures currentPage == page
      ensures selectedRows == old(selectedRows) && sortBy == old(sortBy)
    {
      currentPage := page;
    }
  }
}
