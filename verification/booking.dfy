/**
 Booking records and the two row filters applied before grouping: the time window
 (app.py lines 21-27) and the "Self Practice" exclusion (app.py line 30).
 */
module Booking {
  import opened Wrappers
  import Text
  import Seqs

  /** `Id_Person`: an opaque identifier; pandas orders grouped ids ascending. */
  type PersonId = int

  /**
   The calendar month of a timestamp, `to_period("M")`. Its zero-padded `YYYY-MM`
   rendering compares lexicographically exactly as `(year, month)` does.
   */
  datatype Month = Month(year: int, month: int)

  /** Chronological (lexicographic) order on months: the `<=` of the `YYYY-MM` strings. */
  predicate MonthLe(a: Month, b: Month) {
    a.year < b.year || (a.year == b.year && a.month <= b.month)
  }

  /**
   A period label, `to_period("M").astype(str)`: a month, or `"NaT"` for a timestamp
   that did not parse. The period selectors hold the same labels.
   */
  datatype Period = InMonth(month: Month) | NaT

  /**
   The string order of period labels: months in chronological order, and `"NaT"` after
   every month, because `'N'` sorts after every digit.
   */
  predicate PeriodLe(a: Period, b: Period) {
    match a
    case NaT => b.NaT?
    case InMonth(x) => b.NaT? || MonthLe(x, b.month)
  }

  /**
   One spreadsheet row. `className` is None for an empty cell; `period` is the label of
   `Start_Date_time`, `NaT` when the timestamp could not be parsed.
   */
  datatype Row = Row(personId: PersonId, firstName: string, className: Option<string>, period: Period)

  /** The analysis window: one period, or an inclusive range of periods. */
  datatype Window = Single(period: Period) | Range(start: Period, end: Period)

  /** The first period a window admits. */
  function Lo(w: Window): Period {
    match w
    case Single(p) => p
    case Range(lo, _) => lo
  }

  /** The last period a window admits. */
  function Hi(w: Window): Period {
    match w
    case Single(p) => p
    case Range(_, hi) => hi
  }

  /**
   Chooses the window from the three optional selector values: a period wins; otherwise
   a range needs both ends; otherwise there is nothing to compute yet. An absent or
   empty selector (falsy in Python) is None; `"NaT"` is a non-empty label and selects.
   */
  function SelectWindow(period: Option<Period>, start: Option<Period>, end: Option<Period>): (w: Option<Window>)
    ensures w.None? <==> period.None? && (start.None? || end.None?)
    ensures period.Some? ==> w == Some(Single(period.value))
    ensures period.None? && start.Some? && end.Some? ==> w == Some(Range(start.value, end.value))
  {
    if period.Some? then Some(Single(period.value))
    else if start.Some? && end.Some? then Some(Range(start.value, end.value))
    else None
  }

  /** Every selector value that is given is a month, not `"NaT"`. */
  predicate MonthSelectors(period: Option<Period>, start: Option<Period>, end: Option<Period>) {
    && (period.Some? ==> period.value.InMonth?)
    && (start.Some? ==> start.value.InMonth?)
    && (end.Some? ==> end.value.InMonth?)
  }

  /**
   Whether a row's period label passes the window test: equal to the single period, or
   between the range ends by string comparison. Either way the window is the inclusive
   interval of labels from `Lo(w)` to `Hi(w)`.
   */
  predicate InWindow(p: Period, w: Window)
    ensures InWindow(p, w) <==> PeriodLe(Lo(w), p) && PeriodLe(p, Hi(w))
  {
    match w
    case Single(q) => p == q
    case Range(lo, hi) => PeriodLe(lo, p) && PeriodLe(p, hi)
  }

  const SelfPractice: string := "Self Practice"

  /**
   Whether a class name contains "Self Practice" ignoring case; an empty cell never
   does (`na=False`).
   */
  predicate IsSelfPractice(className: Option<string>)
    ensures IsSelfPractice(className) <==>
      className.Some? && exists i :: Text.OccursAt(Text.Lower(className.value), Text.Lower(SelfPractice), i)
    ensures IsSelfPractice(className) ==> |className.value| >= |SelfPractice|
  {
    match className
    case None => false
    case Some(name) =>
      Text.ContainsIgnoreCaseMeaning(name, SelfPractice);
      Text.ContainsIgnoreCase(name, SelfPractice)
  }

  /** A row survives both filters. */
  predicate Kept(r: Row, w: Window) {
    InWindow(r.period, w) && !IsSelfPractice(r.className)
  }

  /** The rows inside the window, in their original order. */
  function WindowRows(rows: seq<Row>, w: Window): seq<Row> {
    Seqs.Filter(rows, (r: Row) => InWindow(r.period, w))
  }

  /** The rows that are not "Self Practice" classes, in their original order. */
  function ExcludeSelfPractice(rows: seq<Row>): seq<Row> {
    Seqs.Filter(rows, (r: Row) => !IsSelfPractice(r.className))
  }

  /**
   `data_filtered` after line 30: the window filter followed by the exclusion filter.
   It is the single-pass filter on `Kept`, and a row is in it exactly when it is a row
   of the data that lies in the window and is not a self-practice class.
   */
  function Filtered(rows: seq<Row>, w: Window): (f: seq<Row>)
    ensures f == Seqs.Filter(rows, (r: Row) => Kept(r, w))
    ensures forall r :: r in f <==> r in rows && InWindow(r.period, w) && !IsSelfPractice(r.className)
  {
    var f := ExcludeSelfPractice(WindowRows(rows, w));
    Seqs.FilterFilter(rows, (r: Row) => InWindow(r.period, w), (r: Row) => !IsSelfPractice(r.className), (r: Row) => Kept(r, w));
    f
  }

  /** Monthly mode with a month keeps exactly the rows of that month (minus self-practice classes). */
  lemma MonthlyWindowKeeps(rows: seq<Row>, p: Month, r: Row)
    requires r in rows && !IsSelfPractice(r.className)
    ensures r in Filtered(rows, Single(InMonth(p))) <==> r.period == InMonth(p)
  {
  }

  /** Range mode between two months keeps exactly the rows whose month lies in `[lo, hi]`, both ends included. */
  lemma RangeWindowKeeps(rows: seq<Row>, lo: Month, hi: Month, r: Row)
    requires r in rows && !IsSelfPractice(r.className)
    ensures r in Filtered(rows, Range(InMonth(lo), InMonth(hi))) <==>
      r.period.InMonth? && MonthLe(lo, r.period.month) && MonthLe(r.period.month, hi)
  {
  }

  /**
   A row whose timestamp did not parse is kept exactly when the window ends at `"NaT"`:
   the period `"NaT"` itself, or a range whose end is `"NaT"`.
   */
  lemma UnparsedRowKept(rows: seq<Row>, w: Window, r: Row)
    requires r in rows && r.period.NaT? && !IsSelfPractice(r.className)
    ensures r in Filtered(rows, w) <==> Hi(w).NaT?
  {
  }

  /** A row whose timestamp did not parse is kept by no window that ends at a month. */
  lemma UnparsedMonthNeverKept(rows: seq<Row>, w: Window, r: Row)
    requires r.period.NaT? && Hi(w).InMonth?
    ensures r !in Filtered(rows, w)
  {
  }

  /** When every selector given is a month, the chosen window ends at a month. */
  lemma MonthSelectorsEndInMonth(period: Option<Period>, start: Option<Period>, end: Option<Period>)
    requires MonthSelectors(period, start, end) && SelectWindow(period, start, end).Some?
    ensures Hi(SelectWindow(period, start, end).value).InMonth?
  {
  }

  /**
   With the labels the period dropdown offers when a timestamp fails to parse, `"NaT"`
   selects rows: as the monthly period it keeps exactly the unparsable rows, and as the
   end of a range it adds them to the range.
   */
  lemma NaTSelectorExample()
    ensures var ann := Row(1, "Ann", None, NaT);
      var bob := Row(2, "Bob", None, InMonth(Month(2024, 1)));
      && Filtered([ann, bob], Single(NaT)) == [ann]
      && Filtered([ann, bob], Range(InMonth(Month(2024, 1)), NaT)) == [ann, bob]
  {
    var ann := Row(1, "Ann", None, NaT);
    var bob := Row(2, "Bob", None, InMonth(Month(2024, 1)));
    FilterTwo(ann, bob, Single(NaT));
    FilterTwo(ann, bob, Range(InMonth(Month(2024, 1)), NaT));
  }

  /** The filtered data of two rows, row by row. */
  lemma FilterTwo(a: Row, b: Row, w: Window)
    ensures Filtered([a, b], w) == (if Kept(a, w) then [a] else []) + (if Kept(b, w) then [b] else [])
  {
    var keep := (r: Row) => Kept(r, w);
    assert [a, b][1..] == [b];
    assert [b][1..] == [];
    assert Seqs.Filter([b], keep) == if Kept(b, w) then [b] else [];
    assert Seqs.Filter([a, b], keep) == (if Kept(a, w) then [a] else []) + Seqs.Filter([b], keep);
  }

  /**
   The window as evidently intended: an unparsable timestamp belongs to no period, so
   only rows with a month are ever kept. It agrees with `Filtered` whenever the window
   ends at a month.
   */
  function IntendedFiltered(rows: seq<Row>, w: Window): (f: seq<Row>)
    ensures forall r :: r in f <==> r in rows && r.period.InMonth? && InWindow(r.period, w) && !IsSelfPractice(r.className)
    ensures forall k :: 0 <= k < |f| ==> f[k].period.InMonth?
    ensures Hi(w).InMonth? ==> f == Filtered(rows, w)
  {
    var f := Seqs.Filter(Filtered(rows, w), (r: Row) => r.period.InMonth?);
    if Hi(w).InMonth? then
      assert forall k :: 0 <= k < |Filtered(rows, w)| ==> Filtered(rows, w)[k].period.InMonth?;
      Seqs.FilterAll(Filtered(rows, w), (r: Row) => r.period.InMonth?);
      f
    else
      f
  }

  /** The intended filter ignores a self-practice row or an unparsable row wherever it is inserted. */
  lemma IntendedFilteredIgnoresDropped(rows: seq<Row>, w: Window, i: nat, x: Row)
    requires i <= |rows|
    requires IsSelfPractice(x.className) || x.period.NaT?
    ensures IntendedFiltered(rows[..i] + [x] + rows[i..], w) == IntendedFiltered(rows, w)
  {
    var month := (r: Row) => r.period.InMonth?;
    var rows' := rows[..i] + [x] + rows[i..];
    if !Kept(x, w) {
      DroppedRowInvisible(rows, w, i, x);
    } else {
      var f := Filtered(rows, w);
      assert rows[..i] + rows[i..] == rows;
      Seqs.FilterAppend(rows[..i] + [x], rows[i..], (r: Row) => Kept(r, w));
      Seqs.FilterAppend(rows[..i], [x], (r: Row) => Kept(r, w));
      Seqs.FilterAppend(rows[..i], rows[i..], (r: Row) => Kept(r, w));
      var pre := Filtered(rows[..i], w);
      var post := Filtered(rows[i..], w);
      assert Seqs.Filter([x], (r: Row) => Kept(r, w)) == [x];
      assert Filtered(rows', w) == pre + [x] + post;
      assert f == pre + post;
      Seqs.FilterIgnoresRejected(f, |pre|, x, month);
      assert f[..|pre|] == pre && f[|pre|..] == post;
    }
  }

  /** A reversed range (`start > end` as labels) keeps nothing at all. */
  lemma ReversedRangeKeepsNothing(rows: seq<Row>, lo: Period, hi: Period)
    requires !PeriodLe(lo, hi)
    ensures Filtered(rows, Range(lo, hi)) == []
  {
    Seqs.FilterNone(rows, (r: Row) => Kept(r, Range(lo, hi)));
  }

  /** A row with an empty class-name cell is not excluded: it is kept whenever it is in the window. */
  lemma MissingClassNameKept(rows: seq<Row>, w: Window, r: Row)
    requires r in rows && r.className.None? && InWindow(r.period, w)
    ensures r in Filtered(rows, w)
  {
  }
  /** A self-practice row, in any letter case, is never kept. */
  lemma SelfPracticeNeverKept(rows: seq<Row>, w: Window, r: Row)
    requires IsSelfPractice(r.className)
    ensures r !in Filtered(rows, w)
  {
  }

  /** A row the filters drop can be inserted anywhere without changing the filtered data. */
  lemma DroppedRowInvisible(rows: seq<Row>, w: Window, i: nat, x: Row)
    requires i <= |rows|
    requires !Kept(x, w)
    ensures Filtered(rows[..i] + [x] + rows[i..], w) == Filtered(rows, w)
  {
    Seqs.FilterIgnoresRejected(rows, i, x, (r: Row) => Kept(r, w));
  }
}
