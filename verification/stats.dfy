/**
 The summary statistics of `update_outputs` (app.py lines 277-286): the table is
 flattened back into one value per person, and the mean and the (lower) median of
 that sample are taken when it is not empty.
 */
module Stats {
  import opened Wrappers
  import Text
  import opened Seqs
  import opened Booking
  import opened Grouping
  import opened Frequency

  /** The overflow row's `Freq` text, `">max_upper"`. */
  function OverflowLabel(maxUpper: nat): string {
    ">" + Text.NatToString(maxUpper)
  }

  /**
   The value a row contributes to the sample: a numeric `Freq` as is; the overflow
   label with every '>' removed and parsed by `int`, which fails on anything but digits.
   The label always parses, and the overflow row contributes `max_upper` itself.
   */
  function SampleValue(b: Bucket, maxUpper: nat): (r: Option<int>)
    ensures b.Numeric? ==> r == Some(b.n)
    ensures b.Overflow? ==> r == Some(maxUpper)
  {
    match b
    case Numeric(i) => Some(i)
    case Overflow =>
      OverflowLabelParses(maxUpper);
      match Text.ParseNat(Text.RemoveChar(OverflowLabel(maxUpper), '>'))
      case None => None
      case Some(v) => Some(v)
  }

  /**
   The overflow row's label with '>' removed parses back to `max_upper` itself: persons
   above the bound enter the sample as `max_upper`, not as `max_upper + 1`.
   */
  lemma OverflowLabelParses(maxUpper: nat)
    ensures Text.ParseNat(Text.RemoveChar(OverflowLabel(maxUpper), '>')) == Some(maxUpper)
  {
    var digits := Text.NatToString(maxUpper);
    assert '>' !in digits by {
      forall k | 0 <= k < |digits| ensures digits[k] != '>' {
        assert Text.IsDigit(digits[k]);
      }
    }
    assert OverflowLabel(maxUpper)[1..] == digits;
    assert Text.RemoveChar(OverflowLabel(maxUpper), '>') == Text.RemoveChar(digits, '>');
    Text.ParseNatToString(maxUpper);
  }

  /**
   `freq_data`: each row's value repeated `#Students` times, row after row; None if a
   label fails to parse. The sample has exactly one value per student of the table.
   */
  function Flatten(t: seq<TableRow>, maxUpper: nat): (r: Option<seq<int>>)
    ensures r.Some? <==> AllParse(t, maxUpper)
    ensures r.Some? ==> |r.value| == SumStudents(t)
  {
    if |t| == 0 then Some([])
    else
      assert forall k :: 0 <= k < |t| - 1 ==> t[..|t| - 1][k] == t[k];
      match Flatten(t[..|t| - 1], maxUpper)
      case None => None
      case Some(prefix) =>
        match SampleValue(t[|t| - 1].freq, maxUpper)
        case None => None
        case Some(v) => Some(prefix + Repeat(v, t[|t| - 1].students))
  }

  /** Every row's `Freq` label yields a sample value. */
  predicate AllParse(t: seq<TableRow>, maxUpper: nat) {
    forall k :: 0 <= k < |t| ==> SampleValue(t[k].freq, maxUpper).Some?
  }

  /** Every row's label parses, and the parsed values never decrease and stay in `[lo, hi]`. */
  predicate ValuesAscendIn(t: seq<TableRow>, maxUpper: nat, lo: int, hi: int) {
    && AllParse(t, maxUpper)
    && (forall k :: 0 <= k < |t| ==> lo <= SampleValue(t[k].freq, maxUpper).value <= hi)
    && (forall k, l :: 0 <= k <= l < |t| ==> SampleValue(t[k].freq, maxUpper).value <= SampleValue(t[l].freq, maxUpper).value)
  }

  /** Flattening rows whose values ascend within `[lo, hi]` gives a sorted sample in `[lo, hi]`, one value per student. */
  lemma {:induction false} FlattenAscending(t: seq<TableRow>, maxUpper: nat, lo: int, hi: int)
    requires ValuesAscendIn(t, maxUpper, lo, hi)
    ensures Flatten(t, maxUpper).Some?
    ensures var s := Flatten(t, maxUpper).value;
      && |s| == SumStudents(t)
      && Sorted(s)
      && (forall k :: 0 <= k < |s| ==> lo <= s[k] <= hi)
  {
    if |t| > 0 {
      var n := |t| - 1;
      var v := SampleValue(t[n].freq, maxUpper).value;
      var prefix := t[..n];
      assert ValuesAscendIn(prefix, maxUpper, lo, v) by {
        forall k | 0 <= k < |prefix| ensures SampleValue(prefix[k].freq, maxUpper).value <= v {
          assert prefix[k] == t[k];
        }
      }
      FlattenAscending(prefix, maxUpper, lo, v);
      var p := Flatten(prefix, maxUpper).value;
      var s := p + Repeat(v, t[n].students);
      assert Flatten(t, maxUpper) == Some(s);
      forall i, j | 0 <= i <= j < |s| ensures s[i] <= s[j] {
        if j >= |p| {
          assert s[j] == v;
        }
      }
    }
  }

  /** `sum(freq_data)`, row by row: each row contributes its value times `#Students`. */
  function WeightedSum(t: seq<TableRow>, maxUpper: nat): int
    requires AllParse(t, maxUpper)
  {
    if |t| == 0 then 0
    else WeightedSum(t[..|t| - 1], maxUpper) + SampleValue(t[|t| - 1].freq, maxUpper).value * t[|t| - 1].students
  }

  lemma {:induction false} SumRepeat(v: int, n: nat)
    ensures Sum(Repeat(v, n)) == v * n
  {
    if n > 0 {
      assert Repeat(v, n)[1..] == Repeat(v, n - 1);
      SumRepeat(v, n - 1);
    }
  }

  /** The sample's sum is the `#Students`-weighted sum of the row values. */
  lemma {:induction false} FlattenSum(t: seq<TableRow>, maxUpper: nat)
    requires AllParse(t, maxUpper)
    ensures Flatten(t, maxUpper).Some?
    ensures Sum(Flatten(t, maxUpper).value) == WeightedSum(t, maxUpper)
  {
    if |t| > 0 {
      var n := |t| - 1;
      var prefix := t[..n];
      assert forall k :: 0 <= k < |prefix| ==> prefix[k] == t[k];
      FlattenSum(prefix, maxUpper);
      var v := SampleValue(t[n].freq, maxUpper).value;
      SumAppend(Flatten(prefix, maxUpper).value, Repeat(v, t[n].students));
      SumRepeat(v, t[n].students);
    }
  }

  /** The table's rows carry the values `1, 2, ..., max_upper, max_upper`. */
  lemma TableValues(rows: seq<Row>, maxUpper: nat)
    requires maxUpper >= 1
    ensures ValuesAscendIn(BuildTable(rows, maxUpper).counts, maxUpper, 1, maxUpper)
    ensures ValueShaped(BuildTable(rows, maxUpper).counts, maxUpper)
  {
  }

  /** The shape part of `TableValues` on its own. */
  lemma TableShaped(rows: seq<Row>, maxUpper: nat)
    requires maxUpper >= 1
    ensures ValueShaped(BuildTable(rows, maxUpper).counts, maxUpper)
  {
    TableValues(rows, maxUpper);
  }

  /**
   The flattened sample of a table: it parses, has one value per distinct person,
   every value is in `1..max_upper`, and it comes out already in ascending order.
   */
  lemma TableSample(rows: seq<Row>, maxUpper: nat)
    requires maxUpper >= 1
    ensures Flatten(BuildTable(rows, maxUpper).counts, maxUpper).Some?
    ensures var s := Flatten(BuildTable(rows, maxUpper).counts, maxUpper).value;
      && |s| == TotalPersons(rows)
      && Sorted(s)
      && (forall k :: 0 <= k < |s| ==> 1 <= s[k] <= maxUpper)
  {
    TableValues(rows, maxUpper);
    FlattenAscending(BuildTable(rows, maxUpper).counts, maxUpper, 1, maxUpper);
    SumStudentsIsPersons(rows, maxUpper);
  }

  /** The number of students in rows whose sample value is `w`. */
  function Occurrences(t: seq<TableRow>, maxUpper: nat, w: int): nat
    requires AllParse(t, maxUpper)
  {
    if |t| == 0 then 0
    else
      Occurrences(t[..|t| - 1], maxUpper, w)
        + (if SampleValue(t[|t| - 1].freq, maxUpper).value == w then t[|t| - 1].students else 0)
  }

  /** Flattening puts exactly `#Students` copies of each row's value into the sample. */
  lemma {:induction false} FlattenOccurrences(t: seq<TableRow>, maxUpper: nat, w: int)
    requires AllParse(t, maxUpper)
    ensures Flatten(t, maxUpper).Some?
    ensures multiset(Flatten(t, maxUpper).value)[w] == Occurrences(t, maxUpper, w)
  {
    if |t| > 0 {
      var n := |t| - 1;
      var prefix := t[..n];
      assert forall k :: 0 <= k < |prefix| ==> prefix[k] == t[k];
      FlattenOccurrences(prefix, maxUpper, w);
      var v := SampleValue(t[n].freq, maxUpper).value;
      var r := Repeat(v, t[n].students);
      assert Flatten(t, maxUpper).value == Flatten(prefix, maxUpper).value + r;
      RepeatOccurrences(v, t[n].students, w);
    }
  }

  lemma {:induction false} RepeatOccurrences(v: int, n: nat, w: int)
    ensures multiset(Repeat(v, n))[w] == if v == w then n else 0
  {
    if n > 0 {
      assert Repeat(v, n) == Repeat(v, n - 1) + [v];
      RepeatOccurrences(v, n - 1, w);
    }
  }

  /** A table whose rows carry the sample values `1, 2, ..., max_upper, max_upper`. */
  predicate ValueShaped(t: seq<TableRow>, maxUpper: nat) {
    && |t| == maxUpper + 1
    && AllParse(t, maxUpper)
    && forall k :: 0 <= k <= maxUpper ==> SampleValue(t[k].freq, maxUpper).value == if k < maxUpper then k + 1 else maxUpper
  }

  /** Among the first `k` rows, value `w` comes from row `w` and, for `w == max_upper`, also from the overflow row. */
  lemma {:induction false} PrefixOccurrences(t: seq<TableRow>, maxUpper: nat, k: nat, w: int)
    requires ValueShaped(t, maxUpper) && k <= maxUpper + 1 && 1 <= w <= maxUpper
    ensures AllParse(t[..k], maxUpper)
    ensures Occurrences(t[..k], maxUpper, w)
        == (if k >= w then t[w - 1].students else 0) + (if w == maxUpper && k == maxUpper + 1 then t[maxUpper].students else 0)
  {
    var p := t[..k];
    assert forall j :: 0 <= j < |p| ==> p[j] == t[j];
    if k > 0 {
      PrefixOccurrences(t, maxUpper, k - 1, w);
      assert p[..k - 1] == t[..k - 1];
    }
  }

  /** No row carries value `w`, so the sample has no copy of it. */
  lemma {:induction false} OccurrencesAbsent(t: seq<TableRow>, maxUpper: nat, w: int)
    requires AllParse(t, maxUpper)
    requires forall k :: 0 <= k < |t| ==> SampleValue(t[k].freq, maxUpper).value != w
    ensures Occurrences(t, maxUpper, w) == 0
  {
    if |t| > 0 {
      var p := t[..|t| - 1];
      assert forall k :: 0 <= k < |p| ==> p[k] == t[k];
      OccurrencesAbsent(p, maxUpper, w);
    }
  }

  /** The copies of `w` in the flattened sample of a value-shaped table. */
  lemma ShapedSampleCounts(t: seq<TableRow>, maxUpper: nat, w: int)
    requires maxUpper >= 1 && ValueShaped(t, maxUpper)
    ensures Flatten(t, maxUpper).Some?
    ensures multiset(Flatten(t, maxUpper).value)[w]
         == if 1 <= w <= maxUpper then t[w - 1].students + (if w == maxUpper then t[maxUpper].students else 0) else 0
  {
    if 1 <= w <= maxUpper {
      SampleCountsInRange(t, maxUpper, w);
    } else {
      SampleCountsOutside(t, maxUpper, w);
    }
  }

  /** A value `1..max_upper` occurs as often as its row says, plus the overflow row for `max_upper`. */
  lemma SampleCountsInRange(t: seq<TableRow>, maxUpper: nat, w: int)
    requires maxUpper >= 1 && ValueShaped(t, maxUpper) && 1 <= w <= maxUpper
    ensures Flatten(t, maxUpper).Some?
    ensures multiset(Flatten(t, maxUpper).value)[w]
         == t[w - 1].students + (if w == maxUpper then t[maxUpper].students else 0)
  {
    FlattenOccurrences(t, maxUpper, w);
    assert t[..maxUpper + 1] == t;
    PrefixOccurrences(t, maxUpper, maxUpper + 1, w);
  }

  /** No value outside `1..max_upper` occurs in the sample. */
  lemma SampleCountsOutside(t: seq<TableRow>, maxUpper: nat, w: int)
    requires maxUpper >= 1 && ValueShaped(t, maxUpper) && (w < 1 || w > maxUpper)
    ensures Flatten(t, maxUpper).Some?
    ensures multiset(Flatten(t, maxUpper).value)[w] == 0
  {
    FlattenOccurrences(t, maxUpper, w);
    assert forall k :: 0 <= k < |t| ==> 1 <= SampleValue(t[k].freq, maxUpper).value <= maxUpper;
    OccurrencesAbsent(t, maxUpper, w);
  }

  /**
   The sample holds every person's booking count capped at `max_upper`: each value
   `w < max_upper` occurs once per person with exactly `w` bookings, `max_upper` once
   per person with `max_upper` bookings or more, and no other value occurs.
   */
  lemma SampleCounts(rows: seq<Row>, maxUpper: nat, w: int)
    requires maxUpper >= 1
    ensures Flatten(BuildTable(rows, maxUpper).counts, maxUpper).Some?
    ensures var s := Flatten(BuildTable(rows, maxUpper).counts, maxUpper).value;
      && (1 <= w < maxUpper ==> multiset(s)[w] == |PersonsWhere(rows, Eq(w))|)
      && (w == maxUpper ==> multiset(s)[w] == |PersonsWhere(rows, Eq(maxUpper))| + |PersonsWhere(rows, Above(maxUpper))|)
      && (w < 1 || w > maxUpper ==> multiset(s)[w] == 0)
  {
    TableValues(rows, maxUpper);
    if 1 <= w < maxUpper {
      PersonCountsBelow(rows, maxUpper, w);
    } else if w == maxUpper {
      PersonCountsAtMax(rows, maxUpper);
    } else {
      SampleCountsOutside(BuildTable(rows, maxUpper).counts, maxUpper, w);
    }
  }

  /** A value below `max_upper` occurs once per person with exactly that many bookings. */
  lemma PersonCountsBelow(rows: seq<Row>, maxUpper: nat, w: int)
    requires 1 <= w < maxUpper
    ensures Flatten(BuildTable(rows, maxUpper).counts, maxUpper).Some?
    ensures multiset(Flatten(BuildTable(rows, maxUpper).counts, maxUpper).value)[w] == |PersonsWhere(rows, Eq(w))|
  {
    var t := BuildTable(rows, maxUpper).counts;
    TableShaped(rows, maxUpper);
    NumericRowPersons(rows, maxUpper, w);
    SampleCountBelow(t, maxUpper, w, |PersonsWhere(rows, Eq(w))|);
  }

  /** `max_upper` occurs once per person with `max_upper` bookings or more. */
  lemma PersonCountsAtMax(rows: seq<Row>, maxUpper: nat)
    requires maxUpper >= 1
    ensures Flatten(BuildTable(rows, maxUpper).counts, maxUpper).Some?
    ensures multiset(Flatten(BuildTable(rows, maxUpper).counts, maxUpper).value)[maxUpper]
         == |PersonsWhere(rows, Eq(maxUpper))| + |PersonsWhere(rows, Above(maxUpper))|
  {
    var t := BuildTable(rows, maxUpper).counts;
    TableShaped(rows, maxUpper);
    NumericRowPersons(rows, maxUpper, maxUpper);
    OverflowRowPersons(rows, maxUpper);
    SampleCountAtMax(t, maxUpper, |PersonsWhere(rows, Eq(maxUpper))|, |PersonsWhere(rows, Above(maxUpper))|);
  }

  /** In a shaped table, a value below `max_upper` occurs as often as its own row counts. */
  lemma SampleCountBelow(t: seq<TableRow>, maxUpper: nat, w: int, n: nat)
    requires ValueShaped(t, maxUpper) && 1 <= w < maxUpper && t[w - 1].students == n
    ensures Flatten(t, maxUpper).Some?
    ensures multiset(Flatten(t, maxUpper).value)[w] == n
  {
    SampleCountsInRange(t, maxUpper, w);
  }

  /** In a shaped table, `max_upper` occurs as often as its own row and the overflow row count together. */
  lemma SampleCountAtMax(t: seq<TableRow>, maxUpper: nat, a: nat, b: nat)
    requires maxUpper >= 1 && ValueShaped(t, maxUpper)
    requires t[maxUpper - 1].students == a && t[maxUpper].students == b
    ensures Flatten(t, maxUpper).Some?
    ensures multiset(Flatten(t, maxUpper).value)[maxUpper] == a + b
  {
    SampleCountsInRange(t, maxUpper, maxUpper);
  }

  /** The `#Students` of the numeric row labelled `i` as a number of persons. */
  lemma NumericRowPersons(rows: seq<Row>, maxUpper: nat, i: nat)
    requires 1 <= i <= maxUpper
    ensures BuildTable(rows, maxUpper).counts[i - 1].students == |PersonsWhere(rows, Eq(i))|
  {
    NumericRowFields(rows, maxUpper, i - 1);
    GroupNumWhere(rows, Eq(i));
  }

  /** The `#Students` of the overflow row as a number of persons. */
  lemma OverflowRowPersons(rows: seq<Row>, maxUpper: nat)
    requires maxUpper >= 1
    ensures BuildTable(rows, maxUpper).counts[maxUpper].students == |PersonsWhere(rows, Above(maxUpper))|
  {
    RowsCountPersons(rows, maxUpper, maxUpper);
  }

  // ----- Sorting -----

  /** A lower bound of every element carries over to any permutation. */
  lemma PermutationLowerBound(r: seq<int>, t: seq<int>, b: int)
    requires multiset(r) == multiset(t)
    requires forall k :: 0 <= k < |t| ==> b <= t[k]
    ensures forall k :: 0 <= k < |r| ==> b <= r[k]
  {
    forall k | 0 <= k < |r| ensures b <= r[k] {
      assert r[k] in multiset(t);
      var i :| 0 <= i < |t| && t[i] == r[k];
    }
  }

  /** Inserts `x` into a sorted sequence, keeping it sorted. */
  function InsertSorted(x: int, s: seq<int>): (r: seq<int>)
    requires Sorted(s)
    ensures Sorted(r)
    ensures multiset(r) == multiset(s) + multiset{x}
  {
    if |s| == 0 then [x]
    else if x <= s[0] then [x] + s
    else
      var rest := InsertSorted(x, s[1..]);
      InsertSortedStep(x, s, rest);
      [s[0]] + rest
  }

  /** Putting the head back in front of the insertion into the tail keeps order and contents. */
  lemma InsertSortedStep(x: int, s: seq<int>, rest: seq<int>)
    requires Sorted(s) && |s| > 0 && s[0] < x
    requires Sorted(rest) && multiset(rest) == multiset(s[1..]) + multiset{x}
    ensures Sorted([s[0]] + rest)
    ensures multiset([s[0]] + rest) == multiset(s) + multiset{x}
  {
    var t := s[1..] + [x];
    assert multiset(t) == multiset(s[1..]) + multiset{x};
    PermutationLowerBound(rest, t, s[0]);
    assert s == [s[0]] + s[1..];
  }

  /** Python's `sorted`: a sorted permutation of the input. */
  function Sort(s: seq<int>): (r: seq<int>)
    ensures Sorted(r)
    ensures multiset(r) == multiset(s)
  {
    if |s| == 0 then []
    else
      assert s == [s[0]] + s[1..];
      InsertSorted(s[0], Sort(s[1..]))
  }

  /** The head of a sorted sequence is at most the head of any permutation of it. */
  lemma SortedHeadIsLeast(a: seq<int>, b: seq<int>)
    requires Sorted(b) && multiset(a) == multiset(b) && |a| > 0
    ensures |b| > 0 && b[0] <= a[0]
  {
    assert a[0] in multiset(b);
    var i :| 0 <= i < |b| && b[i] == a[0];
  }

  /** A sorted permutation is unique. */
  lemma {:induction false} SortedUnique(a: seq<int>, b: seq<int>)
    requires Sorted(a) && Sorted(b) && multiset(a) == multiset(b)
    ensures a == b
  {
    if |a| > 0 {
      SortedHeadIsLeast(a, b);
      SortedHeadIsLeast(b, a);
      assert a == [a[0]] + a[1..];
      assert b == [b[0]] + b[1..];
      assert multiset(a[1..]) == multiset(a) - multiset{a[0]};
      assert multiset(b[1..]) == multiset(b) - multiset{b[0]};
      SortedUnique(a[1..], b[1..]);
    } else {
      assert |b| == |multiset(b)| == 0;
    }
  }

  /** Sorting an already sorted sequence changes nothing. */
  lemma SortSorted(s: seq<int>)
    requires Sorted(s)
    ensures Sort(s) == s
  {
    SortedUnique(Sort(s), s);
  }

  // ----- Mean and median -----

  /** `sum(s) / len(s)`, kept as an exact rational: `len(s)` copies of it add up to the sum. */
  function Mean(s: seq<int>): (m: real)
    requires |s| > 0
    ensures m * |s| as real == Sum(s) as real
  {
    Sum(s) as real / |s| as real
  }

  /** Dividing by a positive `n` preserves a bound `c * n` on `x`. */
  lemma QuotientBounds(x: int, n: int, c: int)
    requires n > 0
    ensures c * n <= x ==> c as real <= x as real / n as real
    ensures x <= c * n ==> x as real / n as real <= c as real
  {
    var q := x as real / n as real;
    assert q * n as real == x as real;
    assert (c * n) as real == c as real * n as real;
    if q < c as real {
      assert q * n as real < c as real * n as real;
    }
    if q > c as real {
      assert q * n as real > c as real * n as real;
    }
  }

  /** The mean of values drawn from `[lo, hi]` lies in `[lo, hi]`. */
  lemma MeanBounds(s: seq<int>, lo: int, hi: int)
    requires |s| > 0
    requires forall k :: 0 <= k < |s| ==> lo <= s[k] <= hi
    ensures lo as real <= Mean(s) <= hi as real
  {
    SumBounds(s, lo, hi);
    assert lo * |s| == |s| * lo && hi * |s| == |s| * hi;
    QuotientBounds(Sum(s), |s|, lo);
    QuotientBounds(Sum(s), |s|, hi);
  }

  /** `sorted(s)[len(s) // 2]`: the lower median. */
  function Median(s: seq<int>): (m: int)
    requires |s| > 0
    ensures m == Sort(s)[|s| / 2]
    ensures m in s
    ensures forall k :: 0 <= k < |s| / 2 ==> Sort(s)[k] <= m
    ensures forall k :: |s| / 2 <= k < |s| ==> m <= Sort(s)[k]
  {
    var r := Sort(s);
    assert |r| == |multiset(r)| == |s|;
    assert r[|s| / 2] in multiset(s);
    r[|s| / 2]
  }

  /** The median lies between the smallest and the largest sample values. */
  lemma MedianBetween(s: seq<int>, lo: int, hi: int)
    requires |s| > 0
    requires forall k :: 0 <= k < |s| ==> lo <= s[k] <= hi
    ensures lo <= Median(s) <= hi
  {
  }

  /** The two summary statistics of the chart. */
  datatype Summary = Summary(mean: real, median: int)

  /** The statistics of a table, or None when its sample is empty (or a label fails to parse). */
  function Statistics(t: seq<TableRow>, maxUpper: nat): (r: Option<Summary>)
    ensures r.Some? ==> Flatten(t, maxUpper).Some? && |Flatten(t, maxUpper).value| > 0
    ensures Flatten(t, maxUpper).Some? && |Flatten(t, maxUpper).value| > 0 ==> r.Some?
  {
    match Flatten(t, maxUpper)
    case None => None
    case Some(s) => if |s| == 0 then None else Some(Summary(Mean(s), Median(s)))
  }

  /** A frequency table has statistics exactly when some person has a kept booking. */
  lemma TableStatisticsPresent(rows: seq<Row>, maxUpper: nat)
    requires maxUpper >= 1
    ensures Statistics(BuildTable(rows, maxUpper).counts, maxUpper).None? <==> TotalPersons(rows) == 0
  {
    TableSample(rows, maxUpper);
  }

  /** The statistics of a parsed, sorted, non-empty sample with values in `[lo, hi]`. */
  lemma SampleStatistics(t: seq<TableRow>, maxUpper: nat, s: seq<int>, lo: int, hi: int)
    requires AllParse(t, maxUpper)
    requires Flatten(t, maxUpper) == Some(s) && |s| > 0 && Sorted(s)
    requires forall k :: 0 <= k < |s| ==> lo <= s[k] <= hi
    ensures Statistics(t, maxUpper) == Some(Summary(Mean(s), Median(s)))
    ensures lo as real <= Mean(s) <= hi as real
    ensures Mean(s) == WeightedSum(t, maxUpper) as real / |s| as real
    ensures Median(s) == s[|s| / 2] && lo <= Median(s) <= hi
  {
    assert Statistics(t, maxUpper) == Some(Summary(Mean(s), Median(s)));
    MeanBounds(s, lo, hi);
    MedianBetween(s, lo, hi);
    SortSorted(s);
    FlattenSum(t, maxUpper);
  }

  /**
   The statistics of a frequency table with persons in it: the mean lies in
   `[1, max_upper]` and is the `#Students`-weighted sum of the row values divided by
   the number of persons; the median is the value at index `n / 2` of the (already
   ascending) sample, also in `[1, max_upper]`.
   */
  lemma TableStatistics(rows: seq<Row>, maxUpper: nat)
    requires maxUpper >= 1 && TotalPersons(rows) > 0
    ensures Flatten(BuildTable(rows, maxUpper).counts, maxUpper).Some?
    ensures |Flatten(BuildTable(rows, maxUpper).counts, maxUpper).value| == TotalPersons(rows)
    ensures AllParse(BuildTable(rows, maxUpper).counts, maxUpper)
    ensures Statistics(BuildTable(rows, maxUpper).counts, maxUpper).Some?
    ensures var t := BuildTable(rows, maxUpper).counts;
      var st := Statistics(t, maxUpper).value;
      var s := Flatten(t, maxUpper).value;
      && 1 as real <= st.mean <= maxUpper as real
      && st.mean == WeightedSum(t, maxUpper) as real / TotalPersons(rows) as real
      && st.median == s[TotalPersons(rows) / 2]
      && 1 <= st.median <= maxUpper
  {
    var t := BuildTable(rows, maxUpper).counts;
    TableSample(rows, maxUpper);
    TableValues(rows, maxUpper);
    var s := Flatten(t, maxUpper).value;
    var n := TotalPersons(rows);
    assert |s| == n;
    SampleStatistics(t, maxUpper, s, 1, maxUpper);
    var st := Statistics(t, maxUpper).value;
    assert st.mean == Mean(s);
    assert st.median == Median(s);
  }
}
