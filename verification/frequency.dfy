/**
 The frequency table of `create_frequency_table` (app.py lines 19-57): one row per
 booking count `1..max_upper` plus an overflow row, with cumulative counts in both
 directions and the `Details` column naming the persons of each bucket.
 */
module Frequency {
  import opened Wrappers
  import Text
  import Seqs
  import opened Booking
  import opened Grouping

  /** The `Freq` label of a table row: an exact count, or the `">max_upper"` overflow. */
  datatype Bucket = Numeric(n: nat) | Overflow

  /** The counting columns of one table row: `Freq`, `#Students`, `Cum 1->`, `Cum ->End`. */
  datatype TableRow = TableRow(freq: Bucket, students: nat, cumFromStart: nat, cumToEnd: nat)

  /**
   The table as the source builds it: the data frame of the four counting columns,
   then the `Details` column assigned next to them, one cell per row.
   */
  datatype Table = Table(counts: seq<TableRow>, details: seq<string>)

  /** Which booking counts a bucket holds. */
  function BucketCriterion(b: Bucket, maxUpper: nat): Criterion {
    match b
    case Numeric(i) => Eq(i)
    case Overflow => Above(maxUpper)
  }

  // ----- Details (app.py lines 47-54) -----

  /** The index of the grouped series restricted to one bucket, in ascending id order. */
  function BucketIds(g: seq<Entry>, c: Criterion): (ids: seq<PersonId>)
    ensures |ids| == NumWhere(g, c)
    ensures forall x :: x in ids <==> x in IdsWhere(g, c)
  {
    if |g| == 0 then []
    else (if Matches(g[0].count, c) then [g[0].id] else []) + BucketIds(g[1..], c)
  }

  /** `FirstName` of the rows whose person is among `ids`, in row order (duplicates kept). */
  function NamesOf(rows: seq<Row>, ids: seq<PersonId>): (names: seq<string>)
    ensures forall r :: r in rows && r.personId in ids ==> r.firstName in names
  {
    if |rows| == 0 then []
    else (if rows[0].personId in ids then [rows[0].firstName] else []) + NamesOf(rows[1..], ids)
  }

  /** The elements of `s` not in `seen`, first occurrences only, in order. */
  function Dedup(s: seq<string>, seen: set<string>): (r: seq<string>)
    ensures forall i, j :: 0 <= i < j < |r| ==> r[i] != r[j]
    ensures forall x :: x in r <==> x in s && x !in seen
    ensures Seqs.FirstOccurrenceOrder(s, r)
  {
    if |s| == 0 then []
    else if s[0] in seen then
      var t := Dedup(s[1..], seen);
      Seqs.FirstOccurrenceOrderCons(s, t);
      t
    else
      var t := Dedup(s[1..], seen + {s[0]});
      Seqs.FirstOccurrenceOrderCons(s, t);
      [s[0]] + t
  }

  /**
   pandas `drop_duplicates`: every value of the input exactly once, in the order of its
   first occurrence.
   */
  function DropDuplicates(s: seq<string>): (r: seq<string>)
    ensures forall i, j :: 0 <= i < j < |r| ==> r[i] != r[j]
    ensures forall x :: x in r <==> x in s
    ensures forall i, j :: 0 <= i < j < |r| ==> Seqs.FirstIndex(s, r[i]) < Seqs.FirstIndex(s, r[j])
  {
    Dedup(s, {})
  }

  /** Any listing of the input's values in first-occurrence order is what `drop_duplicates` returns. */
  lemma DropDuplicatesUnique(s: seq<string>, r: seq<string>)
    requires forall x :: x in r <==> x in s
    requires forall i, j :: 0 <= i < j < |r| ==> Seqs.FirstIndex(s, r[i]) < Seqs.FirstIndex(s, r[j])
    ensures r == DropDuplicates(s)
  {
    var d := DropDuplicates(s);
    Seqs.FirstOccurrenceOrderUnique(s, r, d);
  }

  /** Python `zip`: pairs positionally and stops at the shorter input. */
  function Zip<A, B>(a: seq<A>, b: seq<B>): (z: seq<(A, B)>)
    ensures |z| == if |a| <= |b| then |a| else |b|
    ensures forall k :: 0 <= k < |z| ==> z[k] == (a[k], b[k])
  {
    seq(if |a| <= |b| then |a| else |b|, k requires 0 <= k < |a| && k < |b| => (a[k], b[k]))
  }

  /** The `"name : id"` text of one details entry. */
  function FormatEntry(p: (string, PersonId)): (s: string)
    ensures |s| > 0
  {
    p.0 + " : " + Text.IntToString(p.1)
  }

  /**
   The name/id pairs of a bucket as the source builds them: the distinct first names
   of the bucket's rows (by value, in row order) zipped with the bucket's ids (ascending).
   */
  function SourcePairs(rows: seq<Row>, c: Criterion): seq<(string, PersonId)> {
    var ids := BucketIds(Group(rows), c);
    Zip(DropDuplicates(NamesOf(rows, ids)), ids)
  }

  /**
   A bucket's source pairs: no more than the bucket's students, the bucket's ids in
   ascending order position by position, and pairwise distinct names.
   */
  lemma SourcePairsShape(rows: seq<Row>, c: Criterion)
    ensures var pairs := SourcePairs(rows, c);
      && |pairs| <= NumWhere(Group(rows), c)
      && (forall k :: 0 <= k < |pairs| ==> pairs[k].1 == BucketIds(Group(rows), c)[k])
      && (forall i, j :: 0 <= i < j < |pairs| ==> pairs[i].0 != pairs[j].0)
  {
  }

  /** Renders name/id pairs as `", "`-joined `"name : id"` entries. */
  function Render(pairs: seq<(string, PersonId)>): string {
    Text.Join(", ", seq(|pairs|, k requires 0 <= k < |pairs| => FormatEntry(pairs[k])))
  }

  /** The `Details` cell of a bucket, as written in the source: empty exactly when the bucket is. */
  function SourceDetails(rows: seq<Row>, c: Criterion): (d: string)
    ensures d == "" <==> NumWhere(Group(rows), c) == 0
  {
    SourceDetailsEmpty(rows, c);
    Render(SourcePairs(rows, c))
  }

  lemma SourceDetailsEmpty(rows: seq<Row>, c: Criterion)
    ensures Render(SourcePairs(rows, c)) == "" <==> NumWhere(Group(rows), c) == 0
  {
    RenderEmpty(SourcePairs(rows, c));
    if NumWhere(Group(rows), c) > 0 {
      SourcePairsNonEmpty(rows, c);
    }
  }

  /** Some details entry exists as soon as the bucket has a student. */
  lemma SourcePairsNonEmpty(rows: seq<Row>, c: Criterion)
    requires NumWhere(Group(rows), c) > 0
    ensures |SourcePairs(rows, c)| >= 1
  {
    var g := Group(rows);
    var ids := BucketIds(g, c);
    var x := ids[0];
    assert x in IdsWhere(g, c);
    IdsWhereSub(g, c);
    assert x in PersonIds(rows);
    var r :| r in rows && r.personId == x;
    assert r.firstName in NamesOf(rows, ids);
    assert r.firstName in DropDuplicates(NamesOf(rows, ids));
  }

  /** Every details name is the first name of some row of the bucket's persons. */
  lemma SourcePairsNames(rows: seq<Row>, c: Criterion)
    ensures var pairs := SourcePairs(rows, c);
      forall k :: 0 <= k < |pairs| ==>
        exists r :: r in rows && r.personId in BucketIds(Group(rows), c) && r.firstName == pairs[k].0
  {
    var ids := BucketIds(Group(rows), c);
    var names := DropDuplicates(NamesOf(rows, ids));
    var pairs := SourcePairs(rows, c);
    forall k | 0 <= k < |pairs|
      ensures exists r :: r in rows && r.personId in ids && r.firstName == pairs[k].0
    {
      assert pairs[k].0 == names[k];
      assert names[k] in NamesOf(rows, ids);
      NamesOfMember(rows, ids, names[k]);
    }
  }

  /** The entries of two non-empty lists of pairs render as the two cells joined by `", "`. */
  lemma RenderAppend(a: seq<(string, PersonId)>, b: seq<(string, PersonId)>)
    requires |a| > 0 && |b| > 0
    ensures Render(a + b) == Render(a) + ", " + Render(b)
  {
    var pa := seq(|a|, k requires 0 <= k < |a| => FormatEntry(a[k]));
    var pb := seq(|b|, k requires 0 <= k < |b| => FormatEntry(b[k]));
    var ab := a + b;
    assert seq(|ab|, k requires 0 <= k < |ab| => FormatEntry(ab[k])) == pa + pb;
    Text.JoinAppend(", ", pa, pb);
  }

  /**
   An entry reads back: it starts with the name, then `" : "`, and the rest parses
   back to the id (ids are not negative in practice; a negative id keeps its sign).
   */
  lemma FormatEntryParts(p: (string, PersonId))
    ensures var s := FormatEntry(p);
      && |s| >= |p.0| + 3
      && s[..|p.0|] == p.0
      && s[|p.0|..|p.0| + 3] == " : "
      && (p.1 >= 0 ==> Text.ParseNat(s[|p.0| + 3..]) == Some(p.1))
  {
    var s := FormatEntry(p);
    assert s[|p.0| + 3..] == Text.IntToString(p.1);
    if p.1 >= 0 {
      Text.ParseNatToString(p.1);
    }
  }

  /** A rendered cell is empty exactly when there are no pairs. */
  lemma RenderEmpty(pairs: seq<(string, PersonId)>)
    ensures Render(pairs) == "" <==> |pairs| == 0
  {
    var parts := seq(|pairs|, k requires 0 <= k < |pairs| => FormatEntry(pairs[k]));
    assert forall k :: 0 <= k < |parts| ==> |parts[k]| > 0;
  }

  /**
   The details entries of a bucket: an empty cell exactly when the bucket has no
   students; otherwise between one and `#Students` entries whose ids are the bucket's
   ids in ascending order (a prefix of them) and whose names are names of the bucket's rows.
   */
  lemma SourceDetailsEntries(rows: seq<Row>, c: Criterion)
    ensures var pairs := SourcePairs(rows, c);
      && |pairs| <= NumWhere(Group(rows), c)
      && (|pairs| == 0 <==> NumWhere(Group(rows), c) == 0)
      && (SourceDetails(rows, c) == "" <==> NumWhere(Group(rows), c) == 0)
      && (forall k :: 0 <= k < |pairs| ==> pairs[k].1 == BucketIds(Group(rows), c)[k])
      && (forall k :: 0 <= k < |pairs| ==>
            exists r :: r in rows && r.personId in BucketIds(Group(rows), c) && r.firstName == pairs[k].0)
  {
    if NumWhere(Group(rows), c) > 0 {
      SourcePairsNonEmpty(rows, c);
    }
    SourcePairsShape(rows, c);
    SourcePairsNames(rows, c);
    RenderEmpty(SourcePairs(rows, c));
  }

  lemma {:induction false} NamesOfMember(rows: seq<Row>, ids: seq<PersonId>, name: string)
    requires name in NamesOf(rows, ids)
    ensures exists r :: r in rows && r.personId in ids && r.firstName == name
  {
    if rows[0].personId in ids && rows[0].firstName == name {
      assert rows[0] in rows;
    } else {
      NamesOfMember(rows[1..], ids, name);
      var r :| r in rows[1..] && r.personId in ids && r.firstName == name;
      assert r in rows;
    }
  }

  /** The `FirstName` column of some rows, in order. */
  function FirstNames(rs: seq<Row>): (names: seq<string>)
    ensures |names| == |rs|
    ensures forall k :: 0 <= k < |rs| ==> names[k] == rs[k].firstName
  {
    if |rs| == 0 then [] else [rs[0].firstName] + FirstNames(rs[1..])
  }

  /**
   `NamesOf` is the `FirstName` column of the rows selected by `isin(ids)`: the
   order-preserving filter of the rows, projected to their names.
   */
  lemma {:induction false} NamesOfIsFilter(rows: seq<Row>, ids: seq<PersonId>, selected: Row -> bool)
    requires forall r :: selected(r) <==> r.personId in ids
    ensures NamesOf(rows, ids) == FirstNames(Seqs.Filter(rows, selected))
  {
    if |rows| > 0 {
      NamesOfIsFilter(rows[1..], ids, selected);
      var t := Seqs.Filter(rows[1..], selected);
      if selected(rows[0]) {
        assert Seqs.Filter(rows, selected) == [rows[0]] + t;
        assert ([rows[0]] + t)[1..] == t;
      }
    }
  }

  /** Unzipping the pairs gives back both inputs, cut to the shorter length. */
  lemma ZipUnzip<A, B>(a: seq<A>, b: seq<B>)
    ensures var z := Zip(a, b);
      && seq(|z|, k requires 0 <= k < |z| => z[k].0) == a[..|z|]
      && seq(|z|, k requires 0 <= k < |z| => z[k].1) == b[..|z|]
  {
  }

  /** Bucket ids come out in ascending order, hence without repeats. */
  lemma {:induction false} BucketIdsAscending(g: seq<Entry>, c: Criterion)
    requires Ascending(g)
    ensures forall i, j :: 0 <= i < j < |BucketIds(g, c)| ==> BucketIds(g, c)[i] < BucketIds(g, c)[j]
  {
    if |g| > 0 {
      var t := g[1..];
      var bt := BucketIds(t, c);
      BucketIdsAscending(t, c);
      IdsWhereSub(t, c);
      forall x | x in bt ensures g[0].id < x {
        IdSetMember(t, x);
        var k :| 0 <= k < |t| && t[k].id == x;
        assert t[k] == g[k + 1];
      }
      if Matches(g[0].count, c) {
        var b := BucketIds(g, c);
        assert b == [g[0].id] + bt;
        forall i, j | 0 <= i < j < |b| ensures b[i] < b[j] {
          assert b[j] == bt[j - 1];
          if i > 0 {
            assert b[i] == bt[i - 1];
          } else {
            assert bt[j - 1] in bt;
          }
        }
      }
    }
  }

  /** The first row of person `x`. */
  function FirstRow(rows: seq<Row>, x: PersonId): (j: nat)
    requires x in PersonIds(rows)
    ensures j < |rows| && rows[j].personId == x
    ensures forall i :: 0 <= i < j ==> rows[i].personId != x
  {
    if rows[0].personId == x then 0
    else
      assert x in PersonIds(rows[1..]) by {
        var r :| r in rows && r.personId == x;
        var i :| 0 <= i < |rows| && rows[i] == r;
        assert rows[1..][i - 1] == r;
      }
      1 + FirstRow(rows[1..], x)
  }

  /** A person's display name: the `FirstName` of their first row. */
  function PersonName(rows: seq<Row>, x: PersonId): string
    requires x in PersonIds(rows)
  {
    rows[FirstRow(rows, x)].firstName
  }

  /**
   The name/id pairs a bucket is meant to list: every person of the bucket exactly once,
   in ascending id order, each with the name of that person's own first row.
   */
  function IntendedPairs(rows: seq<Row>, c: Criterion): (pairs: seq<(string, PersonId)>)
    ensures |pairs| == |PersonsWhere(rows, c)|
    ensures forall x :: x in PersonsWhere(rows, c) <==> exists k :: 0 <= k < |pairs| && pairs[k].1 == x
    ensures forall i, j :: 0 <= i < j < |pairs| ==> pairs[i].1 < pairs[j].1
    ensures forall k :: 0 <= k < |pairs| ==>
              pairs[k].1 in PersonIds(rows) && pairs[k].0 == PersonName(rows, pairs[k].1)
  {
    var g := Group(rows);
    var ids := BucketIds(g, c);
    GroupNumWhere(rows, c);
    BucketIdsAscending(g, c);
    IdsWhereSub(g, c);
    forall x ensures x in IdsWhere(g, c) <==> x in PersonsWhere(rows, c) {
      IdsWhereMeaning(g, c, x);
    }
    var pairs := seq(|ids|, k requires 0 <= k < |ids| => (PersonName(rows, ids[k]), ids[k]));
    forall x | x in PersonsWhere(rows, c) ensures exists k :: 0 <= k < |pairs| && pairs[k].1 == x {
      var k :| 0 <= k < |ids| && ids[k] == x;
      assert pairs[k].1 == x;
    }
    pairs
  }

  /** The `Details` cell a bucket is meant to show. */
  function IntendedDetails(rows: seq<Row>, c: Criterion): string {
    Render(IntendedPairs(rows, c))
  }

  /**
   The source pairs names and ids by position. Two persons of the same bucket whose
   rows come in descending id order get each other's names.
   */
  lemma DetailsMispairing()
    ensures var jan := InMonth(Month(2024, 1));
      var rows := [Row(2, "Bob", None, jan), Row(1, "Ann", None, jan)];
      && SourcePairs(rows, Eq(1)) == [("Bob", 1), ("Ann", 2)]
      && IntendedPairs(rows, Eq(1)) == [("Ann", 1), ("Bob", 2)]
  {
    var jan := InMonth(Month(2024, 1));
    var rows := [Row(2, "Bob", None, jan), Row(1, "Ann", None, jan)];
    ExampleSource(rows);
    ExampleIntended();
  }

  /** The source pairs of the two example rows. */
  lemma ExampleSource(rows: seq<Row>)
    requires rows == [Row(2, "Bob", None, InMonth(Month(2024, 1))), Row(1, "Ann", None, InMonth(Month(2024, 1)))]
    ensures SourcePairs(rows, Eq(1)) == [("Bob", 1), ("Ann", 2)]
  {
    ExampleBucket();
    ExampleNames();
    SourcePairsZip(rows, Eq(1), [1, 2], ["Bob", "Ann"]);
    ZipTwo("Bob", "Ann", 1, 2);
  }

  lemma ZipTwo(a0: string, a1: string, b0: PersonId, b1: PersonId)
    ensures Zip([a0, a1], [b0, b1]) == [(a0, b0), (a1, b1)]
  {
    var z := Zip([a0, a1], [b0, b1]);
    assert z[0] == (a0, b0) && z[1] == (a1, b1);
  }

  /** The source pairs are the deduplicated names zipped with the bucket ids. */
  lemma SourcePairsZip(rows: seq<Row>, c: Criterion, ids: seq<PersonId>, names: seq<string>)
    requires BucketIds(Group(rows), c) == ids
    requires DropDuplicates(NamesOf(rows, ids)) == names
    ensures SourcePairs(rows, c) == Zip(names, ids)
  {
  }

  /** The intended pairs of the two example rows. */
  lemma ExampleIntended()
    ensures var jan := InMonth(Month(2024, 1));
      var rows := [Row(2, "Bob", None, jan), Row(1, "Ann", None, jan)];
      IntendedPairs(rows, Eq(1)) == [("Ann", 1), ("Bob", 2)]
  {
    var jan := InMonth(Month(2024, 1));
    var rows := [Row(2, "Bob", None, jan), Row(1, "Ann", None, jan)];
    var pairs := IntendedPairs(rows, Eq(1));
    ExampleIntendedIds();
    assert PersonName(rows, 1) == "Ann" by {
      assert FirstRow(rows, 1) == 1;
    }
    assert PersonName(rows, 2) == "Bob" by {
      assert FirstRow(rows, 2) == 0;
    }
    assert pairs == [pairs[0], pairs[1]];
  }

  /** The intended pairs of the two example rows list ids 1 and 2, in that order. */
  lemma ExampleIntendedIds()
    ensures var jan := InMonth(Month(2024, 1));
      var rows := [Row(2, "Bob", None, jan), Row(1, "Ann", None, jan)];
      var pairs := IntendedPairs(rows, Eq(1));
      |pairs| == 2 && pairs[0].1 == 1 && pairs[1].1 == 2
  {
    var jan := InMonth(Month(2024, 1));
    var rows := [Row(2, "Bob", None, jan), Row(1, "Ann", None, jan)];
    var pairs := IntendedPairs(rows, Eq(1));
    ExamplePersons();
    assert |pairs| == 2;
    assert pairs[0].1 < pairs[1].1;
    assert pairs[0].1 in {1, 2} && pairs[1].1 in {1, 2};
  }

  /** Both example persons have exactly one booking. */
  lemma ExamplePersons()
    ensures var jan := InMonth(Month(2024, 1));
      var rows := [Row(2, "Bob", None, jan), Row(1, "Ann", None, jan)];
      PersonsWhere(rows, Eq(1)) == {1, 2}
  {
    var jan := InMonth(Month(2024, 1));
    var rows := [Row(2, "Bob", None, jan), Row(1, "Ann", None, jan)];
    assert rows[1..] == [Row(1, "Ann", None, jan)];
    assert rows[1..][1..] == [];
    assert CountId(rows[1..], 1) == 1;
    assert CountId(rows, 1) == 1;
    assert CountId(rows[1..], 2) == 0;
    assert CountId(rows, 2) == 1;
    assert PersonIds(rows) == {1, 2};
  }

  /** The bucket of the two example rows: both persons, in ascending id order, named in row order. */
  lemma ExampleBucket()
    ensures var jan := InMonth(Month(2024, 1));
      var rows := [Row(2, "Bob", None, jan), Row(1, "Ann", None, jan)];
      && BucketIds(Group(rows), Eq(1)) == [1, 2]
      && NamesOf(rows, [1, 2]) == ["Bob", "Ann"]
  {
    var jan := InMonth(Month(2024, 1));
    var rows := [Row(2, "Bob", None, jan), Row(1, "Ann", None, jan)];
    assert rows[1..] == [Row(1, "Ann", None, jan)];
    assert Group(rows[1..][1..]) == [];
    assert Group(rows[1..]) == [Entry(1, 1)];
    assert [Entry(1, 1)][1..] == [];
    assert Insert([Entry(1, 1)], 2) == [Entry(1, 1)] + Insert([], 2);
    var g := Group(rows);
    assert g == [Entry(1, 1), Entry(2, 1)];
    assert g[1..] == [Entry(2, 1)];
    assert BucketIds(g[1..][1..], Eq(1)) == [];
    assert BucketIds(g[1..], Eq(1)) == [2];
    var ids := BucketIds(g, Eq(1));
    assert ids == [1, 2];
    assert NamesOf(rows[1..][1..], ids) == [];
    assert NamesOf(rows[1..], ids) == ["Ann"];
  }

  /** Two different names are already free of duplicates. */
  lemma ExampleNames()
    ensures DropDuplicates(["Bob", "Ann"]) == ["Bob", "Ann"]
  {
    var names := ["Bob", "Ann"];
    assert names[1..] == ["Ann"] && names[1..][1..] == [];
    assert {} + {"Bob"} == {"Bob"};
    assert Dedup(names[1..], {"Bob"}) == ["Ann"] + Dedup([], {"Bob"} + {"Ann"});
  }

  /**
   The source deduplicates names by value, so two persons of one bucket who share a
   first name get a single entry, while the bucket has two students.
   */
  lemma DetailsSharedName()
    ensures var jan := InMonth(Month(2024, 1));
      var rows := [Row(1, "Ann", None, jan), Row(2, "Ann", None, jan)];
      && SourcePairs(rows, Eq(1)) == [("Ann", 1)]
      && SourceDetails(rows, Eq(1)) == "Ann : 1"
      && NumWhere(Group(rows), Eq(1)) == 2
      && |IntendedPairs(rows, Eq(1))| == 2
  {
    var jan := InMonth(Month(2024, 1));
    var rows := [Row(1, "Ann", None, jan), Row(2, "Ann", None, jan)];
    SharedNameBucket();
    SharedNameNames();
    SourcePairsZip(rows, Eq(1), [1, 2], ["Ann"]);
    assert Zip(["Ann"], [1, 2]) == [("Ann", 1)];
    SourceDetailsText(rows, Eq(1));
    RenderOne(("Ann", 1));
    FormatAnn();
    IntendedPairsCount(rows, Eq(1));
  }

  lemma FormatAnn()
    ensures FormatEntry(("Ann", 1)) == "Ann : 1"
  {
    assert Text.DigitChar(1) == '1';
    assert Text.IntToString(1) == "1";
    assert "Ann" + " : " + "1" == "Ann : 1";
  }

  /** The `Details` text is the rendering of the source pairs. */
  lemma SourceDetailsText(rows: seq<Row>, c: Criterion)
    ensures SourceDetails(rows, c) == Render(SourcePairs(rows, c))
  {
  }

  /** The intended pairs of a bucket number its students. */
  lemma IntendedPairsCount(rows: seq<Row>, c: Criterion)
    ensures |IntendedPairs(rows, c)| == NumWhere(Group(rows), c)
  {
    GroupNumWhere(rows, c);
  }

  /** The bucket of the two "Ann" rows: ids 1 and 2, named "Ann" twice. */
  lemma SharedNameBucket()
    ensures var jan := InMonth(Month(2024, 1));
      var rows := [Row(1, "Ann", None, jan), Row(2, "Ann", None, jan)];
      && Group(rows) == [Entry(1, 1), Entry(2, 1)]
      && BucketIds(Group(rows), Eq(1)) == [1, 2]
      && NumWhere(Group(rows), Eq(1)) == 2
      && NamesOf(rows, [1, 2]) == ["Ann", "Ann"]
  {
    var jan := InMonth(Month(2024, 1));
    var rows := [Row(1, "Ann", None, jan), Row(2, "Ann", None, jan)];
    assert rows[1..] == [Row(2, "Ann", None, jan)];
    assert Group(rows[1..][1..]) == [];
    assert Group(rows[1..]) == [Entry(2, 1)];
    var g := Group(rows);
    assert g == [Entry(1, 1), Entry(2, 1)];
    assert g[1..] == [Entry(2, 1)];
    assert BucketIds(g[1..][1..], Eq(1)) == [];
    assert BucketIds(g[1..], Eq(1)) == [2];
    assert NamesOf(rows[1..][1..], [1, 2]) == [];
    assert NamesOf(rows[1..], [1, 2]) == ["Ann"];
  }

  /** A repeated name is kept once. */
  lemma SharedNameNames()
    ensures DropDuplicates(["Ann", "Ann"]) == ["Ann"]
  {
    var names := ["Ann", "Ann"];
    assert names[1..] == ["Ann"] && names[1..][1..] == [];
    assert {} + {"Ann"} == {"Ann"};
    assert Dedup(names[1..], {"Ann"}) == Dedup([], {"Ann"}) == [];
    assert Dedup(names, {}) == ["Ann"] + Dedup(names[1..], {"Ann"});
  }

  lemma RenderOne(a: (string, PersonId))
    ensures Render([a]) == FormatEntry(a)
  {
    var parts := seq(1, k requires 0 <= k < 1 => FormatEntry([a][k]));
    assert parts == [FormatEntry(a)];
  }

  /** The same two rows, as the `Details` cell shows them. */
  lemma DetailsMispairingText()
    ensures var jan := InMonth(Month(2024, 1));
      var rows := [Row(2, "Bob", None, jan), Row(1, "Ann", None, jan)];
      && SourceDetails(rows, Eq(1)) == "Bob : 1, Ann : 2"
      && IntendedDetails(rows, Eq(1)) == "Ann : 1, Bob : 2"
  {
    DetailsMispairing();
    ExampleEntries();
    RenderTwo(("Bob", 1), ("Ann", 2));
    RenderTwo(("Ann", 1), ("Bob", 2));
  }

  lemma ExampleEntries()
    ensures FormatEntry(("Bob", 1)) + ", " + FormatEntry(("Ann", 2)) == "Bob : 1, Ann : 2"
    ensures FormatEntry(("Ann", 1)) + ", " + FormatEntry(("Bob", 2)) == "Ann : 1, Bob : 2"
  {
    assert Text.IntToString(1) == "1" && Text.IntToString(2) == "2";
  }

  lemma RenderTwo(a: (string, PersonId), b: (string, PersonId))
    ensures Render([a, b]) == FormatEntry(a) + ", " + FormatEntry(b)
  {
    var parts := seq(2, k requires 0 <= k < 2 => FormatEntry([a, b][k]));
    assert parts == [FormatEntry(a), FormatEntry(b)];
    assert parts[1..] == [FormatEntry(b)];
  }

  // ----- The table (app.py lines 36-44 and 56) -----

  /** One row of counts; `Cum ->End` is `len - Cum 1->` for numeric rows, as in the source. */
  function MakeRow(rows: seq<Row>, b: Bucket, maxUpper: nat): TableRow {
    var g := Group(rows);
    var c := BucketCriterion(b, maxUpper);
    match b
    case Numeric(i) =>
      TableRow(b, NumWhere(g, c), NumWhere(g, AtMost(i)), |g| - NumWhere(g, AtMost(i)))
    case Overflow =>
      TableRow(b, NumWhere(g, c), |g|, NumWhere(g, c))
  }

  /** The `Freq` column: `1..max_upper`, then the overflow bucket. */
  function Label(k: nat, maxUpper: nat): Bucket {
    if k < maxUpper then Numeric(k + 1) else Overflow
  }

  /** The four counting columns of the table of already-filtered rows. */
  function CountColumns(rows: seq<Row>, maxUpper: nat): (t: seq<TableRow>)
    requires maxUpper >= 1
    ensures |t| == maxUpper + 1
    ensures forall k :: 0 <= k <= maxUpper ==> t[k] == MakeRow(rows, Label(k, maxUpper), maxUpper)
  {
    seq(maxUpper + 1, k requires 0 <= k <= maxUpper => MakeRow(rows, Label(k, maxUpper), maxUpper))
  }

  /** The `Details` column: the source's cell for the bucket of every label. */
  function DetailsCells(rows: seq<Row>, maxUpper: nat): (d: seq<string>)
    requires maxUpper >= 1
    ensures |d| == maxUpper + 1
    ensures forall k {:trigger d[k]} :: 0 <= k <= maxUpper ==> d[k] == SourceDetails(rows, BucketCriterion(Label(k, maxUpper), maxUpper))
  {
    seq(maxUpper + 1, k requires 0 <= k <= maxUpper => SourceDetails(rows, BucketCriterion(Label(k, maxUpper), maxUpper)))
  }

  /**
   The frequency table of already-filtered rows: `max_upper + 1` rows labelled
   `1..max_upper` and then the overflow bucket, with one `Details` cell per row.
   What the columns count is stated by `RowsCountPersons` and `DetailsColumn`.
   */
  function BuildTable(rows: seq<Row>, maxUpper: nat): (t: Table)
    requires maxUpper >= 1
    ensures |t.counts| == maxUpper + 1 && |t.details| == maxUpper + 1
    ensures forall k :: 0 <= k < maxUpper ==> t.counts[k].freq == Numeric(k + 1)
    ensures t.counts[maxUpper].freq == Overflow
  {
    Table(CountColumns(rows, maxUpper), DetailsCells(rows, maxUpper))
  }

  /**
   `create_frequency_table`: no table when neither a period nor both ends of a range
   are given; otherwise the table of the rows that survive the window and exclusion
   filters.
   */
  function FrequencyTable(rows: seq<Row>, period: Option<Period>, start: Option<Period>, end: Option<Period>,
                          maxUpper: nat): (r: Option<Table>)
    requires maxUpper >= 1
    ensures r.None? <==> period.None? && (start.None? || end.None?)
    ensures r.Some? ==> |r.value.counts| == maxUpper + 1 && |r.value.details| == maxUpper + 1
    ensures r.Some? ==> forall k :: 0 <= k < maxUpper ==> r.value.counts[k].freq == Numeric(k + 1)
    ensures r.Some? ==> r.value.counts[maxUpper].freq == Overflow
  {
    match SelectWindow(period, start, end)
    case None => None
    case Some(w) => Some(BuildTable(Filtered(rows, w), maxUpper))
  }

  /** The sum of the `#Students` column. */
  function SumStudents(t: seq<TableRow>): nat {
    if |t| == 0 then 0 else SumStudents(t[..|t| - 1]) + t[|t| - 1].students
  }

  /** The distinct persons with at least one kept booking. */
  function TotalPersons(rows: seq<Row>): nat {
    |PersonIds(rows)|
  }

  /** The columns of table row `k` in terms of the grouped series. */
  lemma RowFields(rows: seq<Row>, maxUpper: nat, k: nat)
    requires maxUpper >= 1 && k <= maxUpper
    ensures var t := BuildTable(rows, maxUpper).counts;
      var g := Group(rows);
      && t[k].freq == Label(k, maxUpper)
      && t[k].students == NumWhere(g, BucketCriterion(Label(k, maxUpper), maxUpper))
      && (k < maxUpper ==> t[k].cumFromStart == NumWhere(g, AtMost(k + 1)))
      && (k < maxUpper ==> t[k].cumToEnd + NumWhere(g, AtMost(k + 1)) == |g|)
      && (k == maxUpper ==> t[k].cumFromStart == |g|)
      && (k == maxUpper ==> t[k].cumToEnd == NumWhere(g, Above(maxUpper)))
  {
    if k < maxUpper {
      NumericRowFields(rows, maxUpper, k);
    } else {
      OverflowRowFields(rows, maxUpper);
    }
  }

  lemma NumericRowFields(rows: seq<Row>, maxUpper: nat, k: nat)
    requires maxUpper >= 1 && k < maxUpper
    ensures var t := BuildTable(rows, maxUpper).counts;
      var g := Group(rows);
      && t[k].freq == Numeric(k + 1)
      && t[k].students == NumWhere(g, Eq(k + 1))
      && t[k].cumFromStart == NumWhere(g, AtMost(k + 1))
      && t[k].cumToEnd + NumWhere(g, AtMost(k + 1)) == |g|
  {
    TableIndex(rows, maxUpper, k);
    NumericMakeRow(rows, k + 1, maxUpper);
  }

  /** Row `k` of the table is the row built for label `k + 1`. */
  lemma TableIndex(rows: seq<Row>, maxUpper: nat, k: nat)
    requires maxUpper >= 1 && k < maxUpper
    ensures BuildTable(rows, maxUpper).counts[k] == MakeRow(rows, Numeric(k + 1), maxUpper)
  {
    assert Label(k, maxUpper) == Numeric(k + 1);
  }

  /** The columns of the numeric row for `i`. */
  lemma NumericMakeRow(rows: seq<Row>, i: nat, maxUpper: nat)
    ensures var r := MakeRow(rows, Numeric(i), maxUpper);
      var g := Group(rows);
      && r.freq == Numeric(i)
      && r.students == NumWhere(g, Eq(i))
      && r.cumFromStart == NumWhere(g, AtMost(i))
      && r.cumToEnd + NumWhere(g, AtMost(i)) == |g|
  {
  }

  lemma OverflowRowFields(rows: seq<Row>, maxUpper: nat)
    requires maxUpper >= 1
    ensures var t := BuildTable(rows, maxUpper).counts;
      var g := Group(rows);
      && t[maxUpper].freq == Overflow
      && t[maxUpper].students == NumWhere(g, Above(maxUpper))
      && t[maxUpper].cumFromStart == |g|
      && t[maxUpper].cumToEnd == NumWhere(g, Above(maxUpper))
  {
    var t := BuildTable(rows, maxUpper).counts;
    assert t[maxUpper] == MakeRow(rows, Overflow, maxUpper);
    MakeRowFields(rows, Overflow, maxUpper);
  }

  /** The columns of one row in terms of the grouped series. */
  lemma MakeRowFields(rows: seq<Row>, b: Bucket, maxUpper: nat)
    ensures var r := MakeRow(rows, b, maxUpper);
      var g := Group(rows);
      && r.students == NumWhere(g, BucketCriterion(b, maxUpper))
      && (b.Numeric? ==> r.cumFromStart == NumWhere(g, AtMost(b.n)) && r.cumToEnd + NumWhere(g, AtMost(b.n)) == |g|)
      && (b.Overflow? ==> r.cumFromStart == |g| && r.cumToEnd == NumWhere(g, Above(maxUpper)))
  {
  }

  /**
   Each row counts distinct persons by their number of kept bookings: `#Students` those
   in the bucket, `Cum 1->` those with at most `i` bookings and `Cum ->End` those with
   more than `i` (for the overflow row: everybody, and those above `max_upper`).
   */
  lemma RowsCountPersons(rows: seq<Row>, maxUpper: nat, k: nat)
    requires maxUpper >= 1 && k <= maxUpper
    ensures var t := BuildTable(rows, maxUpper).counts;
      && t[k].students == |PersonsWhere(rows, BucketCriterion(t[k].freq, maxUpper))|
      && (k < maxUpper ==> t[k].students == |PersonsWhere(rows, Eq(k + 1))|)
      && (k < maxUpper ==> t[k].cumFromStart == |PersonsWhere(rows, AtMost(k + 1))|)
      && (k < maxUpper ==> t[k].cumToEnd == |PersonsWhere(rows, Above(k + 1))|)
      && (k == maxUpper ==> t[k].students == |PersonsWhere(rows, Above(maxUpper))|)
      && (k == maxUpper ==> t[k].cumFromStart == TotalPersons(rows))
  {
    var g := Group(rows);
    RowFields(rows, maxUpper, k);
    GroupSize(rows);
    GroupNumWhere(rows, BucketCriterion(Label(k, maxUpper), maxUpper));
    if k < maxUpper {
      GroupNumWhere(rows, AtMost(k + 1));
      GroupNumWhere(rows, Above(k + 1));
      AtMostPlusAbove(g, k + 1);
    }
  }

  /** `Cum 1->` plus `Cum ->End` is the number of distinct persons, on every numeric row. */
  lemma CumulativeComplement(rows: seq<Row>, maxUpper: nat, k: nat)
    requires maxUpper >= 1 && k < maxUpper
    ensures var t := BuildTable(rows, maxUpper).counts;
      t[k].cumFromStart + t[k].cumToEnd == TotalPersons(rows)
  {
    RowFields(rows, maxUpper, k);
    GroupSize(rows);
  }

  /** `Cum 1->` never decreases and `Cum ->End` never increases down the numeric rows. */
  lemma CumulativeMonotone(rows: seq<Row>, maxUpper: nat, k: nat, l: nat)
    requires maxUpper >= 1 && k <= l < maxUpper
    ensures var t := BuildTable(rows, maxUpper).counts;
      t[k].cumFromStart <= t[l].cumFromStart && t[k].cumToEnd >= t[l].cumToEnd
  {
    RowFields(rows, maxUpper, k);
    RowFields(rows, maxUpper, l);
    AtMostMonotone(Group(rows), k + 1, l + 1);
  }

  /** `Cum ->End` on the last numeric row equals the overflow row's `#Students`. */
  lemma LastCumulativeToEnd(rows: seq<Row>, maxUpper: nat)
    requires maxUpper >= 1
    ensures var t := BuildTable(rows, maxUpper).counts;
      t[maxUpper - 1].cumToEnd == t[maxUpper].students
  {
    RowFields(rows, maxUpper, maxUpper - 1);
    RowFields(rows, maxUpper, maxUpper);
    AtMostPlusAbove(Group(rows), maxUpper);
  }

  /** The overflow row: `Cum 1->` is everybody and `Cum ->End` equals its own `#Students`. */
  lemma OverflowRow(rows: seq<Row>, maxUpper: nat)
    requires maxUpper >= 1
    ensures var t := BuildTable(rows, maxUpper).counts;
      && t[maxUpper].cumFromStart == TotalPersons(rows)
      && t[maxUpper].cumToEnd == t[maxUpper].students
  {
    RowFields(rows, maxUpper, maxUpper);
    GroupSize(rows);
  }

  /** The `#Students` of the first `k` rows add up to the persons with at most `k` bookings. */
  lemma {:induction false} PrefixStudents(rows: seq<Row>, maxUpper: nat, k: nat)
    requires maxUpper >= 1 && k <= maxUpper
    ensures SumStudents(BuildTable(rows, maxUpper).counts[..k]) == NumWhere(Group(rows), AtMost(k))
  {
    var g := Group(rows);
    if k == 0 {
      AtMostZero(g);
    } else {
      PrefixStudents(rows, maxUpper, k - 1);
      PrefixStep(rows, maxUpper, k);
      AtMostStep(g, k);
    }
  }

  /** Extending the prefix by row `k - 1` adds that row's `#Students`, the persons with exactly `k` bookings. */
  lemma PrefixStep(rows: seq<Row>, maxUpper: nat, k: nat)
    requires maxUpper >= 1 && 1 <= k <= maxUpper
    ensures var t := BuildTable(rows, maxUpper).counts;
      SumStudents(t[..k]) == SumStudents(t[..k - 1]) + NumWhere(Group(rows), Eq(k))
  {
    var t := BuildTable(rows, maxUpper).counts;
    var p := t[..k];
    assert p[..k - 1] == t[..k - 1];
    NumericRowFields(rows, maxUpper, k - 1);
  }


  /** `Cum 1->` on a numeric row is the running total of `#Students` down to that row. */
  lemma CumulativeIsRunningSum(rows: seq<Row>, maxUpper: nat, k: nat)
    requires maxUpper >= 1 && k < maxUpper
    ensures var t := BuildTable(rows, maxUpper).counts;
      t[k].cumFromStart == SumStudents(t[..k + 1])
  {
    PrefixStudents(rows, maxUpper, k + 1);
    RowFields(rows, maxUpper, k);
  }

  /**
   The `#Students` column sums to the number of distinct persons with a kept booking:
   every grouped person lands in exactly one bucket.
   */
  lemma SumStudentsIsPersons(rows: seq<Row>, maxUpper: nat)
    requires maxUpper >= 1
    ensures SumStudents(BuildTable(rows, maxUpper).counts) == TotalPersons(rows)
  {
    var t := BuildTable(rows, maxUpper).counts;
    var g := Group(rows);
    PrefixStudents(rows, maxUpper, maxUpper);
    assert t[..|t| - 1] == t[..maxUpper];
    RowFields(rows, maxUpper, maxUpper);
    AtMostPlusAbove(g, maxUpper);
    GroupSize(rows);
  }

  /** The `Details` cell of every row: empty exactly when the bucket is empty, and never more entries than students. */
  lemma DetailsColumn(rows: seq<Row>, maxUpper: nat, k: nat)
    requires maxUpper >= 1 && k <= maxUpper
    ensures var t := BuildTable(rows, maxUpper);
      && (t.details[k] == "" <==> t.counts[k].students == 0)
      && |SourcePairs(rows, BucketCriterion(t.counts[k].freq, maxUpper))| <= t.counts[k].students
      && (t.counts[k].students > 0 ==> |SourcePairs(rows, BucketCriterion(t.counts[k].freq, maxUpper))| >= 1)
  {
    RowFields(rows, maxUpper, k);
    SourceDetailsEntries(rows, BucketCriterion(Label(k, maxUpper), maxUpper));
  }

  /**
   A row that a filter drops — a "Self Practice" class in any letter case, or a booking
   whose timestamp did not parse while every selector given is a month — changes
   nothing in the table, wherever it appears.
   */
  lemma DroppedRowDoesNotCount(rows: seq<Row>, period: Option<Period>, start: Option<Period>, end: Option<Period>,
                               maxUpper: nat, i: nat, x: Row)
    requires maxUpper >= 1 && i <= |rows|
    requires IsSelfPractice(x.className) || (x.period.NaT? && MonthSelectors(period, start, end))
    ensures FrequencyTable(rows[..i] + [x] + rows[i..], period, start, end, maxUpper)
         == FrequencyTable(rows, period, start, end, maxUpper)
  {
    match SelectWindow(period, start, end)
    case None =>
    case Some(w) =>
      if !IsSelfPractice(x.className) {
        MonthSelectorsEndInMonth(period, start, end);
      }
      DroppedRowInvisible(rows, w, i, x);
  }

  // ----- The table with the intended details -----

  /** The `Details` column with every cell listing each person of the bucket under their own name. */
  function IntendedCells(rows: seq<Row>, maxUpper: nat): (d: seq<string>)
    requires maxUpper >= 1
    ensures |d| == maxUpper + 1
    ensures forall k {:trigger d[k]} :: 0 <= k <= maxUpper ==> d[k] == IntendedDetails(rows, BucketCriterion(Label(k, maxUpper), maxUpper))
  {
    seq(maxUpper + 1, k requires 0 <= k <= maxUpper => IntendedDetails(rows, BucketCriterion(Label(k, maxUpper), maxUpper)))
  }

  /** The frequency table with the source's counting columns and the intended `Details` column. */
  function IntendedTable(rows: seq<Row>, maxUpper: nat): (t: Table)
    requires maxUpper >= 1
    ensures t.counts == BuildTable(rows, maxUpper).counts
    ensures |t.details| == maxUpper + 1
  {
    Table(CountColumns(rows, maxUpper), IntendedCells(rows, maxUpper))
  }

  /**
   `create_frequency_table` as intended: unparsable timestamps are kept by no window,
   and the `Details` column lists each person under their own name.
   */
  function IntendedFrequencyTable(rows: seq<Row>, period: Option<Period>, start: Option<Period>, end: Option<Period>,
                                  maxUpper: nat): (r: Option<Table>)
    requires maxUpper >= 1
    ensures r.None? <==> FrequencyTable(rows, period, start, end, maxUpper).None?
  {
    match SelectWindow(period, start, end)
    case None => None
    case Some(w) => Some(IntendedTable(IntendedFiltered(rows, w), maxUpper))
  }

  /**
   The intended table exists exactly when the source table does. When every selector
   given is a month the two agree on every row's `Freq`, `#Students`, `Cum 1->` and
   `Cum ->End`; only `Details` differs.
   */
  lemma IntendedAgreesWithSource(rows: seq<Row>, period: Option<Period>, start: Option<Period>, end: Option<Period>,
                                 maxUpper: nat)
    requires maxUpper >= 1
    ensures IntendedFrequencyTable(rows, period, start, end, maxUpper).None?
        <==> FrequencyTable(rows, period, start, end, maxUpper).None?
    ensures MonthSelectors(period, start, end) && IntendedFrequencyTable(rows, period, start, end, maxUpper).Some? ==>
      IntendedFrequencyTable(rows, period, start, end, maxUpper).value.counts
        == FrequencyTable(rows, period, start, end, maxUpper).value.counts
  {
    if MonthSelectors(period, start, end) && SelectWindow(period, start, end).Some? {
      MonthSelectorsEndInMonth(period, start, end);
    }
  }

  /**
   In the intended table a row whose timestamp did not parse changes nothing, whatever
   the selectors, and neither does a self-practice row.
   */
  lemma IntendedDroppedRowDoesNotCount(rows: seq<Row>, period: Option<Period>, start: Option<Period>, end: Option<Period>,
                                       maxUpper: nat, i: nat, x: Row)
    requires maxUpper >= 1 && i <= |rows|
    requires IsSelfPractice(x.className) || x.period.NaT?
    ensures IntendedFrequencyTable(rows[..i] + [x] + rows[i..], period, start, end, maxUpper)
         == IntendedFrequencyTable(rows, period, start, end, maxUpper)
  {
    match SelectWindow(period, start, end)
    case None =>
    case Some(w) =>
      IntendedFilteredIgnoresDropped(rows, w, i, x);
  }

  /**
   With the intended details every bucket lists each of its persons exactly once, so
   the cell is empty exactly when `#Students` is zero and holds `#Students` entries.
   */
  lemma IntendedDetailsColumn(rows: seq<Row>, maxUpper: nat, k: nat)
    requires maxUpper >= 1 && k <= maxUpper
    ensures var t := IntendedTable(rows, maxUpper);
      && |IntendedPairs(rows, BucketCriterion(t.counts[k].freq, maxUpper))| == t.counts[k].students
      && (t.details[k] == "" <==> t.counts[k].students == 0)
  {
    var c := BucketCriterion(Label(k, maxUpper), maxUpper);
    RowsCountPersons(rows, maxUpper, k);
    RenderEmpty(IntendedPairs(rows, c));
  }
}
