/**
 `groupby("Id_Person").size()` (app.py line 33): per-person booking counts, indexed by
 person id in ascending order, and the comparisons of those counts that the table uses.
 */
module Grouping {
  import opened Booking

  /** One entry of the grouped series: a person id and its number of rows. */
  datatype Entry = Entry(id: PersonId, count: nat)

  /** The number of rows that belong to person `id`. */
  function CountId(rows: seq<Row>, id: PersonId): nat {
    if |rows| == 0 then 0
    else (if rows[0].personId == id then 1 else 0) + CountId(rows[1..], id)
  }

  /** The distinct person ids of some rows. */
  function PersonIds(rows: seq<Row>): set<PersonId> {
    set r | r in rows :: r.personId
  }

  /** The ids of a grouped series. */
  function IdSet(g: seq<Entry>): set<PersonId> {
    if |g| == 0 then {} else {g[0].id} + IdSet(g[1..])
  }

  lemma {:induction false} IdSetMember(g: seq<Entry>, x: PersonId)
    ensures x in IdSet(g) <==> exists k :: 0 <= k < |g| && g[k].id == x
  {
    if |g| > 0 {
      IdSetMember(g[1..], x);
      if x in IdSet(g[1..]) {
        var k :| 0 <= k < |g| - 1 && g[1..][k].id == x;
        assert g[k + 1].id == x;
      }
      if exists k :: 0 <= k < |g| && g[k].id == x {
        var k :| 0 <= k < |g| && g[k].id == x;
        if k > 0 {
          assert g[1..][k - 1].id == x;
        }
      }
    }
  }

  /** Every id of the series is above `b`. */
  predicate AllAbove(g: seq<Entry>, b: PersonId) {
    forall k :: 0 <= k < |g| ==> g[k].id > b
  }

  /** Ids strictly ascending, hence distinct: the index of a pandas group-by. */
  predicate Ascending(g: seq<Entry>) {
    forall i, j :: 0 <= i < j < |g| ==> g[i].id < g[j].id
  }

  /** Every grouped person has at least one row. */
  predicate Positive(g: seq<Entry>) {
    forall k :: 0 <= k < |g| ==> g[k].count >= 1
  }

  /** The count stored for `id`, or 0 when `id` is not in the series. */
  function CountFor(g: seq<Entry>, id: PersonId): nat {
    if |g| == 0 then 0
    else if g[0].id == id then g[0].count
    else CountFor(g[1..], id)
  }

  lemma {:induction false} CountForAbsent(g: seq<Entry>, id: PersonId)
    requires id !in IdSet(g)
    ensures CountFor(g, id) == 0
  {
    if |g| > 0 {
      CountForAbsent(g[1..], id);
    }
  }

  /** In an ascending series, looking up an entry's id finds that very entry. */
  lemma {:induction false} CountForEntry(g: seq<Entry>, k: nat)
    requires Ascending(g) && k < |g|
    ensures CountFor(g, g[k].id) == g[k].count
  {
    if k > 0 {
      CountForEntry(g[1..], k - 1);
    }
  }

  /** Records one more row for person `id`, keeping the ids ascending. */
  function Insert(g: seq<Entry>, id: PersonId): seq<Entry> {
    if |g| == 0 then [Entry(id, 1)]
    else if g[0].id == id then [Entry(id, g[0].count + 1)] + g[1..]
    else if id < g[0].id then [Entry(id, 1)] + g
    else [g[0]] + Insert(g[1..], id)
  }

  lemma {:induction false} InsertIdSet(g: seq<Entry>, id: PersonId)
    ensures IdSet(Insert(g, id)) == IdSet(g) + {id}
  {
    if |g| > 0 && g[0].id != id && id > g[0].id {
      var g' := Insert(g, id);
      assert g'[1..] == Insert(g[1..], id);
      InsertIdSet(g[1..], id);
    } else if |g| > 0 && g[0].id == id {
      assert Insert(g, id)[1..] == g[1..];
    } else if |g| > 0 {
      assert Insert(g, id)[1..] == g;
    }
  }

  lemma {:induction false} InsertAllAbove(g: seq<Entry>, id: PersonId, b: PersonId)
    requires AllAbove(g, b) && id > b
    ensures AllAbove(Insert(g, id), b)
  {
    if |g| > 0 && g[0].id != id && id > g[0].id {
      InsertAllAbove(g[1..], id, b);
    }
  }

  lemma {:induction false} InsertAscending(g: seq<Entry>, id: PersonId)
    requires Ascending(g)
    ensures Ascending(Insert(g, id))
  {
    if |g| > 0 && g[0].id != id && id > g[0].id {
      InsertAscending(g[1..], id);
      InsertAllAbove(g[1..], id, g[0].id);
    }
  }

  lemma {:induction false} InsertPositive(g: seq<Entry>, id: PersonId)
    requires Positive(g)
    ensures Positive(Insert(g, id))
  {
    if |g| > 0 && g[0].id != id && id > g[0].id {
      InsertPositive(g[1..], id);
    }
  }

  lemma {:induction false} InsertCount(g: seq<Entry>, id: PersonId, x: PersonId)
    requires Ascending(g)
    ensures CountFor(Insert(g, id), x) == CountFor(g, x) + (if x == id then 1 else 0)
  {
    if |g| == 0 {
    } else if g[0].id == id {
      assert Insert(g, id)[1..] == g[1..];
    } else if id < g[0].id {
      assert Insert(g, id)[1..] == g;
      if x == id {
        IdSetMember(g, id);
        CountForAbsent(g, id);
      }
    } else {
      assert Insert(g, id)[1..] == Insert(g[1..], id);
      InsertCount(g[1..], id, x);
    }
  }

  /** The grouped series of some rows: ids ascending, each with its row count. */
  function Group(rows: seq<Row>): (g: seq<Entry>)
    ensures Ascending(g)
    ensures Positive(g)
    ensures IdSet(g) == PersonIds(rows)
    ensures forall x :: CountFor(g, x) == CountId(rows, x)
  {
    if |rows| == 0 then []
    else
      var rest := Group(rows[1..]);
      var id := rows[0].personId;
      assert PersonIds(rows) == {id} + PersonIds(rows[1..]) by {
        assert rows == [rows[0]] + rows[1..];
      }
      InsertIdSet(rest, id);
      InsertAscending(rest, id);
      InsertPositive(rest, id);
      forall x ensures CountFor(Insert(rest, id), x) == CountId(rows, x) {
        InsertCount(rest, id, x);
      }
      Insert(rest, id)
  }

  /** Every entry of the series counts exactly the rows of its person, and has at least one. */
  lemma GroupEntryCounts(rows: seq<Row>, k: nat)
    requires k < |Group(rows)|
    ensures Group(rows)[k].count == CountId(rows, Group(rows)[k].id) >= 1
  {
    CountForEntry(Group(rows), k);
  }

  /** A comparison of a booking count with a bucket bound, as in `booking_frequencies == i`. */
  datatype Criterion = Eq(n: int) | AtMost(n: int) | Above(n: int)

  predicate Matches(count: nat, c: Criterion) {
    match c
    case Eq(n) => count == n
    case AtMost(n) => count <= n
    case Above(n) => count > n
  }

  /** `sum(booking_frequencies <op> n)`: the number of entries whose count matches. */
  function NumWhere(g: seq<Entry>, c: Criterion): (n: nat)
    ensures n <= |g|
  {
    if |g| == 0 then 0
    else (if Matches(g[0].count, c) then 1 else 0) + NumWhere(g[1..], c)
  }

  /** The persons of some rows whose number of rows matches `c`. */
  function PersonsWhere(rows: seq<Row>, c: Criterion): set<PersonId> {
    set x | x in PersonIds(rows) && Matches(CountId(rows, x), c)
  }

  /** The ids of the entries whose count matches `c`. */
  function IdsWhere(g: seq<Entry>, c: Criterion): set<PersonId> {
    if |g| == 0 then {}
    else (if Matches(g[0].count, c) then {g[0].id} else {}) + IdsWhere(g[1..], c)
  }

  lemma {:induction false} IdsWhereSub(g: seq<Entry>, c: Criterion)
    ensures IdsWhere(g, c) <= IdSet(g)
  {
    if |g| > 0 {
      IdsWhereSub(g[1..], c);
    }
  }

  lemma {:induction false} NumWhereIsCard(g: seq<Entry>, c: Criterion)
    requires Ascending(g)
    ensures NumWhere(g, c) == |IdsWhere(g, c)|
  {
    if |g| > 0 {
      var t := g[1..];
      NumWhereIsCard(t, c);
      IdsWhereSub(t, c);
      IdSetMember(t, g[0].id);
    }
  }

  /** In an ascending series, an id matches `c` exactly when its stored count does. */
  lemma {:induction false} IdsWhereMeaning(g: seq<Entry>, c: Criterion, x: PersonId)
    requires Ascending(g)
    ensures x in IdsWhere(g, c) <==> x in IdSet(g) && Matches(CountFor(g, x), c)
  {
    if |g| > 0 {
      IdsWhereMeaning(g[1..], c, x);
      if x == g[0].id {
        IdsWhereSub(g[1..], c);
        IdSetMember(g[1..], x);
      }
    }
  }

  /**
   Counting matching entries of the grouped series counts the distinct persons whose
   number of rows matches: `sum(booking_frequencies <op> n)` means what it says.
   */
  lemma GroupNumWhere(rows: seq<Row>, c: Criterion)
    ensures NumWhere(Group(rows), c) == |PersonsWhere(rows, c)|
  {
    var g := Group(rows);
    NumWhereIsCard(g, c);
    forall x ensures x in IdsWhere(g, c) <==> x in PersonsWhere(rows, c) {
      IdsWhereMeaning(g, c, x);
    }
    assert IdsWhere(g, c) == PersonsWhere(rows, c);
  }

  /** `len(booking_frequencies)` is the number of distinct persons. */
  lemma GroupSize(rows: seq<Row>)
    ensures |Group(rows)| == |PersonIds(rows)|
  {
    var g := Group(rows);
    AllMatchAbove0(g);
    GroupNumWhere(rows, Above(0));
    forall x | x in PersonIds(rows) ensures CountId(rows, x) > 0 {
      var r :| r in rows && r.personId == x;
      CountIdMember(rows, r);
    }
    assert PersonsWhere(rows, Above(0)) == PersonIds(rows);
  }

  lemma {:induction false} CountIdMember(rows: seq<Row>, r: Row)
    requires r in rows
    ensures CountId(rows, r.personId) >= 1
  {
    if rows[0] != r {
      CountIdMember(rows[1..], r);
    }
  }

  lemma {:induction false} AllMatchAbove0(g: seq<Entry>)
    requires Positive(g)
    ensures NumWhere(g, Above(0)) == |g|
  {
    if |g| > 0 {
      AllMatchAbove0(g[1..]);
    }
  }

  /** Every entry either has at most `n` rows or more than `n` rows. */
  lemma {:induction false} AtMostPlusAbove(g: seq<Entry>, n: int)
    ensures NumWhere(g, AtMost(n)) + NumWhere(g, Above(n)) == |g|
  {
    if |g| > 0 {
      AtMostPlusAbove(g[1..], n);
    }
  }

  /** Raising the bound by one adds the entries with exactly that many rows. */
  lemma {:induction false} AtMostStep(g: seq<Entry>, n: int)
    ensures NumWhere(g, AtMost(n)) == NumWhere(g, AtMost(n - 1)) + NumWhere(g, Eq(n))
  {
    if |g| > 0 {
      AtMostStep(g[1..], n);
    }
  }

  /** Nobody in the series has zero rows. */
  lemma {:induction false} AtMostZero(g: seq<Entry>)
    requires Positive(g)
    ensures NumWhere(g, AtMost(0)) == 0
  {
    if |g| > 0 {
      AtMostZero(g[1..]);
    }
  }

  /** The count of entries with at most `n` rows grows with `n`. */
  lemma {:induction false} AtMostMonotone(g: seq<Entry>, m: int, n: int)
    requires m <= n
    ensures NumWhere(g, AtMost(m)) <= NumWhere(g, AtMost(n))
  {
    if |g| > 0 {
      AtMostMonotone(g[1..], m, n);
    }
  }
}
