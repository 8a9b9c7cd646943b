/** Generic sequence operations: order-preserving filtering, repetition, sums and sortedness. */
module Seqs {

  /** The elements of `s` that satisfy `p`, in their original order (a pandas boolean mask). */
  function Filter<T>(s: seq<T>, p: T -> bool): (r: seq<T>)
    ensures |r| <= |s|
    ensures forall k :: 0 <= k < |r| ==> r[k] in s && p(r[k])
    ensures forall k :: 0 <= k < |s| && p(s[k]) ==> s[k] in r
  {
    if |s| == 0 then []
    else if p(s[0]) then [s[0]] + Filter(s[1..], p)
    else Filter(s[1..], p)
  }

  /** Filtering distributes over concatenation, so it keeps the relative order of the survivors. */
  lemma {:induction false} FilterAppend<T>(a: seq<T>, b: seq<T>, p: T -> bool)
    ensures Filter(a + b, p) == Filter(a, p) + Filter(b, p)
  {
    if |a| > 0 {
      assert (a + b)[1..] == a[1..] + b;
      FilterAppend(a[1..], b, p);
    } else {
      assert a + b == b;
    }
  }

  /** An element the mask rejects is invisible wherever it is inserted. */
  lemma FilterIgnoresRejected<T>(s: seq<T>, i: nat, x: T, p: T -> bool)
    requires i <= |s|
    requires !p(x)
    ensures Filter(s[..i] + [x] + s[i..], p) == Filter(s, p)
  {
    var pre, post := s[..i], s[i..];
    assert s[..i] + [x] + s[i..] == pre + ([x] + post);
    FilterAppend(pre, [x] + post, p);
    assert Filter([x] + post, p) == Filter(post, p) by {
      assert ([x] + post)[1..] == post;
    }
    FilterAppend(pre, post, p);
    assert pre + post == s;
  }

  /** Two masks applied one after the other equal their conjunction `pq` applied once. */
  lemma {:induction false} FilterFilter<T>(s: seq<T>, p: T -> bool, q: T -> bool, pq: T -> bool)
    requires forall k :: 0 <= k < |s| ==> pq(s[k]) == (p(s[k]) && q(s[k]))
    ensures Filter(Filter(s, p), q) == Filter(s, pq)
  {
    if |s| > 0 {
      FilterFilter(s[1..], p, q, pq);
    }
  }

  /** A mask that rejects every element leaves nothing. */
  lemma {:induction false} FilterNone<T>(s: seq<T>, p: T -> bool)
    requires forall k :: 0 <= k < |s| ==> !p(s[k])
    ensures Filter(s, p) == []
  {
    if |s| > 0 {
      FilterNone(s[1..], p);
    }
  }

  /** A mask that accepts every element keeps the sequence whole. */
  lemma {:induction false} FilterAll<T>(s: seq<T>, p: T -> bool)
    requires forall k :: 0 <= k < |s| ==> p(s[k])
    ensures Filter(s, p) == s
  {
    if |s| > 0 {
      FilterAll(s[1..], p);
      assert s == [s[0]] + s[1..];
    }
  }

  /** The index of the first occurrence of `x` in `s`. */
  function FirstIndex<T(==)>(s: seq<T>, x: T): (i: nat)
    requires x in s
    ensures i < |s| && s[i] == x
    ensures forall j :: 0 <= j < i ==> s[j] != x
  {
    if s[0] == x then 0
    else
      assert x in s[1..] by {
        var k :| 0 <= k < |s| && s[k] == x;
        assert s[1..][k - 1] == x;
      }
      1 + FirstIndex(s[1..], x)
  }

  /** `r` lists values of `s` in the order of their first occurrence in `s` (hence without repeats). */
  predicate FirstOccurrenceOrder<T(==)>(s: seq<T>, r: seq<T>) {
    && (forall k :: 0 <= k < |r| ==> r[k] in s)
    && (forall i, j :: 0 <= i < j < |r| ==> FirstIndex(s, r[i]) < FirstIndex(s, r[j]))
  }

  /**
   A listing in first-occurrence order for the tail of `s` that avoids `s[0]` stays in
   order for `s` itself, with or without `s[0]` put in front.
   */
  lemma FirstOccurrenceOrderCons<T>(s: seq<T>, t: seq<T>)
    requires |s| > 0 && FirstOccurrenceOrder(s[1..], t)
    requires forall k :: 0 <= k < |t| ==> t[k] != s[0]
    ensures FirstOccurrenceOrder(s, t)
    ensures FirstOccurrenceOrder(s, [s[0]] + t)
  {
    forall k | 0 <= k < |t| ensures t[k] in s && FirstIndex(s, t[k]) == 1 + FirstIndex(s[1..], t[k]) {
      assert s == [s[0]] + s[1..];
    }
    var r := [s[0]] + t;
    forall i, j | 0 <= i < j < |r| ensures FirstIndex(s, r[i]) < FirstIndex(s, r[j]) {
      assert r[j] == t[j - 1];
      if i > 0 {
        assert r[i] == t[i - 1];
      }
    }
  }

  /** Dropping the head keeps first-occurrence order; the head comes before every later value. */
  lemma FirstOccurrenceOrderTail<T>(s: seq<T>, a: seq<T>)
    requires FirstOccurrenceOrder(s, a) && |a| > 0
    ensures FirstOccurrenceOrder(s, a[1..])
    ensures forall k :: 0 <= k < |a| - 1 ==> a[1..][k] != a[0]
  {
    var t := a[1..];
    forall k | 0 <= k < |t| ensures t[k] != a[0] {
      assert t[k] == a[k + 1];
      assert FirstIndex(s, a[0]) < FirstIndex(s, a[k + 1]);
    }
    forall i, j | 0 <= i < j < |t| ensures FirstIndex(s, t[i]) < FirstIndex(s, t[j]) {
      assert t[i] == a[i + 1] && t[j] == a[j + 1];
    }
  }

  /**
   Two listings of the same values of `s`, both in first-occurrence order, are equal:
   the order fixes the listing.
   */
  lemma {:induction false} FirstOccurrenceOrderUnique<T>(s: seq<T>, a: seq<T>, b: seq<T>)
    requires FirstOccurrenceOrder(s, a) && FirstOccurrenceOrder(s, b)
    requires forall k :: 0 <= k < |a| ==> a[k] in b
    requires forall k :: 0 <= k < |b| ==> b[k] in a
    ensures a == b
  {
    if |a| == 0 {
    } else {
      assert |b| > 0 by {
        assert a[0] in b;
      }
      HeadsAgree(s, a, b);
      var a', b' := a[1..], b[1..];
      FirstOccurrenceOrderTail(s, a);
      FirstOccurrenceOrderTail(s, b);
      forall k | 0 <= k < |a'| ensures a'[k] in b' {
        assert a'[k] == a[k + 1];
        var m :| 0 <= m < |b| && b[m] == a'[k];
        assert b'[m - 1] == a'[k];
      }
      forall k | 0 <= k < |b'| ensures b'[k] in a' {
        assert b'[k] == b[k + 1];
        var m :| 0 <= m < |a| && a[m] == b'[k];
        assert a'[m - 1] == b'[k];
      }
      FirstOccurrenceOrderUnique(s, a', b');
      assert a == [a[0]] + a' && b == [b[0]] + b';
    }
  }

  /** Two non-empty listings of the same values in first-occurrence order start alike. */
  lemma HeadsAgree<T>(s: seq<T>, a: seq<T>, b: seq<T>)
    requires FirstOccurrenceOrder(s, a) && FirstOccurrenceOrder(s, b) && |a| > 0 && |b| > 0
    requires a[0] in b && b[0] in a
    ensures a[0] == b[0]
  {
    var i :| 0 <= i < |b| && b[i] == a[0];
    var j :| 0 <= j < |a| && a[j] == b[0];
    assert forall k :: 0 <= k < |a| ==> FirstIndex(s, a[0]) <= FirstIndex(s, a[k]);
    assert forall k :: 0 <= k < |b| ==> FirstIndex(s, b[0]) <= FirstIndex(s, b[k]);
    assert FirstIndex(s, a[0]) <= FirstIndex(s, a[j]) == FirstIndex(s, b[0]);
    assert FirstIndex(s, b[0]) <= FirstIndex(s, b[i]) == FirstIndex(s, a[0]);
    assert s[FirstIndex(s, a[0])] == a[0];
  }

  /** `n` copies of `v` (Python's `[v] * n`). */
  function Repeat<T>(v: T, n: nat): (r: seq<T>)
    ensures |r| == n
    ensures forall k :: 0 <= k < n ==> r[k] == v
  {
    seq(n, _ => v)
  }

  /** The sum of a sequence of integers (Python's `sum`). */
  function Sum(s: seq<int>): int {
    if |s| == 0 then 0 else s[0] + Sum(s[1..])
  }

  lemma {:induction false} SumAppend(a: seq<int>, b: seq<int>)
    ensures Sum(a + b) == Sum(a) + Sum(b)
  {
    if |a| > 0 {
      assert (a + b)[1..] == a[1..] + b;
      SumAppend(a[1..], b);
    } else {
      assert a + b == b;
    }
  }

  /** A sum of values drawn from `[lo, hi]` lies between `|s| * lo` and `|s| * hi`. */
  lemma {:induction false} SumBounds(s: seq<int>, lo: int, hi: int)
    requires forall k :: 0 <= k < |s| ==> lo <= s[k] <= hi
    ensures |s| * lo <= Sum(s) <= |s| * hi
  {
    if |s| > 0 {
      SumBounds(s[1..], lo, hi);
      assert |s| * lo == lo + (|s| - 1) * lo;
      assert |s| * hi == hi + (|s| - 1) * hi;
    }
  }

  /** Non-decreasing order. */
  predicate Sorted(s: seq<int>) {
    forall i, j :: 0 <= i <= j < |s| ==> s[i] <= s[j]
  }
}
