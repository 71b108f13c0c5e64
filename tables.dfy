/** The two query shapes the handlers use on a table: `.filter(p).first()` and `.filter(p).all()`.
    A table is a sequence of rows. The queries carry no ordering, so the database may return rows
    in any order; the model fixes one: the sequence order, first row first. */
module Tables {
  import opened Wrappers

  /** The position of the first row satisfying `p`. */
  function FirstIndex<T>(rows: seq<T>, p: T -> bool): (r: Option<nat>)
    ensures r.Some? ==> r.value < |rows| && p(rows[r.value])
    ensures r.Some? ==> forall j :: 0 <= j < r.value ==> !p(rows[j])
    ensures r.None? <==> forall j :: 0 <= j < |rows| ==> !p(rows[j])
  {
    if |rows| == 0 then None
    else if p(rows[0]) then Some(0)
    else match FirstIndex(rows[1..], p)
      case None => None
      case Some(i) => Some(i + 1)
  }

  /** `.filter(p).first()`: the first row satisfying `p`, if any. */
  function First<T>(rows: seq<T>, p: T -> bool): (r: Option<T>)
    ensures r.Some? <==> exists x :: x in rows && p(x)
    ensures r.Some? ==> r.value in rows && p(r.value)
  {
    match FirstIndex(rows, p)
    case None => None
    case Some(i) => Some(rows[i])
  }

  /** `.filter(p).all()`: the rows satisfying `p`, with their multiplicities, in sequence order. */
  function Filter<T>(rows: seq<T>, p: T -> bool): (r: seq<T>)
    ensures |r| <= |rows|
    ensures forall x :: x in r ==> x in rows && p(x)
    ensures forall x :: x in rows && p(x) ==> x in r
  {
    if |rows| == 0 then []
    else
      assert rows == [rows[0]] + rows[1..];
      var rest := Filter(rows[1..], p);
      if p(rows[0]) then [rows[0]] + rest else rest
  }

  /** Filtering keeps every passing row as often as the table holds it, and no other row. */
  lemma {:induction false} FilterCount<T>(rows: seq<T>, p: T -> bool)
    ensures forall x :: x in rows ==> multiset(Filter(rows, p))[x] == if p(x) then multiset(rows)[x] else 0
  {
    if |rows| > 0 {
      assert rows == [rows[0]] + rows[1..];
      FilterCount(rows[1..], p);
      forall x | x in rows
        ensures multiset(Filter(rows, p))[x] == if p(x) then multiset(rows)[x] else 0
      {
        if x !in rows[1..] {
          assert multiset(rows[1..])[x] == 0;
          assert x !in Filter(rows[1..], p);
        }
      }
    }
  }

  /** Filtering a table that grew at its end filters the old rows and the new ones separately. */
  lemma {:induction false} FilterAppend<T>(a: seq<T>, b: seq<T>, p: T -> bool)
    ensures Filter(a + b, p) == Filter(a, p) + Filter(b, p)
  {
    if |a| == 0 {
      assert a + b == b;
    } else {
      var ab := a + b;
      assert ab[0] == a[0] && ab[1..] == a[1..] + b;
      FilterAppend(a[1..], b, p);
      var rest := Filter(a[1..], p) + Filter(b, p);
      if p(a[0]) {
        assert Filter(ab, p) == [a[0]] + rest;
        assert Filter(a, p) == [a[0]] + Filter(a[1..], p);
        assert [a[0]] + rest == ([a[0]] + Filter(a[1..], p)) + Filter(b, p);
      } else {
        assert Filter(ab, p) == rest;
        assert Filter(a, p) == Filter(a[1..], p);
      }
    }
  }

  /** Two filters that agree on every row of the table pick the same first row. */
  lemma {:induction false} FirstCongruent<T>(rows: seq<T>, p: T -> bool, q: T -> bool)
    requires forall x :: x in rows ==> p(x) == q(x)
    ensures FirstIndex(rows, p) == FirstIndex(rows, q)
    ensures First(rows, p) == First(rows, q)
  {
    if |rows| > 0 {
      FirstCongruent(rows[1..], p, q);
    }
  }

  /** A filter every row passes returns the whole table. */
  lemma {:induction false} FilterKeepsAll<T>(rows: seq<T>, p: T -> bool)
    requires forall x :: x in rows ==> p(x)
    ensures Filter(rows, p) == rows
  {
    if |rows| > 0 {
      assert rows == [rows[0]] + rows[1..];
      FilterKeepsAll(rows[1..], p);
    }
  }

  /** No two rows of the table share a key. */
  ghost predicate Distinct<T, K>(rows: seq<T>, key: T -> K) {
    forall i, j :: 0 <= i < |rows| && 0 <= j < |rows| && key(rows[i]) == key(rows[j]) ==> i == j
  }

  /** Filtering keeps a key unique: the result holds only rows of the table. */
  lemma {:induction false} FilterKeepsKeysUnique<T, K>(rows: seq<T>, p: T -> bool, key: T -> K)
    ensures Distinct(rows, key) ==> Distinct(Filter(rows, p), key)
  {
    if |rows| > 0 && Distinct(rows, key) {
      var tail := rows[1..];
      assert Distinct(tail, key) by {
        forall i, j | 0 <= i < |tail| && 0 <= j < |tail| && key(tail[i]) == key(tail[j])
          ensures i == j
        {
          assert rows[i + 1] == tail[i] && rows[j + 1] == tail[j];
        }
      }
      FilterKeepsKeysUnique(tail, p, key);
      var rest := Filter(tail, p);
      if p(rows[0]) {
        var r := [rows[0]] + rest;
        forall x | x in rest
          ensures key(x) != key(rows[0])
        {
          var m :| 0 <= m < |tail| && tail[m] == x;
          assert rows[m + 1] == x;
        }
        forall i, j | 0 <= i < |r| && 0 <= j < |r| && key(r[i]) == key(r[j])
          ensures i == j
        {
          if i > 0 && j > 0 {
            assert r[i] == rest[i - 1] && r[j] == rest[j - 1];
          }
        }
        assert Filter(rows, p) == r;
      }
    }
  }
}
