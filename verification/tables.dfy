/**
 * The data-frame operations the reconciliation and the denormalisation are built from:
 * row filters, column extraction, sorting the distinct values of a column, Python
 * slicing, and the left and right joins on one key column.
 * A table is a sequence of rows in frame order.
 */
module Tables {
  import opened Wrappers
  import opened Strings

  /* ---------------------------------------------------------------------------------
   * Filtering.
   * ------------------------------------------------------------------------------ */

  /** `frame.filter(keep)`: the rows that satisfy `keep`, in their original order. */
  function Filter<R(!new)>(rows: seq<R>, keep: R -> bool): (r: seq<R>)
    ensures |r| <= |rows|
    ensures forall x :: x in r <==> x in rows && keep(x)
    decreases |rows|
  {
    if |rows| == 0 then []
    else if keep(rows[0]) then [rows[0]] + Filter(rows[1..], keep)
    else Filter(rows[1..], keep)
  }

  /** The negation of a row predicate. */
  function Fails<R>(keep: R -> bool): R -> bool
  {
    x => !keep(x)
  }

  /** Filtering distributes over concatenation, so relative row order is kept. */
  lemma {:induction false} FilterConcat<R(!new)>(a: seq<R>, b: seq<R>, keep: R -> bool)
    ensures Filter(a + b, keep) == Filter(a, keep) + Filter(b, keep)
    decreases |a|
  {
    if |a| == 0 {
      assert a + b == b;
    } else {
      assert (a + b)[0] == a[0];
      assert (a + b)[1..] == a[1..] + b;
      FilterConcat(a[1..], b, keep);
    }
  }

  /** A filter that keeps every row returns the table unchanged. */
  lemma {:induction false} FilterKeepsAll<R(!new)>(rows: seq<R>, keep: R -> bool)
    requires forall x :: x in rows ==> keep(x)
    ensures Filter(rows, keep) == rows
    decreases |rows|
  {
    if |rows| > 0 {
      assert rows[0] in rows;
      assert forall x :: x in rows[1..] ==> x in rows;
      FilterKeepsAll(rows[1..], keep);
    }
  }

  /** Applying the same filter twice is the same as applying it once. */
  lemma FilterIdempotent<R(!new)>(rows: seq<R>, keep: R -> bool)
    ensures Filter(Filter(rows, keep), keep) == Filter(rows, keep)
  {
    FilterKeepsAll(Filter(rows, keep), keep);
  }

  /** A row and its complement split a table: every row is in exactly one of the two parts. */
  lemma {:induction false} FilterPartition<R(!new)>(rows: seq<R>, keep: R -> bool)
    ensures |Filter(rows, keep)| + |Filter(rows, Fails(keep))| == |rows|
    ensures multiset(Filter(rows, keep)) + multiset(Filter(rows, Fails(keep))) == multiset(rows)
    decreases |rows|
  {
    if |rows| > 0 {
      FilterPartition(rows[1..], keep);
      assert rows == [rows[0]] + rows[1..];
    }
  }

  /* ---------------------------------------------------------------------------------
   * Projection.
   * ------------------------------------------------------------------------------ */

  /**
   * Applies a function to every row, keeping the order (`with_columns`, `select`, `rename`);
   * with a cell accessor, `frame[column]`.
   */
  function MapRows<R, S>(rows: seq<R>, f: R -> S): (r: seq<S>)
    ensures |r| == |rows|
    ensures forall i :: 0 <= i < |rows| ==> r[i] == f(rows[i])
  {
    seq(|rows|, i requires 0 <= i < |rows| => f(rows[i]))
  }

  /** A value is in the projection exactly when some row projects to it. */
  lemma MapRowsHas<R, S>(rows: seq<R>, f: R -> S, y: S)
    ensures y in MapRows(rows, f) <==> exists x :: x in rows && f(x) == y
  {
    var r := MapRows(rows, f);
    if y in r {
      var i :| 0 <= i < |r| && r[i] == y;
      assert rows[i] in rows;
    }
    if exists x :: x in rows && f(x) == y {
      var x :| x in rows && f(x) == y;
      var i :| 0 <= i < |rows| && rows[i] == x;
      assert r[i] == y;
    }
  }

  /** Projection distributes over concatenation. */
  lemma MapRowsConcat<R, S>(a: seq<R>, b: seq<R>, f: R -> S)
    ensures MapRows(a + b, f) == MapRows(a, f) + MapRows(b, f)
  {
  }

  /* ---------------------------------------------------------------------------------
   * Sorting the distinct values of a column.
   * ------------------------------------------------------------------------------ */

  /** Sorted in ascending order with no value repeated. */
  predicate StrictlySorted(xs: seq<string>)
  {
    forall i, j :: 0 <= i < j < |xs| ==> Less(xs[i], xs[j])
  }

  /** A strictly sorted sequence holds no value twice. */
  lemma StrictlySortedDistinct(xs: seq<string>)
    requires StrictlySorted(xs)
    ensures forall i, j :: 0 <= i < |xs| && 0 <= j < |xs| && i != j ==> xs[i] != xs[j]
  {
    forall i, j | 0 <= i < |xs| && 0 <= j < |xs| && i != j
      ensures xs[i] != xs[j]
    {
      if i < j {
        LessIrreflexive(xs[i]);
      } else {
        LessIrreflexive(xs[j]);
      }
    }
  }

  /** Every value of a strictly sorted sequence after its first is greater than any `x` below the first. */
  lemma BelowHeadBelowAll(x: string, ys: seq<string>)
    requires StrictlySorted(ys) && |ys| > 0 && Less(x, ys[0])
    ensures forall j :: 0 <= j < |ys| ==> Less(x, ys[j])
  {
    forall j | 0 < j < |ys|
      ensures Less(x, ys[j])
    {
      LessTransitive(x, ys[0], ys[j]);
    }
  }

  /** Inserts `x` into a strictly sorted sequence unless it is already there. */
  function Insert(x: string, ys: seq<string>): (r: seq<string>)
    requires StrictlySorted(ys)
    ensures StrictlySorted(r)
    ensures forall z :: z in r <==> z == x || z in ys
    decreases |ys|
  {
    if |ys| == 0 then [x]
    else if x == ys[0] then ys
    else if Less(x, ys[0]) then
      BelowHeadBelowAll(x, ys);
      [x] + ys
    else
      LessTotal(x, ys[0]);
      var rest := Insert(x, ys[1..]);
      assert forall z :: z in rest ==> Less(ys[0], z);
      [ys[0]] + rest
  }

  /** `series.unique().sort()`: the distinct values in ascending order. */
  function SortUnique(xs: seq<string>): (r: seq<string>)
    ensures StrictlySorted(r)
    ensures forall z :: z in r <==> z in xs
    decreases |xs|
  {
    if |xs| == 0 then [] else Insert(xs[0], SortUnique(xs[1..]))
  }

  /**
   * There is only one strictly sorted sequence of a given set of values, so the result
   * of sorting the distinct values does not depend on how they were produced.
   */
  lemma {:induction false} StrictlySortedUnique(a: seq<string>, b: seq<string>)
    requires StrictlySorted(a) && StrictlySorted(b)
    requires forall z :: z in a <==> z in b
    ensures a == b
    decreases |a|
  {
    assert |a| > 0 ==> a[0] in b;
    assert |b| > 0 ==> b[0] in a;
    if |a| > 0 {
      assert a[0] in a;
      var k :| 0 <= k < |b| && b[k] == a[0];
      if k > 0 {
        assert b[0] in b;
        var m :| 0 <= m < |a| && a[m] == b[0];
        LessIrreflexive(a[0]);
        assert m > 0;
        LessTransitive(a[0], a[m], b[k]);
        assert false;
      }
      StrictlySortedDistinct(a);
      StrictlySortedDistinct(b);
      forall z
        ensures z in a[1..] <==> z in b[1..]
      {
        if z in a[1..] {
          var i :| 1 <= i < |a| && a[i] == z;
          assert z in b;
        }
        if z in b[1..] {
          var i :| 1 <= i < |b| && b[i] == z;
          assert z in a;
        }
      }
      StrictlySortedUnique(a[1..], b[1..]);
      assert a == [a[0]] + a[1..] && b == [b[0]] + b[1..];
    }
  }

  /** Removing values from a strictly sorted sequence keeps it strictly sorted. */
  lemma {:induction false} FilterKeepsSorted(xs: seq<string>, keep: string -> bool)
    requires StrictlySorted(xs)
    ensures StrictlySorted(Filter(xs, keep))
    decreases |xs|
  {
    if |xs| > 0 {
      FilterKeepsSorted(xs[1..], keep);
      var rest := Filter(xs[1..], keep);
      forall z | z in rest
        ensures Less(xs[0], z)
      {
        var i :| 0 <= i < |xs[1..]| && xs[1..][i] == z;
        assert xs[i + 1] == z;
      }
    }
  }

  /* ---------------------------------------------------------------------------------
   * Python slicing.
   * ------------------------------------------------------------------------------ */

  /**
   * Python's `xs[:n]`: the first `n` items when `n` is not negative, otherwise all but
   * the last `-n` items; never an error.
   */
  function Take<T>(xs: seq<T>, n: int): (r: seq<T>)
    ensures |r| <= |xs| && r == xs[..|r|]
    ensures n >= 0 ==> |r| == if n < |xs| then n else |xs|
    ensures n < 0 ==> |r| == if -n < |xs| then |xs| + n else 0
  {
    if n >= 0 then (if n < |xs| then xs[..n] else xs)
    else if -n < |xs| then xs[..|xs| + n]
    else []
  }

  /** A prefix of a strictly sorted sequence is strictly sorted. */
  lemma TakeKeepsSorted(xs: seq<string>, n: int)
    requires StrictlySorted(xs)
    ensures StrictlySorted(Take(xs, n))
    ensures forall z :: z in Take(xs, n) ==> z in xs
  {
    var r := Take(xs, n);
    forall i, j | 0 <= i < j < |r|
      ensures Less(r[i], r[j])
    {
      assert r[i] == xs[i] && r[j] == xs[j];
    }
  }

  /* ---------------------------------------------------------------------------------
   * Joins on one key column.
   * ------------------------------------------------------------------------------ */

  /**
   * What a row with key `key` is paired with by a join against `other`: a row of `other`
   * with the same key, or null when `other` has no row with that key.
   */
  ghost predicate JoinPartner<R(!new)>(other: seq<R>, keyOf: R -> string, key: string, partner: Option<R>)
  {
    match partner
    case Some(x) => x in other && keyOf(x) == key
    case None => forall x :: x in other ==> keyOf(x) != key
  }

  /** The rows of `rows` whose key equals `key`, in order. */
  function Matching<R(!new)>(rows: seq<R>, keyOf: R -> string, key: string): (r: seq<R>)
    ensures forall x :: x in r <==> x in rows && keyOf(x) == key
  {
    Filter(rows, x => keyOf(x) == key)
  }

  /** Every partner of one row: the matching rows of `other` in order, or null when there are none. */
  function Partners<R(!new)>(other: seq<R>, keyOf: R -> string, key: string): (r: seq<Option<R>>)
    ensures |r| >= 1
    ensures forall o :: o in r <==> JoinPartner(other, keyOf, key, o)
  {
    var ms := Matching(other, keyOf, key);
    if |ms| == 0 then [None]
    else
      var r := seq(|ms|, i requires 0 <= i < |ms| => Some(ms[i]));
      assert forall i :: 0 <= i < |ms| ==> r[i] == Some(ms[i]);
      assert forall o :: o in r ==> o.Some? && o.value in ms;
      assert forall x :: x in ms ==> Some(x) in r;
      assert ms[0] in ms;
      r
  }

  /**
   * `left.join(right, how="left")`: each left row, in order, paired with every right
   * row with the same key, or once with null when no right row has that key.
   */
  function LeftJoin<L(!new), R(!new)>(left: seq<L>, right: seq<R>, lk: L -> string, rk: R -> string): (r: seq<(L, Option<R>)>)
    ensures |r| >= |left|
    ensures forall p :: p in r <==> p.0 in left && JoinPartner(right, rk, lk(p.0), p.1)
    decreases |left|
  {
    if |left| == 0 then []
    else
      var ps := Partners(right, rk, lk(left[0]));
      var head := seq(|ps|, i requires 0 <= i < |ps| => (left[0], ps[i]));
      assert forall p :: p in head <==> p.0 == left[0] && p.1 in ps by {
        assert forall i :: 0 <= i < |ps| ==> head[i] == (left[0], ps[i]);
        forall p: (L, Option<R>) | p.0 == left[0] && p.1 in ps
          ensures p in head
        {
          var i :| 0 <= i < |ps| && ps[i] == p.1;
          assert head[i] == p;
        }
      }
      var tail := LeftJoin(left[1..], right, lk, rk);
      assert forall l :: l in left <==> l == left[0] || l in left[1..];
      head + tail
  }

  /**
   * `left.join(right, left_on, right_on, how="right")`: each right row, in order, paired
   * with every left row with the same key, or once with null when no left row has it.
   */
  function RightJoin<L(!new), R(!new)>(left: seq<L>, right: seq<R>, lk: L -> string, rk: R -> string): (r: seq<(Option<L>, R)>)
    ensures |r| >= |right|
    ensures forall p :: p in r <==> p.1 in right && JoinPartner(left, lk, rk(p.1), p.0)
    decreases |right|
  {
    if |right| == 0 then []
    else
      var ps := Partners(left, lk, rk(right[0]));
      var head := seq(|ps|, i requires 0 <= i < |ps| => (ps[i], right[0]));
      assert forall p :: p in head <==> p.1 == right[0] && p.0 in ps by {
        assert forall i :: 0 <= i < |ps| ==> head[i] == (ps[i], right[0]);
        forall p: (Option<L>, R) | p.1 == right[0] && p.0 in ps
          ensures p in head
        {
          var i :| 0 <= i < |ps| && ps[i] == p.0;
          assert head[i] == p;
        }
      }
      var tail := RightJoin(left, right[1..], lk, rk);
      assert forall x :: x in right <==> x == right[0] || x in right[1..];
      head + tail
  }

  /** A right join against stacked right tables is the stack of the two right joins. */
  lemma {:induction false} RightJoinConcat<L(!new), R(!new)>(left: seq<L>, a: seq<R>, b: seq<R>, lk: L -> string, rk: R -> string)
    ensures RightJoin(left, a + b, lk, rk) == RightJoin(left, a, lk, rk) + RightJoin(left, b, lk, rk)
    decreases |a|
  {
    if |a| == 0 {
      assert a + b == b;
    } else {
      assert (a + b)[0] == a[0];
      assert (a + b)[1..] == a[1..] + b;
      RightJoinConcat(left, a[1..], b, lk, rk);
    }
  }
}
