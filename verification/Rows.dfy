/** Queries over table rows kept as sequences: filtering, and what it keeps. */
module Rows {

  /** The rows that satisfy p, in order. */
  function Filter<T(!new)>(rows: seq<T>, p: T -> bool): (r: seq<T>)
    ensures forall x :: x in r <==> x in rows && p(x)
  {
    if rows == [] then []
    else
      var n := |rows| - 1;
      assert rows == rows[..n] + [rows[n]];
      Filter(rows[..n], p) + if p(rows[n]) then [rows[n]] else []
  }

  function Both<T>(p: T -> bool, q: T -> bool): T -> bool {
    (x: T) => p(x) && q(x)
  }

  function Not<T>(p: T -> bool): T -> bool {
    (x: T) => !p(x)
  }

  lemma {:induction false} FilterSame<T(!new)>(rows: seq<T>, p: T -> bool, q: T -> bool)
    requires forall x | x in rows :: p(x) == q(x)
    ensures Filter(rows, p) == Filter(rows, q)
  {
    if rows != [] {
      var n := |rows| - 1;
      assert forall x | x in rows[..n] :: x in rows;
      assert rows[n] in rows;
      FilterSame(rows[..n], p, q);
    }
  }

  lemma {:induction false} FilterAll<T(!new)>(rows: seq<T>, p: T -> bool)
    requires forall x | x in rows :: p(x)
    ensures Filter(rows, p) == rows
  {
    if rows != [] {
      var n := |rows| - 1;
      assert forall x | x in rows[..n] :: x in rows;
      assert rows[n] in rows && rows == rows[..n] + [rows[n]];
      FilterAll(rows[..n], p);
    }
  }

  lemma {:induction false} FilterNone<T(!new)>(rows: seq<T>, p: T -> bool)
    requires forall x | x in rows :: !p(x)
    ensures Filter(rows, p) == []
  {
    if rows != [] {
      var n := |rows| - 1;
      assert forall x | x in rows[..n] :: x in rows;
      assert rows[n] in rows;
      FilterNone(rows[..n], p);
    }
  }

  lemma {:induction false} FilterTwice<T(!new)>(rows: seq<T>, p: T -> bool, q: T -> bool)
    ensures Filter(Filter(rows, p), q) == Filter(rows, Both(p, q))
  {
    if rows != [] {
      var n := |rows| - 1;
      FilterTwice(rows[..n], p, q);
      if p(rows[n]) {
        FilterAppend(Filter(rows[..n], p), [rows[n]], q);
      } else {
        assert Filter(rows, p) == Filter(rows[..n], p);
      }
    }
  }

  lemma FilterSnoc<T(!new)>(rows: seq<T>, x: T, p: T -> bool)
    ensures Filter(rows + [x], p) == Filter(rows, p) + if p(x) then [x] else []
  {
    assert (rows + [x])[..|rows|] == rows;
  }

  lemma {:induction false} FilterAppend<T(!new)>(rows: seq<T>, more: seq<T>, p: T -> bool)
    ensures Filter(rows + more, p) == Filter(rows, p) + Filter(more, p)
  {
    if more == [] {
      assert rows + more == rows;
      assert Filter(rows, p) + [] == Filter(rows, p);
    } else {
      var n := |more| - 1;
      var init, x := more[..n], more[n];
      var last := if p(x) then [x] else [];
      assert more == init + [x];
      assert rows + more == (rows + init) + [x];
      FilterAppend(rows, init, p);
      FilterSnoc(rows + init, x, p);
      FilterSnoc(init, x, p);
      assert (Filter(rows, p) + Filter(init, p)) + last == Filter(rows, p) + (Filter(init, p) + last);
    }
  }

  /** Filtering by a condition and by its opposite splits the rows. */
  lemma {:induction false} FilterSplits<T(!new)>(rows: seq<T>, p: T -> bool)
    ensures multiset(rows) == multiset(Filter(rows, p)) + multiset(Filter(rows, Not(p)))
  {
    if rows != [] {
      var n := |rows| - 1;
      assert rows == rows[..n] + [rows[n]];
      FilterSplits(rows[..n], p);
    }
  }
}
