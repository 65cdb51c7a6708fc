/** A pandas boolean-mask selection `frame[mask]` over the rows of a table, and
    the `len` of it. */
module Frames {

  /** The rows for which `keep` holds, in their original order. */
  function Filter<T>(rows: seq<T>, keep: T -> bool): (kept: seq<T>)
    ensures |kept| <= |rows|
    ensures forall x :: x in kept ==> keep(x)
    decreases |rows|
  {
    if rows == [] then []
    else
      var init := Filter(rows[..|rows| - 1], keep);
      if keep(rows[|rows| - 1]) then init + [rows[|rows| - 1]] else init
  }

  /** The positions of the rows for which `keep` holds: the reference meaning of
      "how many rows match". */
  function MatchingIndices<T>(rows: seq<T>, keep: T -> bool): set<nat> {
    set i: nat | i < |rows| && keep(rows[i])
  }

  /** `len(frame[mask])` is the number of positions whose row matches. */
  lemma {:induction false} FilterCountsMatches<T>(rows: seq<T>, keep: T -> bool)
    ensures |Filter(rows, keep)| == |MatchingIndices(rows, keep)|
    decreases |rows|
  {
    if rows != [] {
      var n := |rows| - 1;
      var init := rows[..n];
      FilterCountsMatches(init, keep);
      var before := MatchingIndices(init, keep);
      if keep(rows[n]) {
        assert MatchingIndices(rows, keep) == before + {n};
        assert n !in before;
      } else {
        assert MatchingIndices(rows, keep) == before;
      }
    }
  }

  /** The selection keeps every matching row as often as the table holds it and
      no other row. */
  lemma {:induction false} FilterMultiplicity<T>(rows: seq<T>, keep: T -> bool, x: T)
    ensures multiset(Filter(rows, keep))[x] == if keep(x) then multiset(rows)[x] else 0
    decreases |rows|
  {
    if rows != [] {
      var n := |rows| - 1;
      FilterMultiplicity(rows[..n], keep, x);
      assert rows == rows[..n] + [rows[n]];
    }
  }

  /** When no row can match both masks, the rows matching either are counted once by
      one of the two masks. */
  lemma {:induction false} FilterDisjointUnion<T>(rows: seq<T>, p: T -> bool, q: T -> bool, either: T -> bool)
    requires forall x :: either(x) == (p(x) || q(x))
    requires forall x :: !(p(x) && q(x))
    ensures |Filter(rows, either)| == |Filter(rows, p)| + |Filter(rows, q)|
    decreases |rows|
  {
    if rows != [] {
      FilterDisjointUnion(rows[..|rows| - 1], p, q, either);
    }
  }
}
