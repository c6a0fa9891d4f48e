/** Order-preserving de-duplication of a column, as pandas' `Series.unique()`
    returns the distinct values of a column in order of first appearance. */
module Sequences {

  /** No value occurs twice in `s`. */
  predicate Distinct<T(==)>(s: seq<T>) {
    forall i, j :: 0 <= i < j < |s| ==> s[i] != s[j]
  }

  /** The distinct values of `s`, each kept at its first occurrence. */
  function Unique<T(==)>(s: seq<T>): (u: seq<T>)
    ensures Distinct(u)
    ensures forall i :: 0 <= i < |u| ==> u[i] in s
    ensures forall i :: 0 <= i < |s| ==> s[i] in u
    ensures |u| <= |s|
  {
    if |s| == 0 then []
    else
      var prefix := Unique(s[..|s| - 1]);
      if s[|s| - 1] in prefix then prefix else prefix + [s[|s| - 1]]
  }

  /** A duplicate-free sequence has exactly as many elements as the set of
      its values: one entry per distinct value. */
  lemma {:induction false} DistinctCardinality<T>(s: seq<T>)
    requires Distinct(s)
    ensures |set x | x in s| == |s|
  {
    if |s| > 0 {
      var init := s[..|s| - 1];
      var last := s[|s| - 1];
      assert Distinct(init);
      DistinctCardinality(init);
      assert last !in init by {
        forall i | 0 <= i < |init| ensures init[i] != last {
          assert s[i] == init[i];
        }
      }
      assert s == init + [last];
      assert (set x | x in s) == (set x | x in init) + {last};
    }
  }
}
