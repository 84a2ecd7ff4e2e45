/** Small value types shared by the database stand-in and the backend model. */
module Base {

  /** Go's `error` result: `None` is `nil`, `Some(e)` is a non-nil error. */
  datatype Option<+T> = None | Some(value: T)

  /** No element occurs twice in `s`. */
  predicate Distinct<T(==)>(s: seq<T>)
  {
    forall i, j :: 0 <= i < j < |s| ==> s[i] != s[j]
  }

  /** The set of elements of `s`. */
  function Elements<T>(s: seq<T>): (r: set<T>)
  {
    set x | x in s
  }

  /** A duplicate-free sequence has as many distinct elements as positions. */
  lemma {:induction false} DistinctCardinality<T>(s: seq<T>)
    requires Distinct(s)
    ensures |Elements(s)| == |s|
  {
    if s != [] {
      var p := s[..|s| - 1];
      assert Distinct(p);
      DistinctCardinality(p);
      assert s == p + [s[|s| - 1]];
      assert s[|s| - 1] !in p;
      assert Elements(s) == Elements(p) + {s[|s| - 1]};
    }
  }
}
