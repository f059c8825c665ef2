/** Small value types and sequence predicates shared by the other modules. */
module Common {

  /** Stands for a value that may be absent. */
  datatype Option<T> = None | Some(value: T)

  /** No element occurs twice. */
  predicate Distinct<T(==)>(s: seq<T>)
  {
    forall i, j :: 0 <= i < j < |s| ==> s[i] != s[j]
  }

  /** Strictly ascending, hence also free of repetitions. */
  predicate Increasing(s: seq<int>)
  {
    forall i, j :: 0 <= i < j < |s| ==> s[i] < s[j]
  }

  function Last<T>(s: seq<T>): T
    requires |s| > 0
  {
    s[|s| - 1]
  }
}
