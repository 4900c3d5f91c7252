/** Shared value types: the optional value, the three structural errors the
    merge can raise, and the result of an operation that may raise one. */
module Basics {

  datatype Option<+T> = None | Some(value: T)

  /** The exceptions thrown by both implementations, without their message text. */
  datatype MergeError =
    | MissingSource(name: string)   // "Cannot include missing source <name>."
    | AmbiguousEntry                // "There must be exactly 1 file which is not included by any other file."
    | CyclicDependency              // "Cyclic dependency detected."

  datatype Result<+T> = Ok(value: T) | Err(error: MergeError)

  /** The set of elements of a sequence. */
  function Elems<T>(s: seq<T>): set<T>
  {
    set x | x in s
  }

  /** No element occurs twice. */
  predicate Distinct<T(==)>(s: seq<T>)
  {
    forall i, j :: 0 <= i < j < |s| ==> s[i] != s[j]
  }

  /** A duplicate-free sequence has as many elements as its set of elements. */
  lemma {:induction false} DistinctCard<T>(s: seq<T>)
    requires Distinct(s)
    ensures |Elems(s)| == |s|
  {
    if s != [] {
      var t := s[..|s| - 1];
      var x := s[|s| - 1];
      assert Distinct(t);
      DistinctCard(t);
      assert s == t + [x];
      assert x !in Elems(t);
      assert Elems(s) == Elems(t) + {x};
    }
  }
}
