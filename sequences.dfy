/** Facts about sequences shared by the schedule, the countdown and the duration list. */
module Sequences {
  /** No value occurs twice. */
  predicate NoDuplicates<T(==)>(s: seq<T>) {
    forall i, j :: 0 <= i < j < |s| ==> s[i] != s[j]
  }
}
