// Failure and option datatypes, and the few facts about sequences that every
// other module uses.
module Prelude {

  datatype Option<+T> = None | Some(value: T)

  datatype Result<+T, +E> = Ok(value: T) | Err(error: E)

  /** No element occurs twice. */
  ghost predicate NoDuplicates<T(!new)>(s: seq<T>) {
    forall i, j :: 0 <= i < j < |s| ==> s[i] != s[j]
  }

  /** The pigeonhole principle: distinct members of a finite set are at most as many as the set. */
  lemma {:induction false} Pigeonhole<T(!new)>(s: seq<T>, pool: set<T>)
    requires NoDuplicates(s)
    requires forall i :: 0 <= i < |s| ==> s[i] in pool
    ensures |s| <= |pool|
  {
    if s != [] {
      var last := s[|s| - 1];
      Pigeonhole(s[..|s| - 1], pool - {last});
    }
  }
}
