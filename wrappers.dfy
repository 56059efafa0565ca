/**
 * Optional values, the model's rendering of a Java reference that may be
 * null, and picking a member of a set.
 */
module Wrappers {

  datatype Option<+T> = None | Some(value: T)

  /** Some member of a non-empty set. */
  lemma SomeElement<T>(s: set<T>) returns (x: T)
    requires s != {}
    ensures x in s
  {
    x :| x in s;
  }
}
