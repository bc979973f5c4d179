/** Iteration over Python sets. The order in which `for x in s` visits a set
    depends on hashing, so the model receives it as a sequence that lists
    each element of the set exactly once. */
module Iteration {

  /** `order` visits every element of `s` once and nothing else. */
  predicate Enumerates<T(==)>(order: seq<T>, s: set<T>) {
    (forall i :: 0 <= i < |order| ==> order[i] in s)
    && (forall x :: x in s ==> x in order)
    && (forall i, j :: 0 <= i < j < |order| ==> order[i] != order[j])
  }
}
