/** Sequences without repetition. */
module Sequences {

  ghost predicate Apart<T>(s: seq<T>, i: nat, j: nat) {
    i < |s| && j < |s| && s[i] != s[j]
  }

  ghost predicate Distinct<T>(s: seq<T>) {
    forall i, j :: 0 <= i < j < |s| ==> Apart(s, i, j)
  }
}
