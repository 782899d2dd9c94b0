/** A property of sequences that timers, tasks, event nodes and layers share. */
module Sequences {
  predicate NoRepeats(s: seq<int>) {
    forall i, j :: 0 <= i < j < |s| ==> s[i] != s[j]
  }
}
