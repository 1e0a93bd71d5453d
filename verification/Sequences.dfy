/** Sequence facts shared by the other modules. */
module Sequences {

  datatype Option<+T> = None | Some(value: T)

  ghost predicate Distinct<T>(s: seq<T>) {
    forall i, j :: 0 <= i < j < |s| ==> s[i] != s[j]
  }

  lemma {:induction false} DistinctFits<T>(s: seq<T>, bound: set<T>)
    requires Distinct(s) && forall x <- s :: x in bound
    ensures |s| <= |bound|
  {
    if s != [] {
      var n := |s| - 1;
      assert forall x <- s[..n] :: x in bound - {s[n]};
      DistinctFits(s[..n], bound - {s[n]});
    }
  }

  /** Moving one more element from the front of what is left to the end of what is done. */
  lemma {:induction false} Regroup<T>(done: seq<T>, next: seq<T>, left: seq<T>)
    ensures done + (next + left) == (done + next) + left
    ensures next == [] ==> done + (next + left) == done + left
  {
    if next == [] { assert next + left == left; }
  }

  /** The same elements from the last to the first. */
  function Reversed<T>(s: seq<T>): (r: seq<T>)
    ensures |r| == |s|
  {
    seq(|s|, k requires 0 <= k < |s| => s[|s| - 1 - k])
  }

  lemma {:induction false} ReversedFront<T>(x: T, s: seq<T>)
    ensures Reversed([x] + s) == Reversed(s) + [x]
  {
  }
}
