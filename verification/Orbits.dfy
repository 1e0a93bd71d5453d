/** Repeating a step that may end: it goes on forever exactly when it comes back to where it was. */
module Orbits {
  import opened Sequences

  /** Where `n` steps lead, if they do not end before. */
  ghost function At<T>(step: T -> Option<T>, start: T, n: nat): Option<T> {
    if n == 0 then Some(start)
    else
      match At(step, start, n - 1)
      case None => None
      case Some(x) => step(x)
  }

  lemma {:induction false} AtAdd<T>(step: T -> Option<T>, start: T, m: nat, n: nat)
    ensures At(step, start, m + n) == if At(step, start, m).Some? then At(step, At(step, start, m).value, n) else None
    decreases n
  {
    if n > 0 { AtAdd(step, start, m, n - 1); }
  }

  /** Taking the first step first. */
  lemma {:induction false} FirstStep<T>(step: T -> Option<T>, start: T, n: nat)
    requires n > 0 && At(step, start, n).Some?
    ensures At(step, start, n - 1).Some?
    ensures step(start).Some? && At(step, step(start).value, n - 1).Some?
  {
    AtAdd(step, start, 1, n - 1);
    assert At(step, start, 0) == Some(start) && At(step, start, 1) == step(start);
  }

  /** `x` is where `n` steps lead, and the last there is. */
  ghost predicate IsLast<T>(step: T -> Option<T>, start: T, n: nat, x: T) {
    At(step, start, n) == Some(x) && step(x) == None
  }

  lemma {:induction false} LastExists<T>(step: T -> Option<T>, start: T, n: nat) returns (k: nat, x: T)
    requires At(step, start, n) == None
    ensures IsLast(step, start, k, x)
  {
    if At(step, start, n - 1).Some? {
      k, x := n - 1, At(step, start, n - 1).value;
    } else {
      k, x := LastExists(step, start, n - 1);
    }
  }

  lemma {:induction false} LastAfterFirst<T>(step: T -> Option<T>, start: T, n: nat, x: T)
    requires IsLast(step, start, n, x)
    ensures if n == 0 then x == start && step(start) == None
            else step(start).Some? && IsLast(step, step(start).value, n - 1, x)
  {
    if n > 0 {
      FirstStep(step, start, n);
      AtAdd(step, start, 1, n - 1);
      assert At(step, start, 0) == Some(start) && At(step, start, 1) == step(start);
    }
  }

  ghost predicate Repeats<T>(step: T -> Option<T>, start: T) {
    exists i: nat, j: nat :: i < j && At(step, start, i).Some? && At(step, start, i) == At(step, start, j)
  }

  lemma {:induction false} RepeatsForever<T>(step: T -> Option<T>, start: T, i: nat, j: nat, n: nat)
    requires i < j && At(step, start, i).Some? && At(step, start, i) == At(step, start, j)
    ensures At(step, start, n).Some?
    decreases n
  {
    if n <= j {
      AtAdd(step, start, n, j - n);
    } else {
      AtAdd(step, start, j, n - j);
      AtAdd(step, start, i, n - j);
      RepeatsForever(step, start, i, j, n - (j - i));
    }
  }

  ghost predicate Keeps<T>(step: T -> Option<T>, bound: set<T>) {
    forall x <- bound :: step(x).Some? ==> step(x).value in bound
  }

  lemma {:induction false} StaysInside<T>(step: T -> Option<T>, start: T, bound: set<T>, n: nat)
    requires start in bound && Keeps(step, bound) && At(step, start, n).Some?
    ensures At(step, start, n).value in bound
  {
    if n > 0 { StaysInside(step, start, bound, n - 1); }
  }

  /** Inside a finite set, as many steps as it has elements come back or end. */
  lemma {:induction false} LongRunRepeats<T>(step: T -> Option<T>, start: T, bound: set<T>)
    requires start in bound && Keeps(step, bound) && At(step, start, |bound|).Some?
    ensures Repeats(step, start)
  {
    var n := |bound|;
    forall k | 0 <= k <= n ensures At(step, start, k).Some? { AtAdd(step, start, k, n - k); }
    var run := seq(n + 1, k requires 0 <= k <= n => At(step, start, k).value);
    forall x | x in run ensures x in bound {
      var k :| 0 <= k <= n && run[k] == x;
      StaysInside(step, start, bound, k);
    }
    if Distinct(run) { DistinctFits(run, bound); }
    var i, j :| 0 <= i < j < |run| && run[i] == run[j];
    assert At(step, start, i) == At(step, start, j);
  }

  // ---- Steps that lead from one stop to the next ----

  /** From wherever `meets` foresees a stop, a step leads nearer to it, or from it to where it sends. */
  ghost predicate Leads<T(!new)>(step: T -> Option<T>, meets: T -> Option<T>, sends: T -> T) {
    forall c :: meets(c).Some? ==>
      step(c).Some? && (meets(step(c).value) == meets(c) || step(c).value == sends(meets(c).value))
  }

  ghost predicate Hops<T(!new)>(hop: T -> Option<T>, meets: T -> Option<T>, sends: T -> T) {
    forall a :: hop(a) == meets(sends(a))
  }

  /** Going from stop to stop takes at least a step each. */
  lemma {:induction false} HopsTakeSteps<T(!new)>(step: T -> Option<T>, meets: T -> Option<T>, sends: T -> T,
                                                  hop: T -> Option<T>, c: T, n: nat)
    requires Leads(step, meets, sends) && Hops(hop, meets, sends)
    requires meets(c).Some? && At(hop, meets(c).value, n).Some?
    ensures At(step, c, n).Some?
    decreases n
  {
    if n > 0 {
      NextStop(step, meets, sends, hop, c, n);
      HopsTakeSteps(step, meets, sends, hop, step(c).value, n - 1);
      StepFirst(step, c, n);
    }
  }

  lemma {:induction false} StepFirst<T>(step: T -> Option<T>, c: T, n: nat)
    requires n > 0 && step(c).Some? && At(step, step(c).value, n - 1).Some?
    ensures At(step, c, n).Some?
  {
    AtAdd(step, c, 1, n - 1);
    assert At(step, c, 0) == Some(c) && At(step, c, 1) == step(c);
  }

  lemma {:induction false} NextStop<T(!new)>(step: T -> Option<T>, meets: T -> Option<T>, sends: T -> T,
                                             hop: T -> Option<T>, c: T, n: nat)
    requires Leads(step, meets, sends) && Hops(hop, meets, sends) && n > 0
    requires meets(c).Some? && At(hop, meets(c).value, n).Some?
    ensures step(c).Some? && meets(step(c).value).Some? && At(hop, meets(step(c).value).value, n - 1).Some?
  {
    FirstStep(hop, meets(c).value, n);
  }
}
