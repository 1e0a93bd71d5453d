/** The helpers that let test chains produce blocks until something happens. */
module ForkUtilities {

  // ---- Producing until a predicate holds ----

  /** A chain under test, seen through the heights it passes: who produced the head block and who will
      produce the pending one. */
  class Tester<Name> {
    const headProducer: nat -> Name
    const pendingProducer: nat -> Name
    var height: nat

    constructor (headProducer: nat -> Name, pendingProducer: nat -> Name, height: nat)
      ensures this.headProducer == headProducer && this.pendingProducer == pendingProducer && this.height == height
    {
      this.headProducer, this.pendingProducer, this.height := headProducer, pendingProducer, height;
    }

    method ProduceBlock()
      modifies this
      ensures height == old(height) + 1
    {
      height := height + 1;
    }
  }

  /** A predicate with state: given its state and the height, its answer and its next state. */
  type Pred<!P> = (P, nat) -> (bool, P)

  /** The state of the predicate when it is asked for the k-th time, counting from zero. */
  function StateAt<P>(pred: Pred<P>, p: P, h: nat, k: nat): P {
    if k == 0 then p else pred(StateAt(pred, p, h, k - 1), h + k - 1).1
  }

  predicate Hit<P>(pred: Pred<P>, p: P, h: nat, k: nat) {
    pred(StateAt(pred, p, h, k), h + k).0
  }

  /** `k` is the first time the predicate holds. */
  ghost predicate FirstHit<P>(pred: Pred<P>, p: P, h: nat, k: nat) {
    Hit(pred, p, h, k) && forall j: nat :: j < k ==> !Hit(pred, p, h, j)
  }

  method ProduceEmptyBlocksUntil<Name, P>(t: Tester<Name>, max: nat, pred: Pred<P>, start: P) returns (found: bool)
    modifies t
    ensures found ==> old(t.height) <= t.height <= old(t.height) + max
                      && FirstHit(pred, start, old(t.height), t.height - old(t.height))
    ensures !found ==> t.height == old(t.height) + max
    ensures !found ==> forall k: nat :: k <= max ==> !Hit(pred, start, old(t.height), k)
  {
    var p := start;
    ghost var h := t.height;
    var produced := 0;
    while produced < max
      invariant produced <= max && t.height == h + produced && p == StateAt(pred, start, h, produced)
      invariant forall k: nat :: k < produced ==> !Hit(pred, start, h, k)
    {
      var (hit, p') := pred(p, t.height);
      p := p';
      if hit { assert Hit(pred, start, h, produced); return true; }
      t.ProduceBlock();
      produced := produced + 1;
    }
    var (hit, _) := pred(p, t.height);
    assert hit == Hit(pred, start, h, max);
    return hit;
  }

  method ProduceUntilTransition<Name(==)>(t: Tester<Name>, last: Name, next: Name, max: nat) returns (found: bool)
    modifies t
    ensures var at := (k: nat) => t.pendingProducer(k) == next && t.headProducer(k) == last;
            var h := old(t.height);
            if found then h <= t.height <= h + max && at(t.height) && forall k: nat :: h <= k < t.height ==> !at(k)
            else t.height == h + max && forall k: nat :: h <= k <= h + max ==> !at(k)
  {
    var pending, head := t.pendingProducer, t.headProducer;
    var pred: Pred<()> := (p: (), k: nat) => (pending(k) == next && head(k) == last, ());
    ghost var h := t.height;
    found := ProduceEmptyBlocksUntil(t, max, pred, ());
    assert forall k: nat :: h <= k ==> (Hit(pred, (), h, k - h) <==> pending(k) == next && head(k) == last);
  }

  /** The producers of the head blocks at heights h, h + 1, ..., h + k - 1. */
  function Sampled<Name(==)>(head: nat -> Name, h: nat, k: nat): set<Name> {
    if k == 0 then {} else Sampled(head, h, k - 1) + {head(h + k - 1)}
  }

  function Erasing<Name(==)>(head: nat -> Name): Pred<set<Name>> {
    (remaining: set<Name>, k: nat) => (remaining - {head(k)} == {}, remaining - {head(k)})
  }

  /** The captured set always is what has not been sampled yet. */
  lemma {:induction false} ErasingState<Name>(head: nat -> Name, expected: set<Name>, h: nat, k: nat)
    ensures StateAt(Erasing(head), expected, h, k) == expected - Sampled(head, h, k)
  {
    if k > 0 { ErasingState(head, expected, h, k - 1); }
  }

  /** Everyone expected is among the producers sampled at blocks 0..k. */
  predicate AllSeen<Name(==)>(head: nat -> Name, expected: set<Name>, h: nat, k: nat) {
    expected <= Sampled(head, h, k + 1)
  }

  lemma {:induction false} ErasingHit<Name>(head: nat -> Name, expected: set<Name>, h: nat, k: nat)
    ensures Hit(Erasing(head), expected, h, k) <==> AllSeen(head, expected, h, k)
  {
    ErasingState(head, expected, h, k);
    ErasingState(head, expected, h, k + 1);
  }

  /** Stops at the least number of blocks after which all expected producers have been seen, looking at
      the head before the first block too; gives up after exactly `max` blocks. */
  method ProduceUntilBlocksFrom<Name(==)>(t: Tester<Name>, expected: set<Name>, max: nat) returns (found: bool)
    modifies t
    ensures var h := old(t.height);
            var produced := t.height - h;
            if found then
              && 0 <= produced <= max && AllSeen(t.headProducer, expected, h, produced)
              && forall k: nat :: k < produced ==> !AllSeen(t.headProducer, expected, h, k)
            else produced == max && forall k: nat :: k <= max ==> !AllSeen(t.headProducer, expected, h, k)
  {
    ghost var h := t.height;
    found := ProduceEmptyBlocksUntil(t, max, Erasing(t.headProducer), expected);
    forall k: nat ensures Hit(Erasing(t.headProducer), expected, h, k) <==> AllSeen(t.headProducer, expected, h, k) {
      ErasingHit(t.headProducer, expected, h, k);
    }
  }
}
