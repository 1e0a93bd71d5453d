/** A node receives the blocks of a run of headers: what a fall of the irreversible number does to it. */
module ForkHeaders {
  import opened Sequences
  import opened ForkTree
  import opened ForkDatabase
  import opened ForkStore
  import opened ForkSync
  import Dpos
  import DposRuns

  // ---- A node that has received nothing but the blocks of one chain ----

  /** It holds blocks of the chain up to its head, along which the irreversible number does not fall. */
  ghost predicate Tidy(chain: seq<Block>, s: State) {
    && IsNumber(chain, s.head)
    && (forall y <- s.index :: IsNumber(chain, y) && y.num <= s.head.num) && LibNeverFalls(s.index)
  }

  ghost predicate Ready(chain: seq<Block>, s: State) {
    Settled(s) && IsChain(chain) && Agrees(chain, s) && Tidy(chain, s)
  }

  /** The next block is new, and built on the head. */
  lemma {:induction false} NextOnHead(chain: seq<Block>, s: State)
    requires Ready(chain, s) && s.head.num < |chain|
    ensures var b := chain[s.head.num].(validated := false);
            Fresh(s, b) && b.previous == s.head && (Follows(chain, s) <==> b.lib >= s.Get(s.head).lib)
  {
    var h := s.head.num;
    assert chain[h].previous == chain[h-1].id == s.head;
    IsFresh(s, chain[h].(validated := false));
  }

  lemma {:induction false} TidyAfter(chain: seq<Block>, s: State, t: State)
    requires Ready(chain, s) && s.head.num < |chain| && Follows(chain, s)
    requires PushLeaves(s, chain[s.head.num], t)
    ensures Tidy(chain, t) && t.head in t.index
  {
    var b := chain[s.head.num];
    NextOnHead(chain, s);
    forall x | x in t.index && t.index[x].previous in t.index
      ensures t.index[x].lib >= t.index[t.index[x].previous].lib
    {
      RisesInto(chain, s, t, x);
    }
  }

  lemma {:induction false} RisesInto(chain: seq<Block>, s: State, t: State, x: BlockId)
    requires Ready(chain, s) && s.head.num < |chain| && Follows(chain, s) && Within(t, s, chain[s.head.num])
    requires x in t.index && t.index[x].previous in t.index && Tree(t)
    ensures t.index[x].lib >= t.index[t.index[x].previous].lib
  {
    var b, p := chain[s.head.num], t.index[x].previous;
    NextOnHead(chain, s);
    BelowRoot(s);
    assert Linked(t.index[x]) && p != b.id;
    assert From(t.index[x], s, b) && From(t.index[p], s, b);
    if x == b.id { assert p == s.head; }
  }

  /** The next block claims an older irreversible block: it is kept beside the head. */
  lemma {:induction false} StuckAfter(chain: seq<Block>, s: State)
    requires Ready(chain, s) && s.head.num < |chain| && !Follows(chain, s) && s.head in s.index
    ensures !LibNeverFalls(Pushed(s, chain[s.head.num]).0.index)
  {
    var b := chain[s.head.num].(validated := false);
    NextOnHead(chain, s);
    PushedIs(s, chain[s.head.num]);
    var m := With(s, b).index;
    assert b.id in m && m[b.id].previous == s.head && s.head in m && m[s.head] == s.index[s.head];
  }

  lemma {:induction false} ReadyAfter(chain: seq<Block>, s: State)
    requires Ready(chain, s) && s.head.num < |chain| && Follows(chain, s)
    ensures var t := Pushed(s, chain[s.head.num]).0;
            Ready(chain, t) && t.head in t.index && t.head.num == s.head.num + 1
  {
    PushedExact(s, chain[s.head.num]);
    PushedAgrees(chain, s);
    TidyAfter(chain, s, Pushed(s, chain[s.head.num]).0);
  }

  /** It catches up exactly as far as it stays tidy. */
  lemma {:induction false} TidyExactly(chain: seq<Block>, s: State, n: nat)
    requires Ready(chain, s) && n <= |chain| && (s.head in s.index || s.head.num == |chain| || Follows(chain, s))
    ensures var (t, ok) := CaughtUp(chain, s, n);
            Settled(t) &&
            if ok then Ready(chain, t) && (t == s || t.head in t.index) else !LibNeverFalls(t.index)
    decreases n - s.head.num
  {
    if s.head.num < n {
      CaughtUpStep(chain, s, n);
      if Follows(chain, s) {
        ReadyAfter(chain, s);
        TidyExactly(chain, Pushed(s, chain[s.head.num]).0, n);
      } else {
        StuckAfter(chain, s);
      }
    }
  }

  // ---- The blocks of a run of headers ----

  /** One branch: block n is at n - 1. */
  function ChainOf(hs: seq<Dpos.Header>): seq<Block> {
    seq(|hs|, i requires 0 <= i < |hs| => Block(BlockId(i + 1, 0), BlockId(i, 0), hs[i].lib, false))
  }

  lemma {:induction false} RunIsChain(hs: seq<Dpos.Header>, bs: seq<Dpos.Block>)
    requires Dpos.IsRun(hs, bs)
    ensures IsChain(ChainOf(hs)) && hs[0].lib == 0
  {
    forall i | 0 <= i < |hs| ensures hs[i].lib <= i {
      if i > 0 {
        Dpos.RunIsSane(hs, bs, i - 1);
        assert Dpos.StepAt(hs, bs, i - 1);
        Dpos.LibBelowNum(hs[i-1], bs[i-1].producer, bs[i-1].confirms, bs[i-1].proposal);
      }
    }
  }

  /** A change of schedule just before, with at least a third of the new producers, the next one aside, behind. */
  ghost predicate FallsAt(hs: seq<Dpos.Header>, bs: seq<Dpos.Block>, i: int)
    requires |hs| == |bs| + 1 && 0 <= i < |bs|
  {
    i > 0 && Dpos.Promotes(hs[i-1], bs[i-1].producer) && Dpos.Lag(hs[i], bs[i].producer)
  }

  /** What pushing the first `n` blocks of the run to a node at its first block leads to. */
  ghost function Received(hs: seq<Dpos.Header>, n: nat): (State, bool)
    requires 0 < n <= |hs|
  {
    CaughtUp(ChainOf(hs), Reset(ChainOf(hs)[0]), n)
  }

  lemma {:induction false} ResetIsReady(hs: seq<Dpos.Header>, bs: seq<Dpos.Block>)
    requires Dpos.IsRun(hs, bs)
    ensures var chain, s := ChainOf(hs), Reset(ChainOf(hs)[0]);
            && Ready(chain, s) && s.head.num == 1 && Same(s.Get(s.head), chain[0])
            && (|hs| == 1 || Follows(chain, s))
  {
    RunIsChain(hs, bs);
    var chain, s := ChainOf(hs), Reset(ChainOf(hs)[0]);
    ResetSettles(chain[0]);
    if |hs| > 1 { NextOnHead(chain, s); }
  }

  lemma {:induction false} RisesExactly(hs: seq<Dpos.Header>, bs: seq<Dpos.Block>, n: nat)
    requires Dpos.IsRun(hs, bs) && 0 < n <= |hs|
    ensures Rises(ChainOf(hs), 0, n) <==> forall i :: 0 <= i < n - 1 ==> !FallsAt(hs, bs, i)
  {
    var chain := ChainOf(hs);
    forall i | 0 <= i < n - 1 ensures FallsAt(hs, bs, i) <==> chain[i+1].lib < chain[i].lib {
      Dpos.LibFallsExactly(hs, bs, i);
    }
    if Rises(chain, 0, n) {
      forall i | 0 <= i < n - 1 ensures !FallsAt(hs, bs, i) { assert chain[i+1].lib >= chain[i+1-1].lib; }
    } else {
      var i :| 0 < i < n && chain[i].lib < chain[i-1].lib;
      assert FallsAt(hs, bs, i - 1);
    }
  }

  /** For every run of headers: a node that starts at its first block gets to block `n` of it exactly when no
      change of schedule makes the irreversible number fall on the way, and then holds that branch; its database
      can be closed and opened again exactly when it got there. */
  lemma {:induction false} ReceivedExactly(hs: seq<Dpos.Header>, bs: seq<Dpos.Block>, n: nat)
    requires Dpos.IsRun(hs, bs) && 0 < n <= |hs|
    ensures var (t, ok) := Received(hs, n);
            && (ok <==> forall i :: 0 <= i < n - 1 ==> !FallsAt(hs, bs, i))
            && (ok ==> t.head == ChainOf(hs)[n-1].id && OnChain(ChainOf(hs), t))
            && Loaded(Saved(t)) == if ok then Some(t) else None
  {
    var chain, s := ChainOf(hs), Reset(ChainOf(hs)[0]);
    ResetIsReady(hs, bs);
    RisesExactly(hs, bs, n);
    CaughtUpOnChain(chain, s, n);
    TidyExactly(chain, s, n);
    RoundTrip(CaughtUp(chain, s, n).0);
  }

  /** A block that the node produces on its head is added and marked valid. */
  ghost function Committed(s: State, b: Block): State
    requires Inv(s) && Linked(b)
  {
    AddedKeepsInv(s, b, false);
    MarkedValid(Added(s, b, false).0, b).0
  }

  /** Committing the next block of the run makes it the head exactly when the irreversible number does not fall. */
  lemma {:induction false} CommittedExactly(hs: seq<Dpos.Header>, bs: seq<Dpos.Block>, n: nat)
    requires Dpos.IsRun(hs, bs) && 0 < n < |hs| && Received(hs, n).1
    ensures Inv(Received(hs, n).0) && Linked(ChainOf(hs)[n])
    ensures Committed(Received(hs, n).0, ChainOf(hs)[n]).head == ChainOf(hs)[n].id <==> !FallsAt(hs, bs, n - 1)
  {
    ReceivedReady(hs, bs, n);
    HeadLib(hs, Received(hs, n).0, n);
    CommittedOn(ChainOf(hs), Received(hs, n).0);
    Dpos.LibFallsExactly(hs, bs, n - 1);
  }

  lemma {:induction false} ReceivedReady(hs: seq<Dpos.Header>, bs: seq<Dpos.Block>, n: nat)
    requires Dpos.IsRun(hs, bs) && 0 < n <= |hs| && Received(hs, n).1
    ensures var t := Received(hs, n).0;
            && Ready(ChainOf(hs), t) && (t == Reset(ChainOf(hs)[0]) || t.head in t.index)
            && t.head == ChainOf(hs)[n-1].id
  {
    ResetIsReady(hs, bs);
    ReceivedExactly(hs, bs, n);
    TidyExactly(ChainOf(hs), Reset(ChainOf(hs)[0]), n);
  }

  lemma {:induction false} CommittedOn(chain: seq<Block>, t: State)
    requires Ready(chain, t) && t.head.num < |chain| && !chain[t.head.num].validated
    requires t.head == t.root.id ==> !SomeValidated(t.index)
    ensures var b := chain[t.head.num];
            Linked(b) && (Committed(t, b).head == b.id <==> b.lib >= t.Get(t.head).lib)
  {
    NextOnHead(chain, t);
    var b := chain[t.head.num];
    assert b == b.(validated := false);
    CommitBecomesHead(t, b);
  }

  /** The head's irreversible number is the one of its header, and the head is the root only at the start. */
  lemma {:induction false} HeadLib(hs: seq<Dpos.Header>, t: State, n: nat)
    requires 0 < n <= |hs| && Ready(ChainOf(hs), t) && (t == Reset(ChainOf(hs)[0]) || t.head in t.index)
    requires t.head == ChainOf(hs)[n-1].id
    ensures t.Get(t.head).lib == hs[n-1].lib && (t.head == t.root.id ==> !SomeValidated(t.index))
  {
    if t.head in t.index { assert Same(t.index[t.head], ChainOf(hs)[n-1]); }
  }

  /** A run from genesis, and a block of it that stops nodes: it does not become the head of a node that
      produces it on the block before, a node that is sent the run does not get to it, and the database of that
      node cannot be opened again. */
  lemma {:induction false} FallStopsNodes() returns (hs: seq<Dpos.Header>, bs: seq<Dpos.Block>, n: nat)
    ensures Dpos.IsRun(hs, bs) && 0 < n < |hs| && Received(hs, n).1 && Inv(Received(hs, n).0)
    ensures Linked(ChainOf(hs)[n]) && Committed(Received(hs, n).0, ChainOf(hs)[n]).head != ChainOf(hs)[n].id
    ensures !Received(hs, n + 1).1 && Loaded(Saved(Received(hs, n + 1).0)) == None
  {
    hs, bs := DposRuns.PromotionLowersLib();
    Dpos.LibFallsExactly(hs, bs, 9);
    n := FirstFall(hs, bs, 10);
    ReceivedExactly(hs, bs, n);
    ReceivedExactly(hs, bs, n + 1);
    CommittedExactly(hs, bs, n);
  }

  lemma {:induction false} FirstFall(hs: seq<Dpos.Header>, bs: seq<Dpos.Block>, k: nat) returns (n: nat)
    requires |hs| == |bs| + 1 && 0 < k <= |bs| && FallsAt(hs, bs, k - 1)
    ensures 0 < n <= k && FallsAt(hs, bs, n - 1) && forall i :: 0 <= i < n - 1 ==> !FallsAt(hs, bs, i)
  {
    n := k;
    if i :| 0 <= i < k - 1 && FallsAt(hs, bs, i) { n := FirstFall(hs, bs, i + 1); }
  }
}
