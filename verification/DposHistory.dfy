/** Where the numbers of a header come from, over whole runs: who produced when, and which schedule was announced
    when. */
module DposHistory {
  import opened Dpos

  // ---- What a producer implies and when it produced ----

  /** Block i + 2 is the last one by `q` up to header `j`. */
  ghost predicate LastBy(bs: seq<Block>, j: nat, q: Producer, i: int)
    requires j <= |bs|
  {
    0 <= i < j && bs[i].producer == q && NotBy(bs, i + 1, j, q)
  }

  ghost predicate NotBy(bs: seq<Block>, i: nat, j: nat, q: Producer)
    requires j <= |bs|
  {
    forall k :: i <= k < j ==> bs[k].producer != q
  }

  /** Header i + 1 brought `q` into the schedule, and `q` has not produced since. */
  ghost predicate JoinedAt(hs: seq<Header>, bs: seq<Block>, j: nat, q: Producer, i: int)
    requires |hs| == |bs| + 1 && j <= |bs|
  {
    0 <= i < j && Promotes(hs[i], bs[i].producer) && q in hs[i].pending && NotBy(bs, i, j, q)
  }

  ghost predicate ImpliesSince(hs: seq<Header>, i: nat, j: nat, q: Producer)
    requires j < |hs|
  {
    forall k :: i <= k <= j ==> q in hs[k].implied
  }

  /** `q` implies what was proposed when it last produced, or what was irreversible when it came in. */
  ghost predicate ImpliesFrom(hs: seq<Header>, bs: seq<Block>, j: nat, q: Producer, i: int, v: nat)
    requires |hs| == |bs| + 1 && j <= |bs|
  {
    || (LastBy(bs, j, q, i) && ImpliesSince(hs, i + 1, j, q) && v == hs[i].proposed)
    || (JoinedAt(hs, bs, j, q, i) && q !in hs[i].implied && ImpliesSince(hs, i + 1, j, q) && v == hs[i+1].lib)
  }

  lemma {:induction false} ImpliesOn(hs: seq<Header>, bs: seq<Block>, j: nat, q: Producer, i: int, v: nat)
    requires |hs| == |bs| + 1 && j < |bs| && ImpliesFrom(hs, bs, j, q, i, v)
    requires bs[j].producer != q && q in hs[j+1].implied
    ensures ImpliesFrom(hs, bs, j + 1, q, i, v)
  {
  }

  lemma {:induction false} ImpliedNext(h: Header, b: Block, n: Header, q: Producer)
    requires IsStep(h, b, n) && q in n.implied
    ensures n.implied[q] ==
            if q == b.producer then h.proposed else if q in h.implied then h.implied[q] else n.lib
    ensures q != b.producer && q !in h.implied ==> Promotes(h, b.producer) && q in h.pending
  {
  }

  /** In every run, through any changes of schedule. */
  lemma {:induction false} ImpliedExactly(hs: seq<Header>, bs: seq<Block>, j: nat, q: Producer)
    requires IsRun(hs, bs) && j < |hs| && q in hs[j].implied
    ensures exists i :: ImpliesFrom(hs, bs, j, q, i, hs[j].implied[q])
  {
    if j > 0 {
      var h, b := hs[j-1], bs[j-1];
      assert StepAt(hs, bs, j - 1);
      ImpliedNext(h, b, hs[j], q);
      if q != b.producer && q in h.implied {
        ImpliedExactly(hs, bs, j - 1, q);
        var i :| ImpliesFrom(hs, bs, j - 1, q, i, h.implied[q]);
        ImpliesOn(hs, bs, j - 1, q, i, h.implied[q]);
      } else {
        assert ImpliesFrom(hs, bs, j, q, j - 1, hs[j].implied[q]);
      }
    }
  }

  ghost predicate CountedSince(hs: seq<Header>, i: nat, j: nat, q: Producer)
    requires j < |hs|
  {
    forall k :: i <= k <= j ==> q in hs[k].lastProduced
  }

  /** `q` counts as having produced its last block, or what was irreversible when it came in. */
  ghost predicate CountsFrom(hs: seq<Header>, bs: seq<Block>, j: nat, q: Producer, i: int, v: nat)
    requires |hs| == |bs| + 1 && j <= |bs|
  {
    || (LastBy(bs, j, q, i) && CountedSince(hs, i + 1, j, q) && v == i + 2)
    || (JoinedAt(hs, bs, j, q, i) && q !in hs[i].lastProduced && CountedSince(hs, i + 1, j, q) && v == hs[i+1].lib)
  }

  lemma {:induction false} CountsOn(hs: seq<Header>, bs: seq<Block>, j: nat, q: Producer, i: int, v: nat)
    requires |hs| == |bs| + 1 && j < |bs| && CountsFrom(hs, bs, j, q, i, v)
    requires bs[j].producer != q && q in hs[j+1].lastProduced
    ensures CountsFrom(hs, bs, j + 1, q, i, v)
  {
  }

  lemma {:induction false} LastNext(h: Header, b: Block, n: Header, q: Producer)
    requires IsStep(h, b, n) && q in n.lastProduced
    ensures n.lastProduced[q] ==
            if q == b.producer then h.num + 1 else if q in h.lastProduced then h.lastProduced[q] else n.lib
    ensures q != b.producer && q !in h.lastProduced ==> Promotes(h, b.producer) && q in h.pending
  {
  }

  lemma {:induction false} LastProducedExactly(hs: seq<Header>, bs: seq<Block>, j: nat, q: Producer)
    requires IsRun(hs, bs) && j < |hs| && q in hs[j].lastProduced
    ensures exists i :: CountsFrom(hs, bs, j, q, i, hs[j].lastProduced[q])
  {
    if j > 0 {
      var h, b := hs[j-1], bs[j-1];
      RunIsSane(hs, bs, j - 1);
      assert StepAt(hs, bs, j - 1);
      LastNext(h, b, hs[j], q);
      if q != b.producer && q in h.lastProduced {
        LastProducedExactly(hs, bs, j - 1, q);
        var i :| CountsFrom(hs, bs, j - 1, q, i, h.lastProduced[q]);
        CountsOn(hs, bs, j - 1, q, i, h.lastProduced[q]);
      } else {
        assert CountsFrom(hs, bs, j, q, j - 1, hs[j].lastProduced[q]);
      }
    }
  }

  // ---- Which schedule is active ----

  /** What header `j` has pending was announced by block a + 2, which has not become irreversible since. */
  ghost predicate Announced(hs: seq<Header>, bs: seq<Block>, j: nat, a: int)
    requires |hs| == |bs| + 1 && j <= |bs|
  {
    && 0 <= a < j && hs[a].pending == [] && bs[a].proposal != []
    && forall k :: a < k <= j ==> Waiting(hs[a], bs[a], hs[k], a + 2)
  }

  ghost predicate Waiting(h: Header, b: Block, n: Header, num: nat) {
    n.pending == b.proposal && n.pendingLib == num && n.schedule == h.schedule && n.lib < num
  }

  /** In every run a pending schedule is one that a block announced, but for the first. */
  lemma {:induction false} PendingExactly(hs: seq<Header>, bs: seq<Block>, j: nat)
    requires IsRun(hs, bs) && 0 < j < |hs| && hs[j].pending != []
    ensures exists a :: Announced(hs, bs, j, a)
  {
    var h, b := hs[j-1], bs[j-1];
    RunIsSane(hs, bs, j - 1);
    assert StepAt(hs, bs, j - 1);
    LibBelowNum(h, b.producer, b.confirms, b.proposal);
    if h.pending == [] {
      assert Announced(hs, bs, j, j - 1);
    } else if j > 1 {
      PendingExactly(hs, bs, j - 1);
      var a :| Announced(hs, bs, j - 1, a);
      assert Waiting(hs[a], bs[a], hs[j-1], a + 2);
      assert Announced(hs, bs, j, a);
    }
  }

  /** It takes over with the first header that makes the announcing block irreversible. */
  lemma {:induction false} TakesOverExactly(hs: seq<Header>, bs: seq<Block>, j: nat, a: int)
    requires IsRun(hs, bs) && j < |bs| && Announced(hs, bs, j, a)
    ensures if hs[j+1].lib >= a + 2 then hs[j+1].schedule == bs[a].proposal && hs[j+1].pending == []
            else hs[j+1].schedule == hs[a].schedule && Announced(hs, bs, j + 1, a)
  {
    assert StepAt(hs, bs, j);
    assert Waiting(hs[a], bs[a], hs[j], a + 2);
  }

  /** With nothing pending the schedule stays, and what the block announces is pending. */
  lemma {:induction false} NothingPending(hs: seq<Header>, bs: seq<Block>, j: nat)
    requires IsRun(hs, bs) && j < |bs| && hs[j].pending == []
    ensures hs[j+1].schedule == hs[j].schedule && hs[j+1].pending == bs[j].proposal
    ensures bs[j].proposal != [] ==> Announced(hs, bs, j + 1, j)
  {
    RunIsSane(hs, bs, j);
    assert StepAt(hs, bs, j);
    LibBelowNum(hs[j], bs[j].producer, bs[j].confirms, bs[j].proposal);
  }
}
