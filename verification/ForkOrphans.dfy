/** A run of the fork database after which advancing the root would leave blocks without a parent. */
module ForkOrphans {
  import opened ForkTree
  import opened ForkDatabase

  const ROOT: Block := Block(BlockId(0, 0), BlockId(0, 0), 0, true)
  const HEAD: Block := Block(BlockId(1, 0), ROOT.id, 0, false)
  const RIVAL: Block := Block(BlockId(1, 1), ROOT.id, 0, false)
  const CHILD: Block := Block(BlockId(2, 1), RIVAL.id, 0, false)

  function Valid(b: Block): Block { b.(validated := true) }

  const M1: Index := map[HEAD.id := HEAD]
  const M2: Index := map[HEAD.id := Valid(HEAD)]
  const M3: Index := map[HEAD.id := Valid(HEAD), RIVAL.id := RIVAL]
  const M4: Index := map[HEAD.id := Valid(HEAD), RIVAL.id := Valid(RIVAL)]
  const M5: Index := map[HEAD.id := Valid(HEAD), RIVAL.id := Valid(RIVAL), CHILD.id := CHILD]

  lemma {:induction false} HeadIsFirst()
    ensures First(M1) == First(M2) == First(M3) == First(M4) == First(M5) == HEAD.id
  {
    FirstUnique(M1, HEAD.id);
    FirstUnique(M2, HEAD.id);
    FirstUnique(M3, HEAD.id);
    FirstUnique(M4, HEAD.id);
    FirstUnique(M5, HEAD.id);
  }

  const S1: State := State(ROOT, ROOT.id, M1)
  const S2: State := State(ROOT, HEAD.id, M2)
  const S3: State := State(ROOT, HEAD.id, M3)
  const S4: State := State(ROOT, HEAD.id, M4)
  const S5: State := State(ROOT, HEAD.id, M5)

  lemma {:induction false} HeadSet()
    ensures IsStep(Reset(ROOT), DoAdd(HEAD, false), S1) && IsStep(S1, DoMarkValid(HEAD), S2)
  {
    HeadIsFirst();
    assert Reset(ROOT).index[HEAD.id := HEAD] == M1;
    assert M1[HEAD.id := Valid(HEAD)] == M2;
  }

  lemma {:induction false} RivalSet()
    ensures IsStep(S2, DoAdd(RIVAL, false), S3) && IsStep(S3, DoMarkValid(RIVAL), S4)
  {
    HeadIsFirst();
    assert M2[RIVAL.id := RIVAL] == M3;
    assert M3[RIVAL.id := Valid(RIVAL)] == M4;
  }

  lemma {:induction false} ChildSet()
    ensures IsStep(S4, DoAdd(CHILD, false), S5)
  {
    HeadIsFirst();
    assert M4[CHILD.id := CHILD] == M5;
  }

  lemma {:induction false} RivalHasChild()
    ensures Orphans(S5, RIVAL.id)
  {
    assert CHILD.id in M5 && M5[CHILD.id].previous == RIVAL.id;
    assert !Above(M5, ROOT.id, RIVAL.id);
  }

  lemma {:induction false} IsRunOfFive(states: seq<State>, ops: seq<Op>)
    requires |states| == 6 && |ops| == 5 && states[0] == Reset(ROOT)
    requires IsStep(states[0], ops[0], states[1]) && IsStep(states[1], ops[1], states[2])
    requires IsStep(states[2], ops[2], states[3]) && IsStep(states[3], ops[3], states[4])
    requires IsStep(states[4], ops[4], states[5])
    ensures IsRun(states, ops)
  {
    forall i | 0 <= i < 5 ensures IsStep(states[i], ops[i], states[i+1]) {
      assert i == 0 || i == 1 || i == 2 || i == 3 || i == 4;
    }
  }

  /** Two validated blocks on the root, the first the head, and a block on the second. */
  lemma {:induction false} OrphaningIsReachable() returns (states: seq<State>, ops: seq<Op>)
    ensures IsRun(states, ops) && |states| == 6 && Orphans(states[5], RIVAL.id)
    ensures !Inv(Advanced(states[5], RIVAL.id).0)
  {
    HeadSet();
    RivalSet();
    ChildSet();
    states := [Reset(ROOT), S1, S2, S3, S4, S5];
    ops := [DoAdd(HEAD, false), DoMarkValid(HEAD), DoAdd(RIVAL, false), DoMarkValid(RIVAL), DoAdd(CHILD, false)];
    IsRunOfFive(states, ops);
    RunKeepsInv(states, ops, 5);
    RivalHasChild();
    AdvancedKeepsInv(S5, RIVAL.id);
  }
}
